/**
 * The daily draw of GetTodaysGame (Services/LanguageGameService.cs:39-52):
 * the seed derived from the date, two draws from a generator seeded with it,
 * and the session they determine.
 */
module DailySession {
  import opened Wrappers
  import opened Models

  predicate IsLeapYear(year: int) {
    year % 4 == 0 && (year % 100 != 0 || year % 400 == 0)
  }

  function DaysInMonth(year: int, month: int): int
    requires 1 <= month <= 12
  {
    if month == 2 then (if IsLeapYear(year) then 29 else 28)
    else if month == 4 || month == 6 || month == 9 || month == 11 then 30
    else 31
  }

  /** The dates a `DateTime` can hold (years 1 to 9999 of the Gregorian calendar). */
  predicate ValidDate(d: Date) {
    1 <= d.year <= 9999 && 1 <= d.month <= 12 && 1 <= d.day <= DaysInMonth(d.year, d.month)
  }

  /** The largest value of a C# `int`. */
  const IntMax: int := 0x7FFF_FFFF

  /** The seed and session id of a day: its digits yyyymmdd read as a number. */
  function Seed(d: Date): (seed: int)
    requires ValidDate(d)
    ensures 10101 <= seed <= 99991231 <= IntMax
  {
    d.year * 10000 + d.month * 100 + d.day
  }

  /** `a == q * 100 + r` with `0 <= r < 100` determines quotient and remainder by 100. */
  lemma DivMod100(a: int, q: int, r: int)
    requires 0 <= r < 100 && a == q * 100 + r
    ensures a / 100 == q && a % 100 == r
  {}

  /** The decimal digits of a day's seed are its year, month and day. */
  lemma SeedDigits(d: Date)
    requires ValidDate(d)
    ensures Seed(d) % 100 == d.day && Seed(d) / 100 % 100 == d.month && Seed(d) / 10000 == d.year
  {
    var s := Seed(d);
    var hundreds := d.year * 100 + d.month;
    assert s == hundreds * 100 + d.day;
    DivMod100(s, hundreds, d.day);
    DivMod100(hundreds, d.year, d.month);
    assert s / 10000 == s / 100 / 100;
  }

  /** Different days have different seeds, so the seed identifies the day's session. */
  lemma SeedInjective(d1: Date, d2: Date)
    requires ValidDate(d1) && ValidDate(d2)
    ensures Seed(d1) == Seed(d2) <==> d1 == d2
  {
    SeedDigits(d1);
    SeedDigits(d2);
    if Seed(d1) == Seed(d2) {
      assert d1.year == d2.year && d1.month == d2.month && d1.day == d2.day;
    }
  }

  /**
   * The seeded generator `new Random(seed)`: `draw(seed, k, n)` is the value of
   * the k-th call `Next(n)` (counting from 0), which lies in [0, n) when n > 0.
   */
  type Draw = f: (int, nat, nat) -> nat | forall seed, k, n :: 0 < n ==> f(seed, k, n) < n
    witness (seed: int, k: nat, n: nat) => 0

  /**
   * The session a fresh call of GetTodaysGame creates for `today`, or the
   * exception it throws: the first draw picks a language, the second one of
   * its sentences.
   */
  function DrawSession(catalog: seq<Language>, draw: Draw, today: Date): (r: Result<GameSession, ServiceError>)
    requires ValidDate(today)
    ensures r.Err? <==> |catalog| == 0 || !HasSentences(catalog[draw(Seed(today), 0, |catalog|)])
    ensures |catalog| == 0 ==> r == Err(EmptyCatalog)
    ensures r.Ok? ==> SessionOf(catalog, today, r.value)
  {
    var seed := Seed(today);
    if |catalog| == 0 then Err(EmptyCatalog)
    else
      var target := catalog[draw(seed, 0, |catalog|)];
      match target.Sentences
      case None => Err(NullSentences)
      case Some(sentences) =>
        if |sentences| == 0 then Err(NoSentences)
        else
          var sentence := sentences[draw(seed, 1, |sentences|)];
          Ok(GameSession(seed, today, target.Id, target, sentence, false))
  }

  /** A language a sentence can be drawn from: its sentence array is non-null and non-empty. */
  predicate HasSentences(l: Language) {
    l.Sentences.Some? && |l.Sentences.value| > 0
  }

  /** What every session of `today` satisfies, whatever the generator draws. */
  ghost predicate SessionOf(catalog: seq<Language>, today: Date, s: GameSession)
    requires ValidDate(today)
  {
    && s.Id == Seed(today)
    && s.Date == today
    && s.Language in catalog
    && s.LanguageId == s.Language.Id
    && s.Language.Sentences.Some?
    && s.TargetSentence in s.Language.Sentences.value
    && !s.IsCompleted
  }
}
