/**
 * The pure comparisons of the service (Services/LanguageGameService.cs:58-108):
 * set comparison of attribute lists, the speaker-count hint, and CompareGuess.
 */
module GameRules {
  import opened Wrappers
  import opened Models

  /* ---------- StringComparer.OrdinalIgnoreCase ---------- */

  /** Simple upper-case mapping of one character (ASCII letters only). */
  function FoldChar(c: char): (u: char)
    ensures 'a' <= c <= 'z' ==> u as int == c as int - 32
    ensures !('a' <= c <= 'z') ==> u == c
  {
    if 'a' <= c <= 'z' then (c as int - 32) as char else c
  }

  /** The key under which OrdinalIgnoreCase compares a string. */
  function Fold(s: string): (r: string)
    ensures |r| == |s| && forall i :: 0 <= i < |s| ==> r[i] == FoldChar(s[i])
  {
    seq(|s|, i requires 0 <= i < |s| => FoldChar(s[i]))
  }

  /** OrdinalIgnoreCase equality. */
  predicate EqualsIgnoreCase(a: string, b: string)
    ensures EqualsIgnoreCase(a, b) <==> |a| == |b| && forall i :: 0 <= i < |a| ==> FoldChar(a[i]) == FoldChar(b[i])
  {
    assert |a| == |b| && (forall i :: 0 <= i < |a| ==> FoldChar(a[i]) == FoldChar(b[i])) ==> Fold(a) == Fold(b);
    Fold(a) == Fold(b)
  }

  /** `array ??= Array.Empty<string>()`: a null array reads as empty. */
  function OrEmpty(a: StringArray): (r: seq<string>)
    ensures a.None? ==> r == []
  {
    if a.Some? then a.value else []
  }

  /** The contents of `new HashSet<string>(a, StringComparer.OrdinalIgnoreCase)`, one key per class. */
  function FoldedSet(a: StringArray): (r: set<string>)
    ensures r == {} <==> OrEmpty(a) == []
  {
    var xs := OrEmpty(a);
    if xs == [] then {}
    else
      var r := set x | x in xs :: Fold(x);
      assert xs[0] in xs && Fold(xs[0]) in r;
      r
  }

  /* ---------- element-wise reference definitions ---------- */

  /** Every element of `xs` equals, ignoring case, some element of `ys`. */
  ghost predicate Covers(xs: seq<string>, ys: seq<string>) {
    forall x :: x in xs ==> exists y :: y in ys && EqualsIgnoreCase(x, y)
  }

  /** Some element of `xs` equals, ignoring case, some element of `ys`. */
  ghost predicate Overlaps(xs: seq<string>, ys: seq<string>) {
    exists x, y :: x in xs && y in ys && EqualsIgnoreCase(x, y)
  }

  /**
   * GetMatchResult: FullMatch when the two case-insensitive sets are equal,
   * PartialMatch when they share an element but differ, NoMatch otherwise.
   */
  function GetMatchResult(guess: StringArray, target: StringArray): (r: MatchResult)
    ensures var g, t := OrEmpty(guess), OrEmpty(target);
      && (r == FullMatch <==> Covers(g, t) && Covers(t, g))
      && (r == PartialMatch <==> !(Covers(g, t) && Covers(t, g)) && Overlaps(g, t))
      && (r == NoMatch <==> !(Covers(g, t) && Covers(t, g)) && !Overlaps(g, t))
  {
    var gs, ts := FoldedSet(guess), FoldedSet(target);
    FoldedSetEquality(guess, target);
    FoldedSetOverlap(guess, target);
    if gs == ts then FullMatch
    else if gs * ts != {} then PartialMatch
    else NoMatch
  }

  lemma FoldedSetMember(a: StringArray, x: string)
    requires x in OrEmpty(a)
    ensures Fold(x) in FoldedSet(a)
  {}

  /** The folded set of `a` is contained in that of `b` exactly when `a` is covered by `b`. */
  lemma FoldedSubset(a: StringArray, b: StringArray)
    ensures FoldedSet(a) <= FoldedSet(b) <==> Covers(OrEmpty(a), OrEmpty(b))
  {
    var xs, ys := OrEmpty(a), OrEmpty(b);
    if FoldedSet(a) <= FoldedSet(b) {
      forall x | x in xs ensures exists y :: y in ys && EqualsIgnoreCase(x, y) {
        FoldedSetMember(a, x);
        var y :| y in ys && Fold(y) == Fold(x);
        assert EqualsIgnoreCase(x, y);
      }
    }
    if Covers(xs, ys) {
      forall k | k in FoldedSet(a) ensures k in FoldedSet(b) {
        var x :| x in xs && Fold(x) == k;
        var y :| y in ys && EqualsIgnoreCase(x, y);
        FoldedSetMember(b, y);
      }
    }
  }

  lemma FoldedSetEquality(a: StringArray, b: StringArray)
    ensures FoldedSet(a) == FoldedSet(b) <==> Covers(OrEmpty(a), OrEmpty(b)) && Covers(OrEmpty(b), OrEmpty(a))
  {
    FoldedSubset(a, b);
    FoldedSubset(b, a);
  }

  lemma FoldedSetOverlap(a: StringArray, b: StringArray)
    ensures FoldedSet(a) * FoldedSet(b) != {} <==> Overlaps(OrEmpty(a), OrEmpty(b))
  {
    var xs, ys := OrEmpty(a), OrEmpty(b);
    if FoldedSet(a) * FoldedSet(b) != {} {
      var k :| k in FoldedSet(a) * FoldedSet(b);
      var x :| x in xs && Fold(x) == k;
      var y :| y in ys && Fold(y) == k;
      assert EqualsIgnoreCase(x, y);
    }
    if Overlaps(xs, ys) {
      var x, y :| x in xs && y in ys && EqualsIgnoreCase(x, y);
      FoldedSetMember(a, x);
      FoldedSetMember(b, y);
      assert Fold(x) in FoldedSet(a) * FoldedSet(b);
    }
  }

  /* ---------- properties of GetMatchResult ---------- */

  /** A list always fully matches itself. */
  lemma MatchReflexive(a: StringArray)
    ensures GetMatchResult(a, a) == FullMatch
  {
    var xs := OrEmpty(a);
    forall x | x in xs ensures exists y :: y in xs && EqualsIgnoreCase(x, y) {
      assert EqualsIgnoreCase(x, x);
    }
  }

  /** The classification does not depend on which list is the guess. */
  lemma MatchSymmetric(a: StringArray, b: StringArray)
    ensures GetMatchResult(a, b) == GetMatchResult(b, a)
  {
    var xs, ys := OrEmpty(a), OrEmpty(b);
    if Overlaps(xs, ys) {
      var x, y :| x in xs && y in ys && EqualsIgnoreCase(x, y);
      assert EqualsIgnoreCase(y, x);
    }
    if Overlaps(ys, xs) {
      var y, x :| y in ys && x in xs && EqualsIgnoreCase(y, x);
      assert EqualsIgnoreCase(x, y);
    }
  }

  /** Null and empty lists: two empty sides match fully, exactly one empty side does not match. */
  lemma MatchEmptySides(a: StringArray, b: StringArray)
    requires OrEmpty(a) == []
    ensures OrEmpty(b) == [] ==> GetMatchResult(a, b) == FullMatch
    ensures OrEmpty(b) != [] ==> GetMatchResult(a, b) == NoMatch
  {
    var ys := OrEmpty(b);
    if ys != [] {
      assert ys[0] in ys;
      assert !Covers(ys, []);
    }
  }

  /** Reordering a list or repeating its elements does not change the classification. */
  lemma MatchIgnoresOrderAndDuplicates(a: StringArray, a2: StringArray, b: StringArray)
    requires forall x :: x in OrEmpty(a) <==> x in OrEmpty(a2)
    ensures GetMatchResult(a, b) == GetMatchResult(a2, b)
  {
    assert FoldedSet(a) == FoldedSet(a2);
  }

  /** Changing the letter case of any element does not change the classification. */
  lemma MatchIgnoresCase(a: StringArray, a2: StringArray, b: StringArray)
    requires |OrEmpty(a)| == |OrEmpty(a2)|
    requires forall i :: 0 <= i < |OrEmpty(a)| ==> EqualsIgnoreCase(OrEmpty(a)[i], OrEmpty(a2)[i])
    ensures GetMatchResult(a, b) == GetMatchResult(a2, b)
  {
    var xs, xs2 := OrEmpty(a), OrEmpty(a2);
    forall k | k in FoldedSet(a) ensures k in FoldedSet(a2) {
      var i :| 0 <= i < |xs| && Fold(xs[i]) == k;
      FoldedSetMember(a2, xs2[i]);
    }
    forall k | k in FoldedSet(a2) ensures k in FoldedSet(a) {
      var i :| 0 <= i < |xs2| && Fold(xs2[i]) == k;
      FoldedSetMember(a, xs[i]);
    }
    SameFoldedSet(a, a2, b);
  }

  /** The classification depends on a list only through its case-insensitive set. */
  lemma SameFoldedSet(a: StringArray, a2: StringArray, b: StringArray)
    requires FoldedSet(a) == FoldedSet(a2)
    ensures GetMatchResult(a, b) == GetMatchResult(a2, b)
  {}

  /* ---------- speakers ---------- */

  /** The hint when the guess has more speakers than the target: go lower. */
  const Down: string := "↓"
  /** The hint when the guess has fewer speakers than the target: go higher. */
  const Up: string := "↑"

  /** GetSpeakersMatch: exact-match flag and the arrow pointing from the guess towards the target. */
  function GetSpeakersMatch(guess: Language, target: Language): (r: SpeakersMatch)
    ensures r.Match == FullMatch <==> guess.Speakers == target.Speakers
    ensures r.Match != FullMatch ==> r.Match == NoMatch
    ensures r.Direction == Down <==> guess.Speakers > target.Speakers
    ensures r.Direction == Up <==> guess.Speakers < target.Speakers
    ensures r.Direction == "" <==> guess.Speakers == target.Speakers
  {
    SpeakersMatch(
      if guess.Speakers == target.Speakers then FullMatch else NoMatch,
      if guess.Speakers > target.Speakers then Down
      else if guess.Speakers < target.Speakers then Up
      else "")
  }

  /** The arrow reversed; no arrow stays no arrow. */
  function Reverse(direction: string): string {
    if direction == Down then Up else if direction == Up then Down else direction
  }

  /** Swapping guess and target keeps the match flag and reverses the arrow. */
  lemma SpeakersSwap(a: Language, b: Language)
    ensures GetSpeakersMatch(b, a).Match == GetSpeakersMatch(a, b).Match
    ensures GetSpeakersMatch(b, a).Direction == Reverse(GetSpeakersMatch(a, b).Direction)
  {}

  /* ---------- CompareGuess ---------- */

  /** Some catalog entry has this id. */
  predicate HasId(catalog: seq<Language>, id: int) {
    exists j :: 0 <= j < |catalog| && catalog[j].Id == id
  }

  /** `l` is the first catalog entry with this id, the one `First(l => l.Id == id)` returns. */
  ghost predicate IsFirstWithId(catalog: seq<Language>, id: int, l: Language) {
    exists i :: 0 <= i < |catalog| && catalog[i] == l && l.Id == id
      && forall j :: 0 <= j < i ==> catalog[j].Id != id
  }

  /** The position `First` stops at, or -1 where it throws. */
  function FirstIndex(catalog: seq<Language>, id: int): (i: int)
    ensures -1 <= i < |catalog|
    ensures i == -1 <==> !HasId(catalog, id)
    ensures i >= 0 ==> catalog[i].Id == id && forall j :: 0 <= j < i ==> catalog[j].Id != id
  {
    if |catalog| == 0 then -1
    else if catalog[0].Id == id then 0
    else
      var k := FirstIndex(catalog[1..], id);
      if k == -1 then
        assert forall j :: 1 <= j < |catalog| ==> catalog[j] == catalog[1..][j - 1];
        -1
      else k + 1
  }

  /** The comparison the service builds from two catalog entries. */
  function Compare(guess: Language, target: Language): (r: GuessResult)
    ensures r.GuessedLanguage == guess && r.TargetLanguage == target
    ensures r.IsCorrect() <==> guess.Name == target.Name
    ensures r.SpeakersComparison.Match == FullMatch <==> guess.Speakers == target.Speakers
    ensures r.GuessNumber == 0 && !r.GameCompleted
  {
    GuessResult(
      guess, target,
      guess.Name == target.Name,
      guess.Family == target.Family,
      GetMatchResult(guess.WritingSystems, target.WritingSystems),
      GetSpeakersMatch(guess, target),
      GetMatchResult(guess.Continents, target.Continents),
      GetMatchResult(guess.Countries, target.Countries),
      0, false)
  }

  /**
   * CompareGuess: the target is looked up first, then the guess; a missing id
   * throws, otherwise the two first entries with those ids are compared.
   */
  function CompareGuess(catalog: seq<Language>, guessedId: int, targetId: int): (r: Result<GuessResult, ServiceError>)
    ensures r.Ok? <==> HasId(catalog, guessedId) && HasId(catalog, targetId)
    ensures !HasId(catalog, targetId) ==> r == Err(LanguageNotFound(targetId))
    ensures HasId(catalog, targetId) && !HasId(catalog, guessedId) ==> r == Err(LanguageNotFound(guessedId))
    ensures r.Ok? ==> && IsFirstWithId(catalog, guessedId, r.value.GuessedLanguage)
                      && IsFirstWithId(catalog, targetId, r.value.TargetLanguage)
                      && r.value == Compare(r.value.GuessedLanguage, r.value.TargetLanguage)
  {
    var ti := FirstIndex(catalog, targetId);
    if ti < 0 then Err(LanguageNotFound(targetId))
    else
      var gi := FirstIndex(catalog, guessedId);
      if gi < 0 then Err(LanguageNotFound(guessedId))
      else Ok(Compare(catalog[gi], catalog[ti]))
  }

  /** Guessing the target itself matches on every attribute, with no arrow. */
  lemma CompareSelf(catalog: seq<Language>, id: int)
    requires HasId(catalog, id)
    ensures var r := CompareGuess(catalog, id, id);
      && r.Ok?
      && r.value.GuessedLanguage == r.value.TargetLanguage
      && r.value.IsCorrect() && r.value.NameMatch && r.value.FamilyMatch
      && r.value.WritingSystemsMatch == FullMatch
      && r.value.ContinentsMatch == FullMatch
      && r.value.CountriesMatch == FullMatch
      && r.value.SpeakersComparison == SpeakersMatch(FullMatch, "")
  {
    var l := CompareGuess(catalog, id, id).value.GuessedLanguage;
    MatchReflexive(l.WritingSystems);
    MatchReflexive(l.Continents);
    MatchReflexive(l.Countries);
  }

  /**
   * Comparing in the other direction gives the same classification of every
   * attribute; only the speaker arrow is reversed.
   */
  lemma CompareSwap(catalog: seq<Language>, a: int, b: int)
    requires HasId(catalog, a) && HasId(catalog, b)
    ensures var r, s := CompareGuess(catalog, a, b), CompareGuess(catalog, b, a);
      && r.Ok? && s.Ok?
      && s.value.GuessedLanguage == r.value.TargetLanguage
      && s.value.TargetLanguage == r.value.GuessedLanguage
      && s.value.NameMatch == r.value.NameMatch
      && s.value.FamilyMatch == r.value.FamilyMatch
      && s.value.WritingSystemsMatch == r.value.WritingSystemsMatch
      && s.value.ContinentsMatch == r.value.ContinentsMatch
      && s.value.CountriesMatch == r.value.CountriesMatch
      && s.value.SpeakersComparison.Match == r.value.SpeakersComparison.Match
      && s.value.SpeakersComparison.Direction == Reverse(r.value.SpeakersComparison.Direction)
  {
    var g, t := catalog[FirstIndex(catalog, a)], catalog[FirstIndex(catalog, b)];
    MatchSymmetric(g.WritingSystems, t.WritingSystems);
    MatchSymmetric(g.Continents, t.Continents);
    MatchSymmetric(g.Countries, t.Countries);
    SpeakersSwap(g, t);
  }
}
