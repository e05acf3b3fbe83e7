/**
 * The stateful part of LanguageGameService (Services/LanguageGameService.cs:17-143):
 * the per-date session cache, the per-session guess lists, and the operations
 * that read and write them. The catalog is given to the constructor, the date
 * to every operation that reads `DateTime.Today`, and the seeded generator as
 * the abstract `Draw`.
 */
module GameService {
  import opened Wrappers
  import opened Models
  import opened DailySession

  /** The guesses of session `id`, numbered 1, 2, ... in the order they were recorded. */
  ghost predicate NumberedFrom1(id: int, guesses: seq<UserGuess>) {
    forall i :: 0 <= i < |guesses| ==> guesses[i].GameSessionId == id && guesses[i].GuessNumber == i + 1
  }

  /** Some recorded guess names the language `languageId`. */
  predicate GuessedLanguage(guesses: seq<UserGuess>, languageId: int) {
    exists i :: 0 <= i < |guesses| && guesses[i].LanguageId == languageId
  }

  /** The number of guesses after which a game is over. */
  const MaxGuesses: nat := 6

  class LanguageGameService {
    const languages: seq<Language>
    const draw: Draw
    var gameSessions: map<Date, GameSession>
    var userGuesses: map<int, seq<UserGuess>>

    /**
     * Every cached session is the one the generator draws for its date, and
     * every guess list is non-empty (lists are created by RecordGuess, which
     * appends at once) and numbered from 1.
     */
    ghost predicate Valid()
      reads this
    {
      && (forall d :: d in gameSessions ==> ValidDate(d) && DrawSession(languages, draw, d) == Ok(gameSessions[d]))
      && (forall id :: id in userGuesses ==> |userGuesses[id]| > 0 && NumberedFrom1(id, userGuesses[id]))
    }

    constructor (catalog: seq<Language>, draw: Draw)
      ensures Valid()
      ensures languages == catalog && this.draw == draw
      ensures gameSessions == map[] && userGuesses == map[]
    {
      languages := catalog;
      this.draw := draw;
      gameSessions := map[];
      userGuesses := map[];
    }

    /** What GetTodaysGame returns: the cached session, or a fresh draw. */
    function TodaysGame(today: Date): (r: Result<GameSession, ServiceError>)
      reads this
      requires Valid() && ValidDate(today)
      ensures r == DrawSession(languages, draw, today)
    {
      if today in gameSessions then Ok(gameSessions[today]) else DrawSession(languages, draw, today)
    }

    /**
     * GetTodaysGame: the session of `today`, drawn and cached on the first
     * call of the day and returned from the cache, with no new draw, afterwards.
     */
    method GetTodaysGame(today: Date) returns (r: Result<GameSession, ServiceError>)
      requires Valid() && ValidDate(today)
      modifies this
      ensures Valid()
      ensures r == old(TodaysGame(today)) && r == DrawSession(languages, draw, today)
      ensures r.Ok? ==> gameSessions == old(gameSessions)[today := r.value]
      ensures r.Err? || today in old(gameSessions) ==> gameSessions == old(gameSessions)
      ensures userGuesses == old(userGuesses)
    {
      if today in gameSessions {
        return Ok(gameSessions[today]);
      }
      r := DrawSession(languages, draw, today);
      if r.Ok? {
        gameSessions := gameSessions[today := r.value];
      }
    }

    /** GetGuesses: the guesses of a session, or none when nothing was recorded for it. */
    function GetGuesses(id: int): (r: seq<UserGuess>)
      reads this
      requires Valid()
      ensures r == [] <==> id !in userGuesses
      ensures NumberedFrom1(id, r)
    {
      if id in userGuesses then userGuesses[id] else []
    }

    /** GetGuessCount: how many guesses a session has; the last one carries that number. */
    function GetGuessCount(id: int): (n: nat)
      reads this
      requires Valid()
      ensures n == |GetGuesses(id)|
      ensures n > 0 ==> GetGuesses(id)[n - 1].GuessNumber == n
    {
      if id in userGuesses then |userGuesses[id]| else 0
    }

    /**
     * RecordGuess: append one guess, numbered one more than the session's
     * count, creating the list when absent; other sessions are untouched.
     */
    method RecordGuess(id: int, languageId: int)
      requires Valid()
      modifies this
      ensures Valid()
      ensures userGuesses == old(userGuesses)[id := old(GetGuesses(id)) + [UserGuess(id, languageId, old(GetGuessCount(id)) + 1)]]
      ensures GetGuessCount(id) == old(GetGuessCount(id)) + 1
      ensures forall other :: other != id ==> GetGuesses(other) == old(GetGuesses(other))
      ensures gameSessions == old(gameSessions)
    {
      if id !in userGuesses {
        userGuesses := userGuesses[id := []];
      }
      var guessCount := |userGuesses[id]| + 1;
      userGuesses := userGuesses[id := userGuesses[id] + [UserGuess(id, languageId, guessCount)]];
    }

    /**
     * IsGameCompleted: false when nothing was recorded for the session; true
     * from the sixth guess on; otherwise true when some guess names the
     * language of TODAY's session, whichever session `id` is. As `Any` does,
     * it asks GetTodaysGame once per guess until one matches, which caches
     * today's session if it was not cached yet.
     */
    method IsGameCompleted(id: int, today: Date) returns (r: Result<bool, ServiceError>)
      requires Valid() && ValidDate(today)
      modifies this
      ensures Valid()
      ensures userGuesses == old(userGuesses)
      ensures id !in old(userGuesses) ==> r == Ok(false) && gameSessions == old(gameSessions)
      ensures id in old(userGuesses) && |old(userGuesses)[id]| >= MaxGuesses ==>
        r == Ok(true) && gameSessions == old(gameSessions)
      ensures id in old(userGuesses) && |old(userGuesses)[id]| < MaxGuesses ==>
        var t := DrawSession(languages, draw, today);
        && (t.Err? ==> r == Err(t.error) && gameSessions == old(gameSessions))
        && (t.Ok? ==> r == Ok(GuessedLanguage(old(userGuesses)[id], t.value.LanguageId))
                      && gameSessions == old(gameSessions)[today := t.value])
    {
      if id !in userGuesses {
        return Ok(false);
      }
      var guesses := userGuesses[id];
      if |guesses| >= MaxGuesses {
        return Ok(true);
      }
      ghost var t := DrawSession(languages, draw, today);
      var i := 0;
      while i < |guesses|
        invariant 0 <= i <= |guesses|
        invariant Valid() && userGuesses == old(userGuesses)
        invariant i == 0 ==> gameSessions == old(gameSessions)
        invariant i > 0 ==> t.Ok? && gameSessions == old(gameSessions)[today := t.value]
        invariant i > 0 ==> forall j :: 0 <= j < i ==> guesses[j].LanguageId != t.value.LanguageId
      {
        var session := GetTodaysGame(today);
        assert session == t;
        if session.Err? {
          return Err(session.error);
        }
        if guesses[i].LanguageId == session.value.LanguageId {
          return Ok(true);
        }
        i := i + 1;
      }
      return Ok(false);
    }
  }

  /**
   * A fresh service given `n` guesses for one session holds exactly those
   * guesses, in order, numbered 1 to n.
   */
  method RecordGuesses(catalog: seq<Language>, draw: Draw, id: int, languageIds: seq<int>)
    returns (guesses: seq<UserGuess>, count: nat)
    ensures count == |languageIds|
    ensures guesses == seq(|languageIds|, i requires 0 <= i < |languageIds| => UserGuess(id, languageIds[i], i + 1))
  {
    var service := new LanguageGameService(catalog, draw);
    for k := 0 to |languageIds|
      invariant service.Valid()
      invariant service.GetGuesses(id) == seq(k, i requires 0 <= i < k => UserGuess(id, languageIds[i], i + 1))
    {
      service.RecordGuess(id, languageIds[k]);
    }
    guesses := service.GetGuesses(id);
    count := service.GetGuessCount(id);
  }

  /** Six recorded guesses complete a game, whatever they are and whatever the date. */
  method SixGuessesComplete(catalog: seq<Language>, draw: Draw, today: Date, id: int, languageIds: seq<int>)
    returns (r: Result<bool, ServiceError>)
    requires ValidDate(today) && |languageIds| == MaxGuesses
    ensures r == Ok(true)
  {
    var service := new LanguageGameService(catalog, draw);
    for k := 0 to |languageIds|
      invariant service.Valid()
      invariant service.GetGuessCount(id) == k
    {
      service.RecordGuess(id, languageIds[k]);
    }
    r := service.IsGameCompleted(id, today);
  }

  /**
   * Guessing today's language completes today's game, however many guesses
   * came before it; when no session can be drawn, the draw's error surfaces.
   */
  method CorrectGuessCompletes(catalog: seq<Language>, draw: Draw, today: Date, earlier: seq<int>)
    returns (r: Result<bool, ServiceError>)
    requires ValidDate(today)
    ensures DrawSession(catalog, draw, today).Ok? ==> r == Ok(true)
    ensures DrawSession(catalog, draw, today).Err? ==> r == Err(DrawSession(catalog, draw, today).error)
  {
    var service := new LanguageGameService(catalog, draw);
    var session := service.GetTodaysGame(today);
    if session.Err? {
      return Err(session.error);
    }
    var id := session.value.Id;
    for k := 0 to |earlier|
      invariant service.Valid() && service.languages == catalog && service.draw == draw
      invariant service.GetGuessCount(id) == k
    {
      service.RecordGuess(id, earlier[k]);
    }
    service.RecordGuess(id, session.value.LanguageId);
    r := service.IsGameCompleted(id, today);
    assert service.userGuesses[id][|earlier|].LanguageId == session.value.LanguageId;
  }
}
