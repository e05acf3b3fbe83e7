/**
 * The records of the game (the classes under Models/), as values.
 *
 * `Language` carries the fields that the service reads: the properties the
 * service uses (WritingSystems, Speakers, Continents, Countries) are not the
 * ones declared in Models/Language.cs (WritingSystem, Spreakers,
 * NativeCountries); the model follows the service.
 */
module Models {
  import opened Wrappers

  /** A C# `string[]` property, which may be null. */
  type StringArray = Option<seq<string>>

  /** A catalog entry; never mutated after the catalog is loaded. */
  datatype Language = Language(
    Id: int,
    Name: string,
    Family: string,
    WritingSystems: StringArray,
    Speakers: int,
    Continents: StringArray,
    Countries: StringArray,
    Sentences: StringArray)

  /** The three-valued comparison of two attribute lists. */
  datatype MatchResult = FullMatch | PartialMatch | NoMatch

  /** The speaker-count comparison: an exact-match flag and an arrow towards the target. */
  datatype SpeakersMatch = SpeakersMatch(Match: MatchResult, Direction: string)

  /**
   * The comparison of a guess with the target. The service assigns
   * ContinentsMatch and CountriesMatch, which Models/GuessResult.cs does not
   * declare (it declares NativeCountriesMatch); the model follows the service.
   * GuessNumber and GameCompleted are filled in by the page, never by the service.
   */
  datatype GuessResult = GuessResult(
    GuessedLanguage: Language,
    TargetLanguage: Language,
    NameMatch: bool,
    FamilyMatch: bool,
    WritingSystemsMatch: MatchResult,
    SpeakersComparison: SpeakersMatch,
    ContinentsMatch: MatchResult,
    CountriesMatch: MatchResult,
    GuessNumber: int,
    GameCompleted: bool)
  {
    /** A guess is correct when the names agree. */
    predicate IsCorrect() { NameMatch }
  }

  /** A calendar day, the granularity of `DateTime.Today`. */
  datatype Date = Date(year: int, month: int, day: int)

  /** The game of one calendar day. */
  datatype GameSession = GameSession(
    Id: int,
    Date: Date,
    LanguageId: int,
    Language: Language,
    TargetSentence: string,
    IsCompleted: bool)

  /** One recorded guess; GuessNumber counts from 1 within its session. */
  datatype UserGuess = UserGuess(GameSessionId: int, LanguageId: int, GuessNumber: int)

  /** The failures the service raises as exceptions. */
  datatype ServiceError =
    | LanguageNotFound(id: int)   // `First` finds no catalog entry with this id
    | EmptyCatalog                // indexing an empty catalog
    | NullSentences               // the target language has a null sentence array
    | NoSentences                 // indexing an empty sentence array
}
