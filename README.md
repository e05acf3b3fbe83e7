# GuessTheLanguage — a verified model of the game rules and the language picker

GuessTheLanguage is a daily word game. Each day one language is drawn from a
catalog, and the player sees one of its sentences. The player guesses
languages until they hit the target or have used six guesses. After each guess
the game shows how the guess compares with the target:
- whether name and family agree;
- whether the writing systems, continents and countries match fully, partly
  or not at all, compared as case-insensitive sets;
- whether the speaker count is equal, with an arrow pointing from the guess
  towards the target.

This project models two pieces of that program in Dafny.

1. `LanguageGameService` (Services/LanguageGameService.cs):
   - the pure comparisons: `GetMatchResult`, `GetSpeakersMatch`,
     `CompareGuess` and `GetAllLanguages`;
   - a class holding the per-date session cache and the per-session guess
     lists, with `GetTodaysGame`, `RecordGuess`, `GetGuessCount`, `GetGuesses`
     and `IsGameCompleted`.

   The day and the seeded generator are inputs. The date is a parameter. The
   generator `new Random(seed)` is an abstract total function
   `draw(seed, k, n)`: the k-th `Next(n)` of the generator seeded with `seed`,
   which lies in `[0, n)`.
2. The language picker (wwwroot/js/autocomplete.js):
   - the filter of `updateDropdown`: matching items are shown, the ones whose
     name starts with the term come first, and the visible nodes are
     re-appended behind the hidden ones;
   - the widget state: `highlightedIndex`, `visibleItems`, the set of nodes
     carrying the `highlighted` class, whether the dropdown is shown, the input
     text and the hidden id field;
   - the handlers that change that state: arrow keys, Enter, Escape,
     mouseenter and `selectItem`.

Files:
- `Wrappers.dfy`: `Option` and `Result`.
- `Models.dfy`: the records (`Language`, `GuessResult`, `GameSession`,
  `UserGuess`, ...) and the exceptions as `ServiceError`.
- `DailySession.dfy`: dates, the seed, the abstract generator and the session
  a draw creates.
- `GameRules.dfy`: the comparisons.
- `NameOrder.dfy`: the sort of `GetAllLanguages`.
- `GameService.dfy`: the stateful service class.
- `JsText.dfy`: the JavaScript string functions the filter uses.
- `Autocomplete.dfy`: the filter and the widget state class.

Conventions and quirks of the source that the model keeps:
- The speaker hint is an arrow (Services/LanguageGameService.cs:106): "↓"
  when the guess has more speakers than the target, "↑" when it has fewer,
  and "" when the counts are equal.
- The service assigns `ContinentsMatch` and `CountriesMatch`. It reads
  `WritingSystems`, `Speakers`, `Continents` and `Countries` from a language.
  Models/Language.cs declares `WritingSystem` (a single string), `Spreakers`
  and `NativeCountries` instead, and Models/GuessResult.cs declares
  `NativeCountriesMatch`. The model uses the fields the service reads and
  writes; this mismatch is recorded, not resolved.
- A game is completed when some guess names *today's* target. This holds
  whichever session id is asked about. The completion test calls `GetTodaysGame`, which
  may add today's session to the cache.

Exceptions the service would throw become `Err` values:
- `First` finding no entry becomes `LanguageNotFound`;
- indexing an empty catalog becomes `EmptyCatalog`;
- a null sentence array becomes `NullSentences`;
- an empty sentence array becomes `NoSentences`.

## Model

| member | source | states |
|---|---|---|
| GameRules.FoldChar | Services/LanguageGameService.cs:84-85 | the case-insensitive key of a character: ASCII lower-case letters map to their capitals, every other character to itself |
| GameRules.Fold | Services/LanguageGameService.cs:84-85 | same length as the string, each character mapped by `FoldChar` |
| GameRules.EqualsIgnoreCase | Services/LanguageGameService.cs:84-85 | two strings are equal under OrdinalIgnoreCase iff they have the same length and agree character by character after folding |
| GameRules.FoldedSet | Services/LanguageGameService.cs:84-85 | the case-insensitive hash set of a list (its folded keys); empty iff the list is null or empty |
| GameRules.OrEmpty | Services/LanguageGameService.cs:81-82 | a null list reads as the empty list |
| GameRules.GetMatchResult | Services/LanguageGameService.cs:79-96 | FullMatch iff each list covers the other case-insensitively; PartialMatch iff they do not but share an element; NoMatch iff neither |
| GameRules.FoldedSubset | Services/LanguageGameService.cs:84-85 | the case-insensitive hash set of one list is contained in the other's iff every element of the first equals, ignoring case, some element of the second |
| GameRules.FoldedSetEquality | Services/LanguageGameService.cs:87 | `SetEquals` on the two case-insensitive sets holds iff the lists cover each other |
| GameRules.FoldedSetOverlap | Services/LanguageGameService.cs:91 | `Overlaps` on the two case-insensitive sets holds iff some pair of elements is equal ignoring case |
| GameRules.MatchReflexive | Services/LanguageGameService.cs:87-90 | a list, null included, fully matches itself |
| GameRules.MatchSymmetric | Services/LanguageGameService.cs:84-95 | swapping guess and target does not change the classification |
| GameRules.MatchEmptySides | Services/LanguageGameService.cs:81-95 | two null or empty lists match fully; exactly one empty side gives NoMatch |
| GameRules.MatchIgnoresOrderAndDuplicates | Services/LanguageGameService.cs:84-85 | lists with the same elements, in any order and with any repetition, classify alike |
| GameRules.SameFoldedSet | Services/LanguageGameService.cs:84-95 | the classification depends on a list only through its case-insensitive set |
| GameRules.MatchIgnoresCase | Services/LanguageGameService.cs:84-85 | changing the letter case of elements does not change the classification |
| GameRules.GetSpeakersMatch | Services/LanguageGameService.cs:98-108 | Match is FullMatch iff the counts are equal, NoMatch otherwise; the arrow is "↓" iff the guess has more speakers, "↑" iff fewer, "" iff equal |
| GameRules.SpeakersSwap | Services/LanguageGameService.cs:105-106 | swapping guess and target keeps the match flag and reverses the arrow |
| GameRules.FirstIndex | Services/LanguageGameService.cs:60-61 | the position `First` stops at: the first entry with the id, or -1 exactly when no entry has it |
| GameRules.Compare | Services/LanguageGameService.cs:63-73 | the result carries the two languages; it is correct iff the names agree; the speaker flag is FullMatch iff the counts agree; GuessNumber and GameCompleted keep their defaults (0, false) |
| GameRules.CompareGuess | Services/LanguageGameService.cs:58-74 | fails iff an id is absent, with the target's id reported first; on success the compared languages are the first catalog entries with those ids |
| GameRules.CompareSelf | Services/LanguageGameService.cs:58-74 | comparing a present id with itself is correct: every flag true, every list FullMatch, speakers FullMatch with no arrow |
| GameRules.CompareSwap | Services/LanguageGameService.cs:58-74 | comparing the other way round swaps the two languages, keeps every classification and reverses only the speaker arrow |
| DailySession.Seed | Services/LanguageGameService.cs:39 | the seed of a valid day lies in [10101, 99991231], so `year*10000 + month*100 + day` never overflows an `int` |
| DailySession.SeedDigits | Services/LanguageGameService.cs:39 | the seed's decimal digits are the day's year, month and day: day and month are read back with `% 100`, the year with `/ 10000` |
| DailySession.SeedInjective | Services/LanguageGameService.cs:39-46 | two days share a seed, and so a session id, iff they are the same day |
| DailySession.Draw | Services/LanguageGameService.cs:40-42 | the generator `new Random(seed)` as a subset type of total functions: the k-th `Next(n)` for seed `seed` lies in [0, n) whenever n > 0 |
| DailySession.DrawSession | Services/LanguageGameService.cs:39-52 | the draw fails iff the catalog is empty or the drawn language has no sentences; otherwise the session has the day's seed as id, the day as date, a catalog language with its own id, one of that language's sentences, and is not completed |
| NameOrder.NameLeq | Services/LanguageGameService.cs:77 | the ordinal name order: a non-empty name is only ordered before a non-empty name whose first character is at least its own |
| NameOrder.NameLeqReflexive | Services/LanguageGameService.cs:77 | every name is ordered before or equal to itself |
| NameOrder.NameLeqTotal | Services/LanguageGameService.cs:77 | any two names are ordered one way or the other |
| NameOrder.NameLeqAntisymmetric | Services/LanguageGameService.cs:77 | names ordered both ways are equal |
| NameOrder.NameLeqTransitive | Services/LanguageGameService.cs:77 | the name order is transitive |
| NameOrder.Insert | Services/LanguageGameService.cs:77 | inserting adds exactly the one entry |
| NameOrder.InsertSorted | Services/LanguageGameService.cs:77 | inserting into a list sorted by name keeps it sorted |
| NameOrder.InsertWithName | Services/LanguageGameService.cs:77 | the inserted entry goes before the entries with the same name |
| NameOrder.GetAllLanguages | Services/LanguageGameService.cs:75-78 | the result is sorted by name, has the catalog's entries, and keeps entries with equal names in catalog order (stable) |
| GameService.LanguageGameService.Valid | Services/LanguageGameService.cs:19-21 | the invariant of the two dictionaries: every cached session is the one the generator draws for its date, and every guess list is non-empty and numbered 1, 2, ... for its session |
| GameService.LanguageGameService.constructor | Services/LanguageGameService.cs:23-28 | the service holds the given catalog and starts with no sessions and no guesses |
| GameService.LanguageGameService.TodaysGame | Services/LanguageGameService.cs:30-56 | what the next call returns is always the day's draw, cached or not |
| GameService.LanguageGameService.GetTodaysGame | Services/LanguageGameService.cs:30-56 | returns the day's draw; the first successful call of a day caches it, and later calls return the cached session and leave the cache unchanged; guesses are untouched |
| GameService.LanguageGameService.GetGuesses | Services/LanguageGameService.cs:140-143 | the session's guesses, numbered 1, 2, ... for that session, and empty exactly when nothing was recorded |
| GameService.LanguageGameService.GetGuessCount | Services/LanguageGameService.cs:136-139 | the number of the session's guesses, 0 when none were recorded, and the last guess carries that number |
| GameService.LanguageGameService.RecordGuess | Services/LanguageGameService.cs:109-124 | appends exactly one guess numbered one more than the old count, creating the list if absent, and leaves other sessions and the cache unchanged |
| GameService.LanguageGameService.IsGameCompleted | Services/LanguageGameService.cs:125-135 | false when nothing was recorded; true from six guesses on; otherwise true iff some guess names today's target language, with today's session cached as a side effect |
| GameService.RecordGuesses | Services/LanguageGameService.cs:109-139 | after n guesses for a session on a fresh service, the count is n and the guesses are the given ones, numbered 1..n in order |
| GameService.SixGuessesComplete | Services/LanguageGameService.cs:134 | six guesses complete a game, whatever they are |
| GameService.CorrectGuessCompletes | Services/LanguageGameService.cs:125-135 | guessing today's target completes today's game after any number of earlier guesses |
| JsText.LowerChar | wwwroot/js/autocomplete.js:40 | upper-case letters map to lower case; other characters are unchanged |
| JsText.ToLowerCase | wwwroot/js/autocomplete.js:47-48 | same length, each character lower-cased |
| JsText.IsWhitespace | wwwroot/js/autocomplete.js:40 | the characters `trim` strips; none of them is a letter, and lower-casing leaves them unchanged |
| JsText.TrimStart | wwwroot/js/autocomplete.js:40 | a suffix of the input; everything removed is white space; what is left does not start with white space |
| JsText.TrimEnd | wwwroot/js/autocomplete.js:40 | a prefix of the input; everything removed is white space; what is left does not end with white space |
| JsText.Trim | wwwroot/js/autocomplete.js:40 | a slice of the input with white space on both sides of it, and neither starting nor ending with white space |
| JsText.Includes | wwwroot/js/autocomplete.js:50 | `includes`: the needle occurs at some position of the string |
| JsText.StartsWith | wwwroot/js/autocomplete.js:54 | `startsWith`: the prefix is an initial slice of the string |
| JsText.IncludesFacts | wwwroot/js/autocomplete.js:50-54 | the empty term is included in every string, a term longer than the string in none, and a string that starts with the term also includes it |
| Autocomplete.SearchTerm | wwwroot/js/autocomplete.js:40 | `input.value.toLowerCase().trim()` |
| Autocomplete.SearchTermMeaning | wwwroot/js/autocomplete.js:40 | the search term is a slice of the lower-cased input with only white space around it; it neither starts nor ends with white space and holds no capital letter |
| Autocomplete.GroupOf | wwwroot/js/autocomplete.js:47-61 | an item is shown iff its lower-cased search data includes the term, and goes first iff in addition its lower-cased name starts with the term |
| Autocomplete.Select | wwwroot/js/autocomplete.js:45-61 | the items of one group (prefix match, other match, hidden) in dropdown order, as the `forEach` pushes them |
| Autocomplete.Arrange | wwwroot/js/autocomplete.js:79 | the new `visibleItems`; together with the hidden items it accounts for every item of the dropdown |
| Autocomplete.SelectSizes | wwwroot/js/autocomplete.js:45-77 | every item lands in exactly one of the three groups |
| Autocomplete.SelectCount | wwwroot/js/autocomplete.js:45-77 | each group holds every item of that group, as often as the dropdown does, and no other item |
| Autocomplete.ArrangeCounts | wwwroot/js/autocomplete.js:40-52 | the visible items are exactly the matching items, each as often as in the dropdown |
| Autocomplete.ArrangeGroupAt | wwwroot/js/autocomplete.js:79 | the visible list is the prefix matches followed by the other matches |
| Autocomplete.ArrangeGroupsOrdered | wwwroot/js/autocomplete.js:54-61 | every item whose name starts with the term comes before every other visible item |
| Autocomplete.ArrangeStable | wwwroot/js/autocomplete.js:45-79 | within each group the visible items keep the dropdown order, and no hidden item is visible |
| Autocomplete.ReorderIsPermutation | wwwroot/js/autocomplete.js:80 | re-appending the visible items behind the hidden ones keeps the same nodes |
| Autocomplete.ReorderKeepsDistinct | wwwroot/js/autocomplete.js:79-80 | the reordered dropdown and the visible list keep each node once, and every visible node stays in the dropdown |
| Autocomplete.Partition | wwwroot/js/autocomplete.js:45-77 | the loop builds the prefix matches, the other matches and the hidden items, each in dropdown order |
| Autocomplete.Rearrange | wwwroot/js/autocomplete.js:41-80 | the visible list is the arranged matches; the new node order is the hidden items then the visible ones, a permutation keeping nodes distinct |
| Autocomplete.Unhighlight | wwwroot/js/autocomplete.js:64 | removing the class leaves none of the given nodes highlighted and every other highlighted node as it was |
| Autocomplete.IndexOf | wwwroot/js/autocomplete.js:70 | `indexOf`: the first position of the node, or -1 exactly when it is absent |
| Autocomplete.JsRem | wwwroot/js/autocomplete.js:110 | JavaScript's `%`: the remainder lies strictly between -n and n, takes the sign of the dividend, equals the Euclidean remainder for a non-negative dividend, and differs from the dividend by a multiple of n |
| Autocomplete.NextIndex | wwwroot/js/autocomplete.js:110 | JavaScript's remainder gives the Euclidean `(index + step + len) mod len` for the arrow steps, a valid index |
| Autocomplete.ArrowsFromNoHighlight | wwwroot/js/autocomplete.js:110 | from no highlight, ArrowDown reaches index 0 and ArrowUp index len-2, not len-1 |
| Autocomplete.AutocompleteState.constructor | wwwroot/js/autocomplete.js:26-30 | empty input, hidden dropdown, no visible items, index -1 |
| Autocomplete.AutocompleteState.UpdateDropdown | wwwroot/js/autocomplete.js:38-84 | the visible items are the arranged matches for the trimmed, lower-cased input; the nodes are reordered by a permutation; the highlight is cleared and the index is -1; the dropdown is shown iff something is visible |
| Autocomplete.AutocompleteState.Input | wwwroot/js/autocomplete.js:32 | a new input value filters the dropdown for that value: the visible items, the new node order, the cleared highlight and index, and whether the dropdown shows are those of `updateDropdown` for that value; the hidden id is unchanged |
| Autocomplete.AutocompleteState.HighlightItem | wwwroot/js/autocomplete.js:107-117 | nothing changes when no item is visible; otherwise the index moves to `(old + step + len) mod len` and exactly that visible item is highlighted |
| Autocomplete.AutocompleteState.MouseEnter | wwwroot/js/autocomplete.js:66-71 | the entered item becomes the only highlighted visible item, at its index |
| Autocomplete.AutocompleteState.SelectItem | wwwroot/js/autocomplete.js:137-143 | the input takes the item's value (its display text if the value is empty), the hidden field its id, the dropdown is hidden, and a submit follows |
| Autocomplete.AutocompleteState.HandleKeyDown | wwwroot/js/autocomplete.js:86-105 | the arrows move the index cyclically and highlight exactly that item, leaving input, hidden id and visibility alone; Enter selects the highlighted item, else the first visible one (filling the input and hidden id and hiding the dropdown), else submits and changes nothing; Escape only hides the dropdown; other keys change nothing; the index stays in [-1, len) throughout |

`GuessResult.IsCorrect` (Models/GuessResult.cs:12) is the predicate
`Models.GuessResult.IsCorrect`, which is `NameMatch`.

## Left out

- Loading the catalog from Data/languages.json (Services/LanguageGameService.cs:144-149) is file I/O. The catalog is a constructor parameter.
- `DateTime.Today` is a clock read; the day is a parameter `today`. `ValidDate` limits it to the dates a `DateTime` can hold.
- `System.Random`'s algorithm is a foreign call. `DailySession.Draw` only promises a value in `[0, n)` that is determined by seed, call number and bound. Which language and sentence a given day gets is therefore not modelled.
- GameRules.Fold: `StringComparer.OrdinalIgnoreCase` maps all of Unicode's simple upper-case pairs; the model folds ASCII letters only.
- JsText.ToLowerCase: JavaScript lower-cases all of Unicode, including characters whose lower case is longer; the model lower-cases ASCII letters only.
- JsText.IsWhitespace: `trim` also strips the Unicode space separators above U+00A0 (U+1680, U+2000 to U+200A, U+202F, U+205F, U+3000); the model does not.
- NameOrder.NameLeq: `OrderBy(l => l.Name)` compares with the current culture's rules; the model orders names ordinally, character code by character code. The stable sort is modelled as an insertion sort.
- Aliasing in `GetGuesses` is not modelled. It returns the live internal list for a recorded session and a fresh list otherwise; the model returns a value.
- Concurrency and dependency-injection lifetimes are out of scope. The dictionaries are unsynchronised, and the service is registered per request in Program.cs. The model is one service instance over its lifetime.
- `GameSession.Guesses` and the navigation properties of `UserGuess` are never used by the service. So are `UserGuess.Id`, `GameState` and `SessionState`. None of them is modelled.
- Pages/Index.cshtml.cs (the Razor page glue, session serialisation and CSS-class mapping) and Program.cs (host set-up) are not part of this model.
- Autocomplete DOM nodes are modelled by their attribute values, with the items required to be distinct. This stands in for node identity; two nodes with identical attributes are not modelled.
- These parts of the autocomplete widget are not modelled: event wiring and re-initialisation after an htmx swap (lines 1-36), `scrollIntoView`, `preventDefault`, and the 50 ms `setTimeout` before `requestSubmit`. Submitting is reported as an `Action` instead.
- `handleDropdownClick` and `closeIfOutside` are not modelled separately. The first calls `selectItem`, which is `SelectItem`. The second only hides the dropdown, as Escape does.
- `updateDropdown` runs on both `input` and `focus`. The focus event is a direct call of `UpdateDropdown`.
- The model assumes that every dropdown item carries `data-value` and `data-search` and that the hidden `#selectedLanguageId` field exists. When an attribute is missing, `toLowerCase` at lines 47-48 throws a TypeError: the `forEach` stops, `visibleItems` stays empty and line 83 never resets `highlightedIndex`. When the hidden field is missing, `selectItem` throws at line 140, since line 20 never tests that it exists. None of these throws is modelled.
- An empty `data-value` makes `selectItem` fall back to `data-display` (line 139); the model covers that case, not an absent attribute.
