# Movie backdrop guessing game: guess matching and round state

`script.js` runs a browser game. A round loads a random popular movie and up to
three of its backdrops. The player sees the backdrops one at a time, asking for
one more with the hint button, and types the title. A guess wins when it equals
the title once both are put in the same normal form. A win adds one point.

This project models the part of that script with statable behaviour:

- **Text** (`Text.dfy`). ECMAScript `String.prototype.trim` and
  `toLowerCase`, as far as the game depends on them.
- **GuessEvaluator** (`GuessEvaluator.dfy`). The normal form `normalizeString`
  has three steps: decompose to Normalization Form D, delete U+0300–U+036F,
  then delete everything outside `[a-z0-9]`. The module also models the
  comparison in `checkGuess`: the guess is trimmed and lower-cased, the title
  only lower-cased, then both are normalized and compared. The lemmas prove:
  - the output alphabet and the length bound;
  - idempotence;
  - that matching ignores case, surrounding white space, punctuation and
    spaces, and the U+0300–U+036F diacritics of precomposed Latin-1 letters.
- **Game** (`Game.dfy`). The script's module-level state is the `Session`
  class, with fields `apiKey`, `currentMovie`, `currentBackdrops`,
  `currentImageIndex` and `score`. Its methods update that state in place:
  - round setup;
  - the hint button;
  - guesses, wins and skips;
  - the key login.

  The class invariant is: a movie is loaded exactly when backdrops are, there
  are at most three, and the index is 0 or points at one of them.
- **Autocomplete** (`Autocomplete.dfy`). When a typed query triggers a search,
  the cap of five suggestions, and the year label of each.
- **Wrappers** (`Wrappers.dfy`). An `Option` type.

What `script.js` does with scores and rounds, as the model follows it:

- a win is `score++` (script.js:278): one point, whatever the number of
  images seen;
- there is no round counter and no round limit;
- a wrong guess only flags the input box in red (script.js:264-268); it
  reveals no further image;
- nothing ends a round on a win, so each submission of the same winning guess
  scores again (`Game.PlayGuesses`);
- the retry on a movie without backdrops (script.js:151-155) has no bound.

The database answers, the random choices and the shuffle are parameters of the
methods that use them:

- a movie list, or `None` when the request failed;
- the random position in that list;
- the images reply;
- the shuffled backdrop order, which must be a permutation of the fetched list;
- the key check verdict.

## Model

| member | source | states |
|---|---|---|
| Text.IsWhiteSpace | script.js:53 | the characters `trim()` removes are ECMAScript's WhiteSpace and LineTerminator, and none of them is a capital, so lower-casing keeps them |
| Text.Trim | script.js:53 | `trim()` of the key and of the guess never lengthens a string, leaves no white space at either end, and is empty exactly when the input is all white space |
| Text.TrimUnique | script.js:53 | splitting a string as (white space) + r + (white space), with r empty or not white space at either end, always gives r as the trimmed form |
| Text.TrimSplit | script.js:255 | every string is (white space) + its trimmed form + (white space) |
| Text.PaddedSplit | script.js:309 | a string with white space added on either side is (white space) + the original's trimmed form + (white space) |
| Text.TrimPadded | script.js:309 | white space added on either side does not change what a string trims to |
| Text.LowerChar | script.js:255-256 | `toLowerCase` on one character turns A–Z and the Latin-1 capitals into the small letter 32 code points above, keeps every other character, and never yields a capital |
| Text.LowerCharClasses | script.js:255-256 | lower-casing keeps white space and digits, keeps ASCII within ASCII, and yields a–z exactly from ASCII letters |
| Text.LowerUpperChar | script.js:255-256 | a character and its upper-case form lower-case alike, and a capital is the upper-case form of its lower-case form |
| Text.Lower | script.js:255-256 | lower-casing keeps the length and works character by character |
| Text.LowerOfUncapitalized | script.js:255-256 | text without capitals lower-cases to itself |
| Text.LowerOfUpper | script.js:255-256 | a string and its upper-case form lower-case alike |
| Text.LowerAppend | script.js:255-256 | lower-casing distributes over concatenation |
| Text.LowerKeepsWhiteSpace | script.js:255 | a string is all white space exactly when its lower-cased form is |
| GuessEvaluator.Decompose | script.js:273 | NFD of one character is the character itself, or an ASCII letter followed by a mark in U+0300–U+036F, and the second case is a precomposed Latin-1 letter |
| GuessEvaluator.Nfd | script.js:273 | decomposition never shortens a string and leaves ASCII text as it is |
| GuessEvaluator.NfdAppend | script.js:273 | decomposition works character by character |
| GuessEvaluator.Filter | script.js:273-274 | a `replace(/[...]/g, "")` deletion keeps only characters of the kept class, each as often as in the input, and never lengthens it |
| GuessEvaluator.StripMarks | script.js:273 | deleting U+0300–U+036F leaves no such mark and keeps every other character as often as it occurred |
| GuessEvaluator.KeepLowerAlnum | script.js:274 | deleting everything outside a–z and 0–9 leaves only a–z and 0–9, each as often as it occurred |
| GuessEvaluator.FilterAppend | script.js:273-274 | the deletions work character by character |
| GuessEvaluator.Normalize | script.js:272-275 | `normalizeString` output holds only a–z and 0–9 and is no longer than the NFD of its input |
| GuessEvaluator.NormalizeAppend | script.js:272-275 | normalizing a concatenation concatenates the normal forms |
| GuessEvaluator.NormalizeFixesLowerAlnum | script.js:274 | a string of a–z and 0–9 is its own normal form |
| GuessEvaluator.NormalizeIdempotent | script.js:272-275 | normalizing twice is normalizing once |
| GuessEvaluator.NormalizeWhiteSpace | script.js:274 | white space normalizes to the empty string |
| GuessEvaluator.TrimIrrelevant | script.js:255-260 | trimming the guess before normalizing changes nothing |
| GuessEvaluator.Matches | script.js:254-262 | a guess wins exactly when the normal form of the lower-cased guess equals that of the lower-cased title; trimming the guess first makes no difference |
| GuessEvaluator.MatchesIgnoresCase | script.js:255-262 | guesses and titles that lower-case to the same string win or lose together |
| GuessEvaluator.MatchesIgnoresUpperCase | script.js:255-262 | a guess typed in capitals wins or loses as the same guess in any other case |
| GuessEvaluator.VanishingCharacters | script.js:273-274 | ASCII punctuation, every white space character and U+0300–U+036F marks disappear under normalization |
| GuessEvaluator.MatchesIgnoresVanishing | script.js:254-262 | inserting such a character anywhere in a guess does not change whether it wins |
| GuessEvaluator.LowerDecompose | script.js:255-273 | lower-casing a precomposed letter lower-cases its base letter and keeps its mark |
| GuessEvaluator.NormalizeDecomposable | script.js:273-274 | a precomposed letter normalizes as its base letter |
| GuessEvaluator.MatchesIgnoresDiacritic | script.js:254-262 | replacing a precomposed letter in a guess by its base letter does not change whether it wins |
| GuessEvaluator.KeysAgreeInserted | script.js:272-275 | a white space character inserted into an a–z/0–9 string normalizes away |
| GuessEvaluator.KeysAgreeReplaced | script.js:272-275 | a letter of an a–z/0–9 string replaced by an accented form of itself normalizes back |
| GuessEvaluator.MatchExamples | script.js:254-262 | "amelie" wins against "Amélie", "thematrix" against "The Matrix", and "Up" loses against "Down" |
| Game.KeptBackdrops | script.js:164 | `slice(0, 3)` keeps the first min(n, 3) backdrops of the shuffle |
| Game.KeptBackdropsFromFetched | script.js:151-164 | from a shuffle of a non-empty list, one to three backdrops are kept, drawn from that list without repetition |
| Game.IsLastImage | script.js:220 | for an index within the backdrops, the last-image condition holds exactly on the last one |
| Game.NextImageIndex | script.js:220-228 | a hint moves the index one further, and leaves it where it is exactly when the last-image condition holds |
| Game.HintsStayInRange | script.js:178-231 | from index 0, after any number of hints the index is min(hints, count-1), so it stays within the backdrops; the last image is reached after count-1 hints |
| Game.Session.constructor | script.js:6-10 | the initial state: empty key, no movie, no backdrops, index 0, score 0 |
| Game.Session.Display | script.js:196-224 | something is shown exactly when the index points at a backdrop, which under the class invariant is exactly when backdrops are loaded: the backdrop at the current index, the number of images shown being the index plus one (one to all of them), and the hint button off exactly when a hint would be a no-op |
| Game.Session.ResetGameState | script.js:177-178 | the index goes back to 0 and nothing else changes |
| Game.Session.ShowNextImage | script.js:226-231 | the index grows by one unless the last image is shown, where nothing changes; the invariant is kept |
| Game.Session.FinishRoundAsWritten | script.js:131-169 | after the awaits, a failed or empty movie list and a failed images request end in the error path, a movie without backdrops in a retry, and otherwise the picked movie and the first three shuffled backdrops (1 to 3 of the fetched) are installed; the index is left as found, so only the weaker invariant without the index is kept |
| Game.Session.FinishRound | script.js:131-169 | the same outcomes, with the index put back on 0 when a round starts, so the full invariant is kept whatever happened while the requests were outstanding |
| Game.Session.StartNewRound | script.js:126-175 | a failed or empty movie list and a failed images request end in the error path; a movie without backdrops ends in a retry; otherwise the picked movie and the first three shuffled backdrops (1 to 3 of the fetched) are installed; the index is 0 in every case, and movie and backdrops are untouched unless the round starts |
| Game.Session.HandleWin | script.js:277-284 | the score grows by exactly one, the invariant is kept, and the result names the movie and the number of images seen |
| Game.Session.CheckGuess | script.js:254-269 | no loaded movie gives no round; otherwise the guess wins exactly when it matches the title, a win scores one point, and a wrong guess changes nothing |
| Game.Session.HandleSkip | script.js:234-252 | a skip reveals the current movie and changes no state |
| Game.Session.SubmitKey | script.js:52-74 | a key that is blank once trimmed is refused; otherwise the trimmed key becomes the key exactly when the database accepts it; the invariant is kept |
| Game.Session.RestoreKey | script.js:38-50 | a non-empty stored key becomes the key as stored; the game opens exactly when the database accepts it; the invariant is kept |
| Game.PlayHints | script.js:178-231 | in a round with two shuffled backdrops, a hint shows the second with the hint button off, and a further hint changes nothing |
| Game.HintWhileLoading | script.js:126-197 | a skip taken while the next round loads reveals the previous movie, and a hint taken then leaves the index past the new movie's only backdrop, breaking the invariant, so updateDisplay shows nothing new |
| Game.HintWhileLoadingCorrected | script.js:126-197 | with the index reset on install, the same events leave the invariant intact and show the new movie's only backdrop as image 1 of 1 |
| Game.PlayGuesses | script.js:254-278 | in a loaded round a wrong guess scores nothing, and each repetition of a winning guess scores another point |
| Autocomplete.HandleInput | script.js:308-316 | a trimmed query shorter than 2 hides the list; a longer one without a key does nothing; otherwise the search is for the trimmed query, which has no white space at either end |
| Autocomplete.TrimmedLengthAtLeastTwo | script.js:309-310 | the trimmed query is at least 2 long exactly when the typed text has at least two non-white-space characters |
| Autocomplete.SearchIgnoresPadding | script.js:308-316 | white space typed around a query does not change what handleInput does |
| Autocomplete.BeforeDash | script.js:341 | `split('-')[0]` is a prefix with no '-', followed by '-' or by the end of the date |
| Autocomplete.BeforeDashUnique | script.js:341 | that prefix is the only one with those properties |
| Autocomplete.YearLabel | script.js:341 | no release date gives an empty label; otherwise the label is the date up to its first '-' |
| Autocomplete.YearOfDate | script.js:341 | a date year-month-day is labelled with its year |
| Autocomplete.YearOfUndashedDate | script.js:341 | a date without '-' is its own label |
| Autocomplete.Entries | script.js:338-345 | one entry per result, in order, each with that result's title and year label |
| Autocomplete.DisplayReply | script.js:321-348 | a reply without results leaves the list alone; an empty one hides it; otherwise the list shows the first min(n, 5) results with their titles and year labels |
| Autocomplete.LaterResultsIgnored | script.js:323 | results after the fifth never change what is shown |

## Left out

- Network. The fetches to the movie database are left out: the key check, the popular list, the images and the search (script.js:104-112, 135-136, 147-148, 319-320). Their parsed answers are parameters.
- Game.Session.StartNewRound: the retry on a movie without backdrops calls startNewRound again with no bound (script.js:151-155). The model returns a `Retry` outcome instead of recursing, because the recursion ends only when the remote database answers with backdrops.
- Randomness. `Math.random` (the page, the movie and the shuffle) is a parameter (script.js:133, 143, 163). The shuffle is any permutation of the fetched backdrops. The random page therefore does not appear at all.
- GuessEvaluator.Decompose: Unicode NFD is modelled only for the precomposed letters of Latin-1 (U+00C0–U+00FF). Every other character is its own decomposition here. The full Unicode tables, Hangul, multi-mark decompositions and canonical reordering are left out. Reordering cannot change the result: the marks in U+0300–U+036F are deleted by the second step, and every other mark (U+0591, say) by the last one.
- Text.LowerChar: `toLowerCase` is modelled for ASCII and the Latin-1 capitals U+00C0–U+00DE (except U+00D7). Every character outside ASCII and Latin-1 is its own lower-case form here, so other scripts and the length-changing mappings (such as U+0130) are left out. Text.UpperChar covers the same characters.
- Strings are sequences of Unicode scalar values. The UTF-16 code units the script measures `length` in are not modelled. This matters only for characters outside the Basic Multilingual Plane in the query-length rule.
- Timing. `debounce`, the 300 ms input delay, and the `setTimeout` that resets styles are left out.
- Interleaving. Events may arrive while a request is outstanding. The model splits only the round start at its awaits (`ResetGameState`, then `FinishRoundAsWritten`), which is enough for the finding below; every other method runs to completion. A skip during loading reveals the previous movie (`Game.HintWhileLoading`). A guess made while a new round loads is compared against the previous movie: neither `ResetGameState` nor the error and retry paths touch the movie, so `CheckGuess` called between the two halves sees the previous one; no scenario member states this.
- Game.Session.StartNewRound uses the corrected `FinishRound`. Run to completion it behaves as the script does, because the reset at its start already puts the index on 0.
- Page. The DOM is left out: indicators, buttons, modal, poster, image preloading, the loading spinner and the outside click. Storage is left out too: `localStorage`, the reset-key button and `location.reload`. So is `selectSuggestion`, which only copies a title into the input box.
- Game.Session.RestoreKey: removing a rejected key from storage is not modelled (storage is out of scope).

## Findings

| source | as written | input that shows it | evidently intended | confidence | as-written member | corrected member |
|---|---|---|---|---|---|---|
| script.js:126-197 | startNewRound puts the index on 0 and switches the hint button on before its awaits (lines 178 and 186), then installs the new backdrops after them without touching the index again | a round with three backdrops; the next round starts; a hint is taken while its requests are outstanding (index 1); the new movie has one backdrop, so the index points past it, updateDisplay returns at line 197 and the previous image stays on screen | the new round opens on its first image | not executed | Game.HintWhileLoading | Game.Session.FinishRound |
