# FLAMES name game — a verified Dafny model

The web page in `script.js` plays FLAMES, a name game. It reduces two names to letters and crosses out the letters they share. The number of letters left then counts out, around the ring F-L-A-M-E-S, the letters that drop out. The survivor names the relationship: Friends, Lovers, Affectionate, Marriage, Enemies or Siblings. Each result is also stored in a history list kept newest first and capped at ten entries.

The project models `calculateFlames` and the list logic of `saveHistory` and `getHistory`:

- `wrappers.dfy` (module `Wrappers`): the `Option` datatype and `Min`.
- `flames.dfy` (module `Flames`): the game in three steps.
  - Normalisation is the pure function `Normalize`.
  - The cross-out loop is the method `CrossOutCommonLetters`. It is proved against the recursive specification `Cancel`.
  - The ring loop is the method `Eliminate`. It is proved against the specification `EliminationOrder` and its last letter, `Survivor`.
  - `CalculateFlames` puts the steps together and is proved equal to the function `FlamesOf`. The lemmas about the game are stated over `FlamesOf`.
- `history.dfy` (module `History`): the class `HistoryStore` holds what the browser's storage holds under the history key, or `None` when nothing is stored there. `SaveHistory` updates it as `saveHistory` does, and `GetHistory` reads it as `getHistory` does. The specification function `Capped` is one prepend-and-truncate step, and `SaveAll` is a run of saves.

The JavaScript arrays that `calculateFlames` shrinks with `splice` are modelled as `seq<char>` variables. The methods reassign these variables with the element removed. The step back of the index (`i--`) after a match is kept, so the slot just vacated is examined again.

The worked example ("David", "Sara") follows the code, not the folk game. Its loop scans "david" and cancels only the first `a` of "sara". That leaves "dvid" and "sra", so the count is 7. The ring then drops F, A, S, L and M, which leaves E, Enemies. `DavidAndSara` proves the result the code computes.

## Model

| member | source | states |
|---|---|---|
| Flames.LowerChar | script.js:27-28 | ASCII lower-casing of one character: the result is a lower-case letter exactly when the input is a letter of either case, and anything but A-Z is left as it is |
| Flames.ToLower | script.js:27-28 | `toLowerCase`, ASCII only: same length, a lower-case letter exactly where the input has a letter, every other character kept |
| Flames.KeepLetters | script.js:27-28 | `replace(/[^a-z]/g, '')`: the result holds only a-z and is never longer than the input |
| Flames.Normalize | script.js:27-28 | the normalised name holds only the letters a-z and is never longer than the input |
| Flames.KeepLettersOfLetters | script.js:27-28 | removing non-letters leaves a name of lower-case letters unchanged |
| Flames.NormalizeIdempotent | script.js:27-28 | normalising twice is the same as normalising once |
| Flames.NormalizeIgnoresCase | script.js:27-28 | two names that agree up to ASCII case normalise to the same letters |
| Flames.NormalizeUpper | script.js:27-28 | upper-casing a name does not change its normalised form |
| Flames.NormalizeIgnoresNonLetters | script.js:27-28 | inserting any character that is not an ASCII letter does not change the normalised name |
| Flames.KeepLettersConcat | script.js:27-28 | the letter filter distributes over concatenation |
| Flames.IndexOf | script.js:37 | `indexOf`: -1 exactly when the letter is absent, otherwise the first position holding it |
| Flames.RemoveAt | script.js:41-42 | `splice(k, 1)`: the array loses exactly one element |
| Flames.RemoveAtShifts | script.js:41-42 | after `splice(k, 1)` the elements before `k` stay in place and those after it move one slot to the left |
| Flames.RemoveAtMultiset | script.js:41-42 | `splice(k, 1)` removes exactly one copy of the element at `k` and keeps all others |
| Flames.Cancel | script.js:35-45 | the letters of each name left after the scan; neither name ever grows |
| Flames.LetterCount | script.js:47 | the count is the number of letters left in both names, at most the sum of their lengths |
| Flames.CrossOutCommonLetters | script.js:31-45 | the in-place cross-out loop ends with what `Cancel` computes. Each name keeps its letters minus the other name's, as multisets, and no letter left in the first name occurs in the second |
| Flames.CancelMultiset | script.js:35-45 | the letters left of each name are that name's multiset minus the other's |
| Flames.CancelRemovesMin | script.js:35-45 | for every letter x, the number of copies crossed out of each name is min(copies in name 1, copies in name 2) |
| Flames.CancelBalanced | script.js:41-47 | both names lose the same number m of letters, and the count is the sum of the lengths minus 2m |
| Flames.CancelDisjoint | script.js:35-45 | after crossing out, no letter left in the first name occurs in the second |
| Flames.CancelNothingShared | script.js:35-47 | names with no letter in common cross out nothing, and the count is the sum of their lengths |
| Flames.CountIsSymmetricDifference | script.js:35-47 | the count is the size of the symmetric difference of the two letter multisets |
| Flames.CountSymmetric | script.js:35-47 | the count does not depend on the order of the names |
| Flames.CountZeroIffAnagram | script.js:47-48 | the count is zero if and only if the two names are anagrams |
| Flames.Ring | script.js:51 | the initial ring F, L, A, M, E, S, in that order |
| Flames.EliminationOrder | script.js:51-63 | the ring loop removes one letter per pass, so the order of removal, survivor last, has exactly the ring's length |
| Flames.EliminationIsPermutation | script.js:51-63 | every ring letter is removed exactly once, except the survivor: the order is a permutation of the ring |
| Flames.Survivor | script.js:51-65 | the letter left standing is one of the ring's letters |
| Flames.Eliminate | script.js:50-65 | the in-place ring loop removes all but one letter in the order `EliminationOrder` gives and returns the survivor. The cursor and the removal index stay within the shrinking ring |
| Flames.EliminationPeriodic | script.js:54 | on the six-letter ring only the count modulo 60 matters |
| Flames.FlamesMap | script.js:10-17 | the table has an entry exactly for the six ring letters |
| Flames.FlamesMapBijective | script.js:10-17 | every relationship is the entry of exactly one ring letter |
| Flames.FlamesOf | script.js:25-67 | the result as a function of the two raw names: Friends for count 0, otherwise the table entry of the ring's survivor. Its properties are the lemmas below |
| Flames.CalculateFlames | script.js:25-67 | the whole calculation returns `FlamesOf` of the two names: Friends for count 0, otherwise the table entry of the ring's survivor |
| Flames.AnagramsAreFriends | script.js:47-48 | names whose normalised letters are anagrams have count 0 and so give Friends |
| Flames.SelfIsFriends | script.js:47-48 | a name paired with itself gives Friends |
| Flames.FlamesSymmetric | script.js:25-67 | the result does not depend on the order of the names |
| Flames.FlamesIgnoresCase | script.js:27-28 | two pairs of names that agree letter by letter up to ASCII case give the same result |
| Flames.FlamesIgnoresNonLetters | script.js:27-28 | inserting a non-letter into a name does not change the result |
| Flames.OrderForSeven | script.js:51-63 | with count 7 the ring drops F, A, S, L, M and leaves E |
| Flames.OrderForThree | script.js:51-63 | with count 3 the ring drops A, S, M, L, E and leaves F |
| Flames.CancelDavidSara | script.js:35-45 | crossing out "david" against "sara" leaves "dvid" and "sra": only one `a` cancels |
| Flames.NormalizeDavidSara | script.js:27-28 | "David" and "Sara" normalise to "david" and "sara" |
| Flames.DavidAndSara | script.js:25-67 | ("David", "Sara") gives count 7 and Enemies |
| Flames.EmptyAndBob | script.js:25-67 | ("", "Bob") gives count 3 and Friends |
| History.Entry | script.js:74-79 | one history entry: the two names as typed, the result and the timestamp text |
| History.Capped | script.js:80-81 | after a save the list has length min(old + 1, 10), the new entry first, then the longest prefix of the old list that fits |
| History.CappedDropsOldest | script.js:80-81 | a list under ten entries only grows at the front; a full list loses its oldest entry |
| History.SaveAllNewestFirst | script.js:72-82 | after any run of saves the list holds the new entries newest first, then the older list, cut to ten |
| History.HistoryStore.GetHistory | script.js:84-87 | a missing stored list reads as empty, otherwise the stored list is returned |
| History.HistoryStore.SaveHistory | script.js:72-82 | the stored list becomes the capped prepend of the new entry to the list read before: at most ten entries, the new one first |
| History.HistoryStore.constructor | script.js:84-86 | a fresh store holds nothing under the key, so it reads as empty |

## Left out

- Page plumbing: DOM access, event listeners, class toggling, `innerHTML` rendering (`renderHistory`) and the clear-history button. These are UI only.
- Browser storage I/O: `localStorage`, `JSON.stringify` and `JSON.parse` are modelled as a field holding the list itself, as if the JSON round trip were the identity. `removeItem`, used by the clear button, is not modelled.
- The `setTimeout` delay and the flame animation, because they are timing only.
- The `alert` and the `trim` and non-empty check in the click handler, because they are caller-side validation. `CalculateFlames` accepts any strings, empty ones included, as `calculateFlames` does.
- `new Date().toLocaleString()` depends on the clock and locale. The timestamp is a string parameter of `SaveHistory`.
- Flames.Normalize: lower-casing is ASCII only. Full Unicode `toLowerCase` maps a few non-ASCII characters (the Kelvin sign U+212A, for one) to ASCII letters, and that is not modelled.
- The label strings with their emoji are modelled as the six constructors of `Relationship`.
- Flames.Eliminate: it requires count >= 1. The source calls the ring loop only after the count-0 return, so the case where JavaScript's `%` would meet a negative operand cannot occur.
