# Comment-flagging engine of the judol detector, in Dafny

The backend of the judol detector fetches the comments of a YouTube video and flags
the ones that look like gambling spam. The request's `method` picks one rule.
Depending on it, a comment is flagged when its normalised text contains one of the
user's patterns, found by KMP, Boyer-Moore or Rabin-Karp (`KMP`, `BM`, `Rabin-Karp`),
or when it contains a word of letters followed by two or three digits, found by a
fixed regular expression (`Regex`).
This project models that engine and proves what each part computes:

- `strings.dfy` (module `Strings`): texts as sequences of UTF-16 code units, and the
  reference definition of "every start position of a pattern in a text".
- `kmp.dfy` (module `Kmp`): `KMP.LPS` and `KMP.search`. The prefix table and the
  two-pointer scan are proved against the border and occurrence definitions.
- `boyer_moore.dfy` (module `BoyerMoore`): `BoyerMoore.badCharTable` and
  `BoyerMoore.search` as written. The search is also modelled with its post-match
  shift corrected.
- `rabin_karp.dfy` (module `RabinKarp`): `RabinKarp.rollingHash`, `updateHash` and
  `search`, with JavaScript's truncating `%` written out.
- `regex.dfy` (module `Regex`): the global search for `\b[a-zA-Z]+\d{2,3}\b`, modelled
  as a scan over word tokens and proved equal to the pattern read as a language.
- `processing.dfy` (module `Processing`): the filter callback and the order-preserving
  filter/map of the `/comments/search/:videoId` handler.
- `scenario.dfy` (module `Scenario`): the commented-out sample run at the end of
  `matching.js`, and the overlapping-occurrence example.

Each search with a loop is a `method`, proved against a specification function. The
loop bodies of `KMP.search` and of the corrected Boyer-Moore search are methods of
their own (`Kmp.Step`, `BoyerMoore.StepCorrected`), each proved to keep the loop's
invariant. The
request handling is made of pure functions, except `Processing.PatternFound`: it is the
callback's bridge to the matchers, which are methods, so it is a method too.
`normalizeText`/`removeWhitespace` are passed in as function parameters.

## Model

| member | source | states |
|---|---|---|
| Strings.Occurrences | backend/src/matching.js:67-72 | a position is in the list iff the pattern occurs there; the list is strictly ascending |
| Strings.LongerPatternNeverOccurs | backend/src/matching.js:140 | a pattern longer than the text occurs nowhere, so the early `[]` loses nothing |
| Kmp.Lps | backend/src/matching.js:2-22 | the table has one entry per pattern character and starts with 0; entry `q` is the length of the longest proper border of `pattern[..q+1]` |
| Kmp.AdvanceReports | backend/src/matching.js:31-37 | after a matching character, an occurrence ends at the new index iff the match now spans the whole pattern |
| Kmp.FallBack | backend/src/matching.js:38-41 | falling back to `lps[j-1]` after a full match or a mismatch keeps every partial match that could still grow |
| Kmp.Skip | backend/src/matching.js:42-44 | with nothing matched and a mismatch, moving past `text[i]` skips no occurrence |
| Kmp.Step | backend/src/matching.js:31-45 | one pass of the loop body moves `i` forward or `j` back, keeps the scan's state and keeps the report equal to the occurrences that end by `i` |
| Kmp.Search | backend/src/matching.js:24-48 | on every input where the scan terminates: exactly the start positions of all occurrences, overlapping ones included, ascending; `[]` for empty text and pattern |
| BoyerMoore.BadCharTable | backend/src/matching.js:58-65 | the keys are exactly the pattern's characters, each mapped to the index of its last occurrence |
| BoyerMoore.ShiftAfterMatch | backend/src/matching.js:96-98 | the as-written shift lies in `[1, m+1]`; it equals the corrected shift except when the next character's last index is 0, where it is `m+1` |
| BoyerMoore.ShiftAfterMismatch | backend/src/matching.js:103-109 | the mismatch shift lies in `[1, j+1]`, so the scan always moves forward |
| BoyerMoore.MismatchShiftSafe | backend/src/matching.js:103-109 | no occurrence starts inside the window that the mismatch shift jumps over |
| BoyerMoore.MatchShiftSafe | backend/src/matching.js:96-98 | with the corrected shift, no occurrence starts strictly between a match and the next alignment |
| BoyerMoore.CompareBackwards | backend/src/matching.js:81-87 | the right-to-left comparison ends below 0 iff the pattern occurs at `s`; otherwise it stops at the rightmost mismatch |
| BoyerMoore.Search | backend/src/matching.js:73-113 | `[]` for an empty or too-long pattern; only true occurrences, strictly ascending; non-empty iff the pattern occurs; the first reported position is the first occurrence |
| BoyerMoore.AsWrittenShiftSkipsOccurrence | backend/src/matching.js:97 | in "abab" with pattern "ab", the as-written shift after the match at 0 is 3 and jumps over the occurrence at 2; the corrected shift is 2 |
| BoyerMoore.StepCorrected | backend/src/matching.js:80-110 | with line 97 corrected, one pass of the loop body moves the shift forward and keeps the report equal to the occurrences below the shift |
| BoyerMoore.SearchCorrected | backend/src/matching.js:73-113 | with line 97 corrected: exactly the start positions of all occurrences, ascending |
| RabinKarp.JsRem | backend/src/matching.js:120 | JavaScript's `%` for a positive divisor: smaller in magnitude than the divisor, sign of the dividend, congruent to it; Euclidean modulo on non-negative operands |
| RabinKarp.RollingHash | backend/src/matching.js:117-123 | the hash is the text's polynomial value in radix `base` reduced modulo `mod`, and lies in `[0, mod)` |
| RabinKarp.UpdateHash | backend/src/matching.js:125-134 | for non-negative inputs the new hash lies in `[0, mod)` |
| RabinKarp.UpdateHashRolls | backend/src/matching.js:125-134 | dropping the leading code unit and appending the next one turns the hash of a window into the hash of the next window |
| RabinKarp.PowerTerm | backend/src/matching.js:145-149 | `powerTerm` is `256^(m-1) mod 101` and lies in `[0, 101)` |
| RabinKarp.SlideWindow | backend/src/matching.js:163-165 | `currentHash` stays the hash of the window at the current shift |
| RabinKarp.OccurrenceHasPatternHash | backend/src/matching.js:152 | an occurrence's window has the pattern's hash, so skipping windows with a different hash loses nothing |
| RabinKarp.HashCollision | backend/src/matching.js:152-160 | different windows can share a hash, which is why a hash hit is checked character by character |
| RabinKarp.CompareWindow | backend/src/matching.js:153-160 | shift `i` is appended iff the pattern is non-empty and occurs at `i` |
| RabinKarp.Search | backend/src/matching.js:136-168 | exactly the start positions of all occurrences, ascending; `[]` for an empty pattern |
| Regex.MatchEnd | backend/src/matching.js:172-179 | a match the engine finds at `p` ends past `p` and inside the text, so every match is non-empty; `Regex.MatchEndIsMatch` and `Regex.TokenRule` prove which ends it finds |
| Regex.MatchEndIsMatch | backend/src/matching.js:172 | the greedy attempt at `p` ends at `e` iff `t[p..e]` is letters then 2 or 3 digits with `\b` at both ends |
| Regex.TokenRule | backend/src/matching.js:172 | a match runs from `p` to `e` iff `t[p..e]` is a whole maximal word token made of letters followed by 2 or 3 digits |
| Regex.NoDigitNoMatch | backend/src/matching.js:172 | no match starts where the word holds no digit |
| Regex.MatchesDoNotOverlap | backend/src/matching.js:174-183 | no match starts inside another match |
| Regex.MatchesBelowSpec | backend/src/matching.js:174-183 | every reported text is a spam word and is `t[p..e]` for a match from some `p` to `e`; the text of every match is reported; the list is empty iff there is no match |
| Regex.MatchesBelowComplete | backend/src/matching.js:179-180 | the text of every match that starts below `k` is reported |
| Regex.MatchesBelowSound | backend/src/matching.js:179-180 | every reported text is the text of a match that starts below `k` |
| Regex.Exec | backend/src/matching.js:179 | `exec` returns the leftmost match at or after `lastIndex`, or none when no match starts there |
| Regex.Search | backend/src/matching.js:174-183 | the texts of all matches, in order of appearance, each scan resuming at the end of the previous match |
| Regex.OneMatch | backend/src/matching.js:174-183 | a text with a match at exactly one position yields exactly that match |
| Regex.Bro88Matches | backend/src/matching.js:172 | "bro88" yields `["bro88"]` |
| Regex.Bro8DoesNotMatch | backend/src/matching.js:172 | "bro8" yields nothing |
| Regex.Thanks88Bro99DoesNotMatch | backend/src/matching.js:172 | "thanks88bro99" yields nothing, because the token does not end after its digits |
| Processing.PatternHit | backend/src/routes/processing.js:36-49 | a pattern never answers iff the method is KMP, the stripped pattern is empty and the text is not; it answers true iff the method is an exact matcher and the non-empty pattern occurs |
| Processing.PatternFound | backend/src/routes/processing.js:37-49 | running the selected matcher gives the answer `PatternHit` describes |
| Processing.AnyPatternHits | backend/src/routes/processing.js:36-50 | for BM and Rabin-Karp, true iff some stripped pattern occurs; for an unrecognised method, false |
| Processing.KmpAgrees | backend/src/routes/processing.js:41-44 | whenever the KMP evaluation returns, it agrees with BM's |
| Processing.KmpHangs | backend/src/routes/processing.js:36-50 | the KMP evaluation never returns iff the text is non-empty and an empty stripped pattern comes before any found pattern |
| Processing.Verdict | backend/src/routes/processing.js:25-52 | missing patterns, an unrecognised method or an empty pattern list never flag; for BM and Rabin-Karp a comment is flagged iff some stripped pattern occurs in its normalised text |
| Processing.RegexVerdict | backend/src/routes/processing.js:30-32 | with `Regex`, a comment is flagged iff its normalised text holds a spam-word token; the patterns play no part |
| Processing.SearchResponse | backend/src/routes/processing.js:25-58 | the response exists iff every verdict returns; it holds only flagged input comments, unchanged, and every flagged comment, and is no longer than the input; with `Processing.ResponseConcat` it is exactly the flagged subsequence, one copy each, in input order |
| Processing.ResponseConcat | backend/src/routes/processing.js:54-58 | the response for `a + b` is the response for `a` followed by that for `b`, so the input order is kept |
| Scenario.ThanksOccursOnce | backend/src/matching.js:189-190 | "thanks" occurs in the sample text exactly once, at 59 |
| Scenario.Bro88IsTheOnlyMatch | backend/src/matching.js:201-203 | the regex finds exactly `["bro88"]` in the sample text |
| Scenario.SampleRun | backend/src/matching.js:188-204 | the sample run's list is `[59, 59, 59, "bro88"]` |
| Scenario.OverlappingOccurrences | backend/src/matching.js:36-38 | overlapping occurrences all count: "aa" in "aaaa" is at 0, 1 and 2 |

## Left out

- Kmp.Search: requires a non-empty pattern or an empty text. With an empty pattern and a non-empty text, `lps[-1]` at line 38 is undefined and the scan never ends. `Processing` models that case as `None` (`PatternHit`, `KmpHangs`).
- BoyerMoore.Search: its contract does not give the exact list the search returns, only soundness, order, the first occurrence and emptiness. The as-written post-match shift skips some occurrences (see Findings); `BoyerMoore.SearchCorrected` proves the complete list for the corrected shift.
- RabinKarp.RollingHash: requires `base >= 0` and `mod > 0`. A zero modulus gives `NaN` in JavaScript; the search always passes 256 and 101.
- RabinKarp.UpdateHash: its range is stated for non-negative inputs only, which is all the search ever passes.
- RabinKarp.JsRem: defined for positive divisors only, the only ones the source uses.
- JavaScript numbers are doubles. Every intermediate value here stays far below 2^53, so they are modelled as exact integers.
- The regular-expression engine itself is not modelled. `Regex.MatchEnd` models the engine's attempt at one start position, and `lastIndex` handling for empty matches is irrelevant because every match is non-empty.
- `normalizeText` and `removeWhitespace` come from `backend/src/normalize`, which is not part of this model. They are the parameters `normalize` and `strip`.
- Request parsing: a `patterns` value that is missing or not an array is `None`. The elements of the array are taken to be strings.
- The Express handler, `readAllYoutubeComments`, the API key, the HTTP status codes, the error path and the `console.log` calls are I/O and are not modelled. So are `isAuthenticated`, the batch-post and delete routes, `server.js`, `routes/auth.js`, `strategies/google.js`, `youtube.js`, the React pages and `fileProcessor.ts`.
- The comment record is modelled with the three fields the response copies: `id`, `author` and `text`.
- `BoyerMoore.badCharTable` keys a JavaScript object by one-character strings. It is modelled as a map from code units.
- The sample run calls each matcher twice, once for the length test and once for the push. The model calls it once, since the matchers are deterministic.
- The verdict's `some` uses `BoyerMoore.Search` as written. Its emptiness equals that of the corrected search, so no verdict depends on the Finding below.

## Findings

| source | as written | input that shows it | evidently intended | confidence | as-written member | corrected member |
|---|---|---|---|---|---|---|
| backend/src/matching.js:97 | `badChar[c] \|\| -1` also turns a stored last index 0 into -1, so the shift after a match is `m + 1` | `BoyerMoore.search("abab", "ab")`: what is proved is the step: after the match at 0 the as-written shift is 3, past the occurrence at 2 (so the scan ends with `[0]`) | only a character absent from the pattern counts as index -1 | not executed | BoyerMoore.AsWrittenShiftSkipsOccurrence | BoyerMoore.SearchCorrected |
