# WordleGPT query endpoints in Dafny

A model of the decision logic behind the WordleGPT API, a Next.js service
that answers Wordle questions over a fixed list of 5-letter words and the
set of past Wordle answers:

- `/api/guesses/match`: validate a 5-character pattern (letters and `*`
  wildcards), an optional string of excluded letters and an optional limit;
  keep the words that are not past answers, contain no excluded letter and
  agree with every non-wildcard position; shuffle, keep `limit` of them, sort.
- `/api/guesses/guess`: validate a limit, then draw random words until
  `limit` distinct non-answer words are chosen, and sort them.
- `/api/guesses/check`: validate a word (`isValidWord`), then report whether
  its lowercase form is in the word list and whether it was a past answer.
- `/api/guesses`: the length of the word list and the number of its entries
  that are not past answers.
- `_loadAnswers`: the sanity check on the scraped list of past answers
  (at least 1200 entries, `could` and `stare` present) and its conversion
  to a set.

The word list is a `seq<string>` parameter and the past answers are a
`set<string>`. Every handler receives the *outcome* of loading the past
answers, a `Result<set<string>, string>`, so that a failed load is
propagated (`Failed`) and an invalid request is answered (`BadRequest`)
without looking at that outcome at all. Query parameters arrive as
`Api.Param` (absent, a string, or some other value) and limits as the
value of `Number(...)`, either `NaN` or an integer.

Randomness becomes input. The shuffle in the match route is an arbitrary
function that only reorders its argument (`MatchRoute.IsShuffle`). The
`Math.random()` indices of the guess loop are a finite stream `picks`. When
the stream runs out with the loop still running, the handler gives
`NoResponse`: the request would still be spinning. `localeCompare` is
lexicographic order on code points (`Ordering.Le`), which is what it
computes on lowercase `a`–`z` words. The sort is an insertion sort
(`Ordering.Sort`). It is proved to return the unique sorted permutation of
its input.

Modules: `Wrappers` (Option, Result), `Api` (parameters, responses, the
shared limit check), `Letters` (ASCII letter classes and `toLowerCase`),
`Ordering` (lexicographic order and sorting), `Collections` (set of a list,
duplicates), `Word`, `Answers`, `MatchRoute`, `GuessRoute`, `CheckRoute`,
`GuessesRoute`, one per source file.

## Model

| member | source | states |
|---|---|---|
| `Api.CheckLimit` | src/app/api/guesses/guess/route.ts:16-19 | An absent limit takes the route's default; a present one is accepted exactly when it is an integer of at least one, and is then returned unchanged; every rejection carries "Limit must be a positive number". |
| `Word.IsValidWord` | src/lib/word.ts:4-14 | Valid exactly for a string of exactly 5 ASCII letters (so missing, empty and non-string inputs are invalid); the normalised word is the lowercase form, 5 lowercase letters; every failure carries the one fixed message. |
| `Word.NormalizedIsFixpoint` | src/lib/word.ts:10-13 | A normalised word is itself valid and normalises to itself (normalisation is idempotent). |
| `Word.IsValidWordIgnoresCase` | src/lib/word.ts:10-13 | Two inputs that differ only in letter case get the same validation result. |
| `Word.IsValidWordExamples` | src/lib/word.ts:7-13 | `Apple` normalises to `apple`; `ab1de`, `toolong`, the empty string and a missing word are rejected with the fixed message. |
| `Answers.LoadAnswers` | src/api-biz/answers.ts:28-41 | Fewer than 1200 entries fails with "Expected at least 1200 answers", whatever the entries; a long enough list lacking `could` or `stare` fails with "Expected known solutions to be present"; success happens exactly otherwise, and the set holds exactly the list's entries, `could` and `stare` among them. |
| `Answers.LoadedSetBound` | src/api-biz/answers.ts:35-41 | A successfully loaded set has no more members than the list had entries. |
| `Answers.DuplicatesCountTowardThreshold` | src/api-biz/answers.ts:35-41 | The threshold counts raw entries: 1200 entries naming only `could` and `stare` pass and yield a set of two members. |
| `MatchRoute.ValidateParams` | src/app/api/guesses/match/route.ts:24-60 | Succeeds exactly when the pattern is a string of 5 characters from `[a-zA-Z*]`, the exclude is absent or at most 25 ASCII letters, and the limit is absent or an integer of at least one; the result holds the lowercase pattern, the lowercase excluded letters in order (none when absent or empty) and the limit (25 by default); failures are reported in the order non-string pattern, length, pattern characters, non-string exclude, exclude characters, limit. |
| `MatchRoute.CrNeValidation` | src/app/api/guesses/match/route.ts:24-60 | Pattern `cr*ne`, no limit and exclude `a` validate to limit 25, pattern `cr*ne`, excluded letters `a`. |
| `MatchRoute.KeepGuess` | src/app/api/guesses/match/route.ts:130-146 | The five-round filter callback keeps a word exactly when it is not a past answer, none of its first five characters is an excluded letter (also where the pattern names that letter), and every non-`*` position holds the pattern's letter; a `*` position constrains nothing. |
| `MatchRoute.Matches` | src/app/api/guesses/match/route.ts:130-146 | Every word the filter keeps is an entry of the word list and satisfies the filter. |
| `MatchRoute.MatchesMultiplicity` | src/app/api/guesses/match/route.ts:130-146 | The filter keeps every accepted entry with its multiplicity and nothing else. |
| `MatchRoute.FilterMatches` | src/app/api/guesses/match/route.ts:130-146 | Running the callback over the list in order yields exactly the filtered list. |
| `MatchRoute.ExcludedPatternLetterMatchesNothing` | src/app/api/guesses/match/route.ts:135-143 | A letter that the pattern fixes and the exclude list also names leaves no match at all. |
| `MatchRoute.CrNeExample` | src/app/api/guesses/match/route.ts:130-146 | With pattern `cr*ne` and exclude `a`, `crane` and `crate` are rejected and `crone` is kept. |
| `MatchRoute.GradeExample` | src/app/api/guesses/match/route.ts:130-146 | With pattern `g****`, exclude `p` and past answer `grape`, only `grade` of `apple`, `grape`, `grade`, `crane` is kept. |
| `MatchRoute.TakeSorted` | src/app/api/guesses/match/route.ts:148-153 | Slicing the shuffled matches to the limit and sorting gives a sorted sub-multiset of length min(limit, matches), all of them when they fit. |
| `MatchRoute.MatchHandler` | src/app/api/guesses/match/route.ts:111-154 | A validation failure is answered with its reason before the answers are used; a failed load propagates; otherwise the response is sorted, of length min(limit, number of matches), a sub-multiset of the matches, every word in it is a list entry that the filter keeps, and when all matches fit it is the sorted matches whatever the shuffle. |
| `GuessRoute.ValidateParams` | src/app/api/guesses/guess/route.ts:5-26 | The limit defaults to 1; a NaN or a value below one is rejected with "Limit must be a positive number"; any other value is returned. |
| `GuessRoute.DrawGuesses` | src/app/api/guesses/guess/route.ts:81-94 | When the loop finishes it returns exactly `limit` guesses, sorted, pairwise distinct, each a list entry that is not a past answer; it can finish only if the list has at least `limit` distinct non-answer words; and if every index is drawn and there are that many such words, it does finish. |
| `GuessRoute.AllNonAnswersChosen` | src/app/api/guesses/guess/route.ts:84-90 | Once every index has been drawn, the number of distinct non-answer words is at most the number chosen. |
| `GuessRoute.ChosenWithinNonAnswers` | src/app/api/guesses/guess/route.ts:84-90 | Distinct chosen non-answer words are at most as many as the distinct non-answer words of the list. |
| `GuessRoute.GuessHandler` | src/app/api/guesses/guess/route.ts:66-95 | An invalid limit is answered before the answers are used; a failed load propagates; a valid request with loaded answers gets either the guesses or no response; a response carries exactly `limit` sorted, distinct, non-answer list entries; no response happens only when the drawn indices did not cover the list or there are too few non-answer words. |
| `CheckRoute.CheckHandler` | src/app/api/guesses/check/route.ts:45-61 | An invalid word is answered with the validator's message; a failed load propagates; otherwise `isValidGuess` holds exactly when the lowercase word is in the list and `isPastAnswer` exactly when it is in the answer set. |
| `CheckRoute.CheckIgnoresCase` | src/app/api/guesses/check/route.ts:48-59 | Words differing only in letter case get identical responses. |
| `CheckRoute.InvalidWordIgnoresAnswers` | src/app/api/guesses/check/route.ts:48-57 | The response to an invalid word does not depend on the answer set or on whether loading it failed. |
| `GuessesRoute.NonAnswers` | src/app/api/guesses/route.ts:28-30 | The filter keeps each entry that is not a past answer with its multiplicity and drops every past answer. |
| `GuessesRoute.NonAnswersLength` | src/app/api/guesses/route.ts:28-33 | The filtered list is never longer than the word list, and is as long exactly when no entry is a past answer. |
| `GuessesRoute.CountsHandler` | src/app/api/guesses/route.ts:26-35 | A failed load propagates; otherwise `guessesLength` is the number of entries, `potentiallyWinningGuessesLength` the number of non-answer entries, at most `guessesLength`, and equal to it exactly when no entry is a past answer. |
| `Ordering.Sort` | src/app/api/guesses/match/route.ts:152 | The sort returns an ascending permutation of its input. |
| `Ordering.SortedUnique` | src/app/api/guesses/match/route.ts:148-153 | Two ascending arrangements of the same words are identical, so the final sort erases the shuffle's order. |

## Left out

- Memoisation of `loadAnswers` with `memoizee` and its expiry (src/api-biz/answers.ts:44-56): time- and concurrency-dependent. Handlers take the outcome of a load as input. The source computes `maxAge` once, when the module loads (line 54). It does not expire the cache at each midnight, and the model claims nothing about expiry.
- Fetching and scraping the answers page (axios, cheerio; src/api-biz/answers.ts:6-26): foreign libraries. `Answers.LoadAnswers` takes the parsed list. The `console.log` line is omitted.
- Next.js plumbing: `URL`, `searchParams`, `NextResponse`, status codes. Responses are the `Api.Response` datatype.
- JavaScript `Number()` coercion and non-integer limits: a limit is `NaN` or an integer. Strings such as "2.5", "1e3" or whitespace, the truncation by `slice` and the rounding up by the guess loop are not modelled. `Infinity` is not modelled either. `Number("Infinity")` passes both validators (src/app/api/guesses/match/route.ts:50, src/app/api/guesses/guess/route.ts:17). The match route then returns every match, because `slice(0, Infinity)` keeps them all. The guess loop (src/app/api/guesses/guess/route.ts:84) never ends for any word list.
- Distribution of `Math.random`: the comparator-based shuffle is not uniform. The model claims no distribution, only that the shuffle reorders.
- `GuessRoute.DrawGuesses`: an empty word list is excluded by requiring every drawn index to be a position of the list. In the source, `guesses[0]` is then `undefined`, which the loop would push once.
- `MatchRoute.ValidateParams`: lowercasing is ASCII-only. JavaScript's `toLowerCase` also maps some non-ASCII characters into `a`–`z` (the Kelvin sign becomes `k`), so it accepts a few exclude strings the model rejects. String length is counted in characters, not UTF-16 code units.
- `Ordering.Sort`: `localeCompare` is modelled as code-point order. The two agree on lowercase `a`–`z` words, which is what the word list holds.
- The word list module (`src/lib/guesses`) is not part of this model. It is a parameter.
- `/api/answers/stats`, the pages and the OpenAPI/swagger documentation routes: these return a set size or present and document the API. There is no decision logic to model.
- A general constraint matcher (letter-count limits, correct-position maps, wrong-position letters) and a regular-expression matcher are not modelled. The source has no such code: the only matcher is the positional pattern matcher.

## Notes on the source

- The known-answer check (src/api-biz/answers.ts:38) uses `answers.includes` on the raw parsed list, not the set built at line 41. Both hold the same entries, so the outcome is the same.
- The default limits are 1 for the guess route (src/app/api/guesses/guess/route.ts:16) and 25 for the match route (src/app/api/guesses/match/route.ts:37).
- The match filter (src/app/api/guesses/match/route.ts:131-144) repeats `answers.has(guess)` in each of its five rounds, with the same outcome as checking once. It never reads past the fifth character of a word.
