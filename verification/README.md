# What is Jeopardy — a verified model of the game controller

The game is a browser page. `whatIsJeopardy` fetches up to five trivia
categories one after the other. It keeps their clues in a keyed store, up to
five per category (fewer when a category has fewer), worth 100 points for the
first and 100 more for each next one. The player opens a clue and answers in the form
"What is …". The answer is compared with the stored one after both pass through
the canonicaliser `cleanseAnswer`, and a correct answer adds the clue's value to
the score.

This project models that controller in Dafny, file by file of `script1.js`:

| file | models |
|---|---|
| `Text.dfy` | the JavaScript string built-ins the controller uses: `toLowerCase`, `trim`, `startsWith`, `replace` with a string pattern, `replace(/c/g, "")`, and number-to-string |
| `Answer.dfy` | `cleanseAnswer` (lines 178-187), as pure functions |
| `FisherYates.dfy` | `shuffle` (lines 208-217): the in-place loop on an `array`, proved against a functional specification |
| `Store.dfy` | the clue and category records, and what ingesting one fetched category does to the store (lines 58-83) |
| `Fetch.dfy` | the `requestsMade` counter and the stopping rule of `fetchCategories` (lines 39-97) |
| `Scoring.dfy` | the decision `handleFormSubmit` takes (lines 152-175) |
| `Game.dfy` | the class itself: fields `categories`, `clues`, `currentClue` and `score`, and the methods that change them |

The outside world enters as inputs:
- Each shuffle receives its random draws as a sequence, with `draws[i] <= i`, which is what `Math.floor(Math.random() * (i + 1))` can return.
- The fetch loop receives the outcomes of its requests in order:
  - `Failed` means the network, the status check or the JSON parse failed.
  - `Received(payload, draws)` means the success handler ran.

## Behaviour worth knowing

The code does the following, and the model does the same.

- **Leading articles are never stripped.** Line 182 deletes every space before lines 184-185 look for `a ` or `an `, so those two rules can never match (`ArticleRulesInert`). A stored answer `a dog` canonicalises to `adog` and does not match `What is dog` (`ArticleKept`, `ArticleAnswerRejected`). Typing `What is a dog` still matches, because both sides keep the article.
- **The canonicaliser is not idempotent.** Each tag rule removes only the first `<i>` or `</i>`. Cutting the `<i>` out of `<<i>i>` leaves a new `<i>`, which a second pass removes (`TagReappears`). It is idempotent on results that hold no tag (`CleanseIdempotentWhenTagFree`).
- **A payload without a clue array counts toward the five.** `requestsMade++` at line 59 runs before `shuffle` throws on the missing array. Such an attempt is counted but adds no category (`IngestedAtMostCounted`). Failures before line 59 are not counted.
- **Failures are retried without limit.** The model takes a finite sequence of outcomes, and the loop stops when it runs out of them. The code would go on fetching.

## Model

| member | source | states |
|---|---|---|
| Text.Lower | script1.js:179 | `toLowerCase` keeps the length and lower-cases each character on its own, leaving no upper-case ASCII letter |
| Text.LowerOfNoUpper | script1.js:179 | lower-casing leaves text with no upper-case ASCII letter unchanged |
| Text.LowerAppend | script1.js:158 | lower-casing a concatenation lower-cases each part |
| Text.Trim | script1.js:186 | the trimmed text is no longer than the input, and neither of its ends is whitespace |
| Text.TrimSplit | script1.js:186 | the input is whitespace, then its trimmed form, then whitespace |
| Text.TrimOfTrimmed | script1.js:186 | trimming a text whose two ends are not whitespace changes nothing |
| Text.ReplaceFirst | script1.js:180-181 | `replace` with a string pattern either leaves the text as it was or removes exactly the pattern's length |
| Text.ReplaceFirstAt | script1.js:180-181 | when the first occurrence of the pattern is at `k`, exactly the pattern at `k` is cut out |
| Text.ReplaceFirstAbsent | script1.js:180-181 | a pattern that does not occur leaves the text unchanged |
| Text.ReplaceFirstShrinks | script1.js:180-181 | the result holds no character more often than the input |
| Text.RemoveAll | script1.js:182-183 | a global `replace` of one character by nothing never lengthens the text |
| Text.RemoveAllCounts | script1.js:182-183 | the global replace keeps every other character as often as it occurs, and removes every copy of the pattern character |
| Text.RemoveAllRemoves | script1.js:182-183 | no copy of the removed character is left, and the result is a sub-multiset of the input |
| Text.RemoveAllAppend | script1.js:182-183 | the global replace of a concatenation is the concatenation of the replaces |
| Text.Decimal | script1.js:70 | the decimal rendering of a number is a non-empty run of digits, a single digit exactly for numbers below 10 |
| Text.DecimalInjective | script1.js:70 | two numbers with the same decimal rendering are equal |
| Answer.Cleanse | script1.js:178-187 | the canonical form is never longer than the input |
| Answer.ArticleRulesInert | script1.js:182-185 | `StripLeading` (lines 184-185), the anchored `replace(/^a /, "")`: the rules removing `a ` and `an ` never change the text, because no space is left when they run |
| Answer.CleanseShape | script1.js:178-187 | `Untag` (lines 180-181) and `Compact` (lines 182-183) feed `Cleanse`; the canonical form has no space, no double quote and no upper-case letter, has no whitespace at either end, and uses only characters of the lower-cased input |
| Answer.CleanseOfTrim | script1.js:160-165 | trimming the typed answer before canonicalising does not change its canonical form |
| Answer.CleanseIgnoresCase | script1.js:179 | texts equal up to ASCII letter case have the same canonical form |
| Answer.CleanseIdempotentWhenTagFree | script1.js:178-187 | canonicalising a canonical form that holds no `<i>` or `</i>` gives it back |
| Answer.PlainIsCanonical | script1.js:178-187 | a word of lower-case, non-space, non-quote characters without `<` is its own canonical form |
| Answer.ArticleKept | script1.js:182-185 | `a ` followed by a plain word canonicalises to `a` and the word, which differs from the word's own canonical form |
| Answer.ItalicPairDropped | script1.js:178-187 | any text without `<`, in any letter case and with any spaces, has the same canonical form inside one italic pair as bare |
| Answer.ItalicPairIgnored | script1.js:178-187 | a plain word inside one italic pair canonicalises to the word itself |
| Answer.OnlyFirstTagsRemoved | script1.js:180-181 | of two italic pairs only the first is removed |
| Answer.TagReappears | script1.js:180-181 | `<<i>i>` before a plain word canonicalises to `<i>` and the word, and a second pass gives the word alone, so canonicalising is not idempotent |
| FisherYates.Shuffle | script1.js:208-217 | the in-place loop leaves the array equal to the specification `Shuffled` (the passes `Pass` from index `n - 1` down, each a `Swap` with the draw) of its old contents and draws, and a permutation of them |
| FisherYates.ShuffledIsPermutation | script1.js:208-217 | for any draws, the shuffled sequence is a permutation of the input |
| FisherYates.PassKeepsTail | script1.js:210-215 | the passes from index `hi - 1` down never touch positions at `hi` or above |
| FisherYates.ShuffledInjective | script1.js:208-217 | on distinct elements, two valid draw sequences that give the same order agree at every index from 1 up, so each order comes from at most one draw sequence |
| FisherYates.ShuffledLast | script1.js:211-214 | the last slot ends up holding the input element at index `draws[n - 1]`, the first draw the loop makes |
| FisherYates.ShortUnchanged | script1.js:210 | arrays of fewer than two elements come back unchanged |
| FisherYates.IdentityDrawsKeepOrder | script1.js:211-214 | when every draw picks its own index, the order is kept |
| Store.ClueIds | script1.js:70-71 | a category lists exactly as many clue keys as clues were picked |
| Store.ClueKeyInjective | script1.js:70 | `ClueKey` (line 70): the key `index-categoryId` determines both the index and the category |
| Store.PickedFromPayload | script1.js:67 | `Picked` (line 67), the first five of the shuffled clues: `min(5, n)` clues are picked, all of them from the payload |
| Store.EntriesKeys | script1.js:67-79 | `Entries` (lines 69-79), what the `forEach` writes: the store entries written are exactly the keys of the picked clues |
| Store.EntriesAt | script1.js:70-78 | `Record` (lines 74-78), the object written for a clue: the `i`-th picked clue is stored under `i-<id>` with its question, its answer and value `(i + 1) * 100` |
| Store.EntriesValuesPositive | script1.js:77 | every value written is at least 100 |
| Store.IngestSpec | script1.js:58-83 | `Ingest` (lines 58-83), the success handler on the store: one category is appended, with `min(5, n)` keys in order, each key stored with its clue; every other key keeps what it had |
| Store.IngestKeepsConsistent | script1.js:58-83 | after an ingest, every stored value is positive and every key a category lists is stored |
| Fetch.Counted | script1.js:59 | the number of successes counted never exceeds the number of outcomes |
| Fetch.Issued | script1.js:40-47 | the loop never starts more requests than there are outcomes |
| Fetch.CountedAppend | script1.js:59 | the success count of two runs of outcomes is the sum of their counts |
| Fetch.IssuedStopsAtCap | script1.js:40-47 | the loop counts at most five successes, and stops short of five only when no outcome is left |
| Fetch.IssuedEndsOnSuccess | script1.js:44-47 | when the loop reaches five, its last request was the fifth success and nothing is started after it |
| Fetch.RunAppends | script1.js:58-97 | `Run` of the outcomes in order, each a `Step`: every outcome with a clue array appends one category and no other outcome does; earlier categories and stored keys remain |
| Fetch.IngestedAtMostCounted | script1.js:59-67 | the categories added never exceed the count of line 59 |
| Fetch.AtMostFiveCategories | script1.js:39-97 | one run of the fetch loop adds at most five categories |
| Fetch.RunKeepsConsistent | script1.js:39-97 | whatever the outcomes, the store stays consistent |
| Scoring.ExpectedFormatLowered | script1.js:156-158 | the expected prefix lower-cases to `what is ` |
| Scoring.VerdictByCanonicalForms | script1.js:158-165 | `Judge` (lines 156-174): after a prefix equal to `what is ` up to case, the verdict is whether the canonical forms of the rest and of the stored answer are equal |
| Scoring.StoredAnswerAccepted | script1.js:158-168 | typing the stored answer back, in any letter case and with whitespace around either one, is correct and earns the clue's value |
| Scoring.MissingPrefixRejected | script1.js:158-174 | `StartsWith` (line 158), the `startsWith` test: without the prefix the submission is refused and earns nothing |
| Scoring.AwardNonNegative | script1.js:164-168 | `Award` (lines 164-168), the points a submission earns: with positive clue values, a submission never loses points, and earns some exactly when it is correct |
| Scoring.ItalicAnswerAccepted | script1.js:158-168 | a stored answer in one italic pair, holding no other `<`, is matched by its text typed without the tags, and earns the clue's value |
| Scoring.ArticleAnswerRejected | script1.js:164-165 | a stored answer `a <word>` is not matched by the bare word |
| Game.Jeopardy.constructor | script1.js:2-9 | empty store, no categories, no clue open, score 0 |
| Game.Jeopardy.UpdateScore | script1.js:123-126 | the score grows by `change`, and nothing else changes; a change of 0 or more keeps the invariant (non-negative score, positive clue values, consistent store) |
| Game.Jeopardy.HandleClueClick | script1.js:128-137 | the clue under the clicked key becomes the current one, or none when the key is unknown; the store and the score stay |
| Game.Jeopardy.HandleFormSubmit | script1.js:152-175 | the verdict is `Judge` of the input and the open clue; the score grows by the clue's value exactly on a correct answer and never falls; nothing else changes; the invariant is kept |
| Game.Jeopardy.IngestCategory | script1.js:58-83 | the store and categories become `Ingest` of the old ones, the score and open clue stay, and the invariant is kept |
| Game.Jeopardy.FetchCategories | script1.js:39-97 | the loop takes as many outcomes as `Issued` says; `requestsMade` is their success count, at most five, and below five only when the outcomes ran out; the store becomes `Run` of those outcomes |
| Game.Jeopardy.InitGame | script1.js:23-37 | adds 0 to the score, then runs the fetch loop: at most five successes are counted, and the store becomes `Run` of the outcomes taken |

## Left out

- The DOM is not modelled: element lookups, `renderCategory` (lines 100-117), `revealAnswer` (lines 189-201), the modal classes, the input field and the score display. Those are view effects with no state of the controller behind them.
- The event binding in `initGame` (lines 24-32) and `event.preventDefault` are not modelled. The handlers are called directly.
- `fetch`, the status check, the JSON parse and the random category id of line 49 are not modelled. They become the `Attempt` outcomes, and the category id arrives in the payload.
- `Math.random` becomes the `draws` input of the shuffle.
- FisherYates.Shuffle: the probability distribution of the result is not modelled. `ShuffledInjective` proves that different valid draws give different orders of distinct elements; that there are `n!` valid draw sequences, and hence that uniform draws give a uniform order, is not stated in Dafny.
- `setTimeout`, `alert` and `console` output are not modelled.
- The asynchrony of the promise chain is not modelled. Each request starts only after the previous one settles, so the model runs the outcomes in order.
- Text.Lower: lower-cases only the ASCII letters `A`-`Z`; the Unicode case mapping of `toLowerCase` is outside the model.
- Game.Jeopardy.HandleFormSubmit: with no clue open, the code throws a `TypeError` at line 165; the model returns `NoClueOpen` and changes nothing.
- Game.Jeopardy.HandleClueClick: for an unknown key, the code sets `currentClue` to `undefined` and then throws at line 140; the model sets no current clue and reports that the key was not found.
- Store.Payload: each clue of a payload is assumed to carry a question and an answer string. A `null` entry makes the `forEach` throw after some clues were written; such partial writes are not modelled.
- The default parameter `input = ''` of `cleanseAnswer` is not modelled; every call site passes a string.
