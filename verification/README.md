# Quiz page core in Dafny

This project models the logic of a single-page multiple-choice quiz: the
browser script `script.js` that loads `questions.csv`, parses it into
question records, shuffles them, renders one radio group per question and
grades the selections on submit. The DOM event handlers are taken apart
into pure transitions over an explicit session record.

Modules, one concept each:

- `Wrappers`: the `Option` datatype.
- `Text`: the JavaScript string primitives the script uses. These are
  `trim` (with the ECMAScript whitespace set), `split` on one character,
  `join` and ASCII `toUpperCase`.
- `Questions`: the question record, the labels A to D and which of them
  are rendered.
- `Csv`: the per-field unquote step, plus the quote-aware comma splitter
  that stands in for the field regular expression.
- `Parser`: `parseCSV`, its record-per-line description, and the proof
  that the loop computes exactly that description.
- `Shuffle`: `shuffleArray` (Fisher–Yates) over an array. `Math.random` is
  replaced by a sequence of draws in [0, 1).
- `Grading`: the tally, percentage and pass decision of the submit handler.
- `Session`: the page state and its transitions (load, click on a radio,
  submit, retry, shuffle).

Behaviour of the script that the model keeps as it is:

- An empty question set grades to `NaN` and never passes.
- Unquoting a quoted value, with its inner quotes doubled, gives the value
  trimmed.
- Records are split into lines before fields are read, so a quoted value
  cannot span lines.
- The transitions are not gated on which buttons are visible. Radios stay
  clickable after submit. Which of submit, retry and shuffle a user can
  reach depends only on the visibility flags the transitions set.
- An answer column that names no label is accepted; such a question can
  never be answered correctly.

## Model

| member | source | states |
|---|---|---|
| Shuffle.Pick | script.js:18 | `Math.floor(r * (i + 1))` for a draw `r` in [0, 1) is an index between 0 and `i` |
| Shuffle.PicksOf | script.js:17-18 | the draws give one valid pick per loop turn, from index `n - 1` down to 1 |
| Shuffle.SwapPermutes | script.js:20 | a swap keeps the multiset of elements |
| Shuffle.Steps | script.js:17-21 | the loop from index `i` down keeps the length |
| Shuffle.StepsKeepsAbove | script.js:17-21 | the loop from index `i` down never writes a position above `i` |
| Shuffle.StepsPermutes | script.js:17-21 | the loop keeps the multiset of elements |
| Shuffle.FisherYates | script.js:16-22 | the shuffle is a permutation of its input, and arrays of length 0 or 1 are unchanged |
| Shuffle.ShuffleInPlace | script.js:16-22 | the in-place loop over an array leaves the Fisher–Yates arrangement of its former contents for the given draws |
| Shuffle.ShuffleArray | script.js:16-22 | shuffling an array holding `s` yields the Fisher–Yates arrangement for the given draws, a permutation of `s`, and `s` itself when it has at most one element |
| Shuffle.SwapDistinct | script.js:20 | a swap keeps the elements pairwise distinct |
| Shuffle.StepsInjective | script.js:17-21 | on distinct elements, picks that differ at some turn give different arrangements |
| Shuffle.FisherYatesInjective | script.js:16-22 | on distinct elements, pick sequences that differ at some turn give different shuffles |
| Text.TrimStartSpec | script.js:26 | the leading part `trim` removes is exactly the longest whitespace prefix |
| Text.TrimEndSpec | script.js:26 | the trailing part `trim` removes is exactly the longest whitespace suffix |
| Text.TrimSpec | script.js:26 | `trim` gives a slice of the input with only whitespace before and after it; it is empty exactly for all-whitespace input, and otherwise starts and ends with non-whitespace |
| Text.TrimNoSurroundingWhitespace | script.js:35 | a string with no whitespace at either end is its own trim |
| Text.TrimIdempotent | script.js:44 | trimming twice is trimming once |
| Text.ToUpperSpec | script.js:60 | upper-casing keeps length, leaves no lower-case letter and maps each lower-case letter to its capital |
| Text.ToUpperIdempotent | script.js:60 | upper-casing an upper-cased answer changes nothing |
| Text.Split | script.js:26-27 | `split` on one character gives at least one piece; its exact pieces are stated by `Text.JoinSplit`, `Text.SplitPieces` and `Text.SplitJoin` |
| Text.JoinSplit | script.js:26 | the pieces of `split('\n')` joined back give the text |
| Text.SplitPieces | script.js:26-27 | `split` on one character gives one more piece than there are separators, none holding a separator |
| Text.SplitPrefix | script.js:26 | a separator-free prefix stays in the first piece |
| Text.SplitJoin | script.js:26 | splitting a join of separator-free pieces gives the pieces back |
| Csv.Unquote | script.js:44 | the cleaned field (outer quotes stripped, doubled quotes collapsed, trimmed) has no whitespace at either end; its exact value is stated by `Csv.UnquoteQuote` and `Csv.UnquotePlain` |
| Csv.CollapseEscape | script.js:44 | collapsing `""` to `"` undoes doubling every quote |
| Csv.UnquoteQuote | script.js:44 | unquoting a value wrapped in quotes, with inner quotes doubled, gives the value trimmed |
| Csv.UnquotePlain | script.js:44 | a field with no quote is only trimmed |
| Csv.CollapsePlain | script.js:44 | without quotes there is nothing to collapse |
| Csv.SplitFields | script.js:31 | the stand-in for the field regular expression yields at least one raw field per line; `Csv.JoinSplitFields` and `Csv.SplitJoinQuoted` state which |
| Csv.ScanFields | script.js:31 | the splitter always yields at least one field |
| Csv.ScanFieldsJoin | script.js:31 | the splitter cuts only at commas: rejoining the fields restores the line |
| Csv.JoinSplitFields | script.js:31 | rejoining a line's fields with commas restores the line |
| Csv.ScanEscaped | script.js:31 | inside an open quote, an escaped value is read whole, commas and doubled quotes included |
| Csv.ScanQuoted | script.js:31 | a quoted value at the start of a field is read as one field body |
| Csv.SplitJoinQuoted | script.js:31-46 | the fields of a row of quoted values are exactly those quoted values |
| Parser.Lines | script.js:26 | the trimmed text gives at least one line and at most one more line than it has characters |
| Parser.ColumnCount | script.js:27 | the header's column count is its comma count plus one |
| Parser.RowFields | script.js:42-47 | a row gives its unquoted fields in order, stopping at the header's column count or at the end of the line |
| Parser.ExtractFields | script.js:38-47 | the field loop collects exactly the capped, unquoted fields |
| Parser.RowRecord | script.js:35-61 | the record line `id` contributes, if any, carries `id`; `Parser.RowRecordSpec` states its fields |
| Parser.RowRecordSpec | script.js:49-61 | a blank or short row yields nothing; otherwise fields 0 to 5 become question, options A to D and the upper-cased answer; a header under six columns yields nothing |
| Parser.RowsIdsMatch | script.js:52 | each record carries its own line index as `id` |
| Parser.RowsNarrowHeader | script.js:27-50 | a header narrower than six columns leaves every line without a record |
| Parser.CollectSound | script.js:33-63 | every collected record is the record of a line after the header, and there are at most `n - 1` of them |
| Parser.CollectSorted | script.js:33-63 | collected records come in strictly increasing line order |
| Parser.CollectComplete | script.js:33-63 | no line that yields a record is missed |
| Parser.CollectCharacterized | script.js:33-63 | `Collect` is sound, sorted and complete |
| Parser.CollectNone | script.js:33-63 | lines that yield nothing collect to nothing |
| Parser.IncreasingIdsBound | script.js:33 | strictly increasing ids between 1 and `n - 1` number at most `n - 1` |
| Parser.CollectedFromLast | script.js:50-62 | a record from the last line ends the result, and what precedes it describes the lines before |
| Parser.LastRecordEnds | script.js:50-62 | a record from the last line is the last entry of the result and carries that line's id |
| Parser.PrefixCovers | script.js:33-63 | dropping the last line's record leaves a description of the lines before it |
| Parser.CollectedFromSkip | script.js:35 | a last line with no record leaves the result as for the lines before |
| Parser.CollectedFromIsCollect | script.js:33-63 | the sound, sorted, complete description has only one solution |
| Parser.ParseDeterministic | script.js:25-65 | a text has exactly one parse |
| Parser.ParseCSV | script.js:25-65 | the result is the unique parse: the records of the non-blank lines after the header that have six fields, in line order with line-index ids; it has fewer entries than lines; a header under six columns gives nothing |
| Parser.CollectLines | script.js:33-63 | the loop over the lines after the header collects, in line order, the record of each line that yields one |
| Parser.CollectParses | script.js:25-65 | what the loop collects is a parse of the text, shorter than the line count, and empty under a narrow header |
| Parser.ParsedRecordsFromLines | script.js:51-61 | every parsed record is its own line's record, and its answer has no lower-case letter |
| Parser.JoinQuotedNotBlank | script.js:35 | a row of quoted values is never skipped as blank |
| Parser.RowFieldsOfQuoted | script.js:42-47 | a row of quoted values gives those values trimmed, cut at the column count |
| Parser.RowRecordOfQuoted | script.js:44-61 | six or more quoted values within the column count give one record of the trimmed values with the answer upper-cased |
| Grading.Score | script.js:138-153 | `score` counts the questions whose checked value equals the answer, never more than there are questions |
| Grading.Answered | script.js:138-150 | `answeredCount` counts the questions with a checked radio, never more than there are questions |
| Grading.ScoreBounds | script.js:148-153 | `score <= answeredCount <= n`, so an unanswered question never scores |
| Grading.FullMarks | script.js:152-153 | the score is `n` exactly when every selection equals its question's answer |
| Grading.ZeroMarks | script.js:152-153 | the score is 0 exactly when no selection equals its question's answer |
| Grading.NothingSelected | script.js:148-171 | with no radio checked, nothing is answered and nothing scores |
| Grading.Tally | script.js:135-172 | the `forEach` counts the correct and the answered questions, with `score <= answeredCount <= n` |
| Grading.RoundPercent | script.js:175 | the percentage `p` satisfies `p - 1/2 <= 100 * score / n < p + 1/2` (written multiplied by `2n`), so halves round up, and `p` is at most 100 |
| Grading.RoundPercentBracket | script.js:175 | the integer formula `(200 * score + n) / (2 * n)` lies within one half of `100 * score / n` and is at most 100 |
| Grading.RoundPercentEnds | script.js:175 | all correct gives 100, none correct gives 0 |
| Grading.PassIff | script.js:179 | the rounded percentage reaches 80 exactly when `200 * score >= 159 * n` |
| Grading.GradeOf | script.js:174-185 | the grade holds the tally; the percentage is `NaN` exactly for an empty quiz and otherwise the rounded percentage `Grading.RoundPercent(score, n)`, at most 100; it passes exactly when the percentage is a number of at least 80, which is exactly when there are questions and `200 * score >= 159 * n` |
| Grading.GradeEnds | script.js:175-185 | all correct gives 100 and a pass; none correct gives 0 and no pass |
| Session.NoSelections | script.js:198 | a cleared selection list has one empty entry per question |
| Session.Start | script.js:104-105 | the freshly rendered quiz has nothing checked, submit shown, score and retry hidden |
| Session.Select | script.js:77-82 | a click replaces only its own group's choice, and only a rendered option can be chosen |
| Session.Submit | script.js:134-189 | submit shows the grade of the current selections, hides submit and shows retry, and keeps questions and selections |
| Session.Retry | script.js:196-211 | retry clears every selection, hides the score and retry, shows submit, and keeps the question order |
| Session.Reshuffle | script.js:116-127 | shuffle clears every selection, hides the score, permutes the questions and keeps both buttons as they were |
| Session.Load | script.js:99-106 | loading gives the shuffle of the unique parse of the text, with nothing checked |
| Session.SelectLastWins | script.js:82 | within one radio group the later click wins |
| Session.SelectCommutes | script.js:82 | clicks in different groups do not interfere |
| Session.RetryForgetsSelect | script.js:196-198 | retry forgets every earlier click |
| Session.SubmitTwice | script.js:134-189 | the grade depends only on the questions and the selections: submitting again without a new click shows the same grade |
| Session.SubmitAfterClearing | script.js:196-211 | submitting straight after retry or shuffle scores 0 with nothing answered |

## Left out

- Rendering (`renderQuiz`, script.js:68-96) is left out. So are the highlight classes, feedback texts and `scrollTo`. They are presentation only. The model keeps just the radio groups and which options get one.
- The `fetch` of `questions.csv` and its error path (script.js:99-110) are left out. They are asynchronous I/O. `Session.Load` takes the fetched text as a parameter.
- The field regular expression (script.js:31) is replaced by a quote-aware comma splitter (`Csv.SplitFields`). The expression's quirks are not modelled. These include its zero-length matches, and its `lastIndex`, which is shared across lines and not reset when the field cap stops the loop.
- `Csv.SplitFields`: fields are cut only at commas outside quotes. A line holding a stray quote therefore is not split the way the regular expression would split it.
- `Csv.SplitFields`: a row that starts with a comma is split as if it began with an empty field. The regular expression tries its `,` alternative before `^`, so it reads one field fewer. For example, `,b,c,d,e,A` gives five fields and no record in the script, but six fields and a record with an empty question in the model.
- `Csv.SplitFields`: a quoted field followed by `\r` or spaces before the comma or the line end keeps those characters in the raw field. The regular expression's capture stops at the closing quote. On a line ending `,"A"\r` (a CRLF file), the script's answer is `A`, but the model's is `A"`, which no selection can match.
- `Csv.SplitFields`: a space before an opening quote is read differently. In the model a quote opens a quoted stretch wherever it stands, so for `q, "a,b", c` the raw fields are `q`, ` "a,b"` and ` c`, and the middle one unquotes to `"a,b`. In the regular expression the field starts at the space and ends before the quote, and the next match begins at the comma inside the quotes, so the script gives `q`, an empty field, `b` and `c`.
- `Shuffle.FisherYatesInjective`: only injectivity of the picks is proved. That every arrangement is reached, and that there are exactly `n!` valid pick sequences, is not proved, so uniformity is not fully derived.
- `Shuffle.Pick`: the product `r * (i + 1)` is exact real arithmetic, not double-precision floating point.
- `Shuffle.ShuffleArray`: `Math.random` is a parameter, a sequence of draws in [0, 1) consumed one per turn. Uniformity is stated as injectivity of the pick sequence (`Shuffle.FisherYatesInjective`), not as a probability.
- `Grading.RoundPercent`: `Math.round((score / n) * 100)` is computed exactly, as `(200 * score + n) / (2 * n)`. The double-precision division and multiplication, which can land just below a half, are not modelled.
- `Text.ToUpper`: only ASCII letters are upper-cased. The rest of the Unicode case mapping is not modelled.
- The initial visibility of the score area and the two buttons (`Session.Start`) is set in `index.html`, which is not part of this model. It is assumed to be score hidden, submit shown, retry hidden.
- `Session.Load`: the draws are required to cover the text's length, an upper bound on the number of parsed questions, because the parse result is not known beforehand.
- `Session.Select`: a click is modelled by question index and label. The browser's own handling of the radio inputs is not modelled.
