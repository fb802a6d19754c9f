# Quote substitution of `fileProcessor.py`, in Dafny

`layerByteCode/resources/fileProcessor.py` prepares a source file for a tool
that cannot cope with double quotes inside single-quoted strings. `process`
reads the file line by line. On every line with an even number of single
quotes, it pairs the quotes from the left (1st with 2nd, 3rd with 4th, …) and
replaces each double quote between the two quotes of a pair with a
caller-chosen constant. A line with an uneven number of single quotes is kept
as it is, and a warning is printed. `unprocess` runs
`sed -i "s/<constant>/\"/g"` over the file to turn every occurrence of the
constant back into a double quote.

The model has four modules:

- `PyStr` (`py_str.dfy`): the Python string operations the code uses.
  - `str.count` and `str.find`.
  - `str.replace`, which is also the literal effect of the `sed` command.
- `FileProcessor` (`file_processor.dfy`):
  - The specification of one line. `Scan` is a two-state machine: outside a
    span or inside one. `ProcessLine` builds on it.
  - The `while` loop of `__replace`, as the method `SubstituteInSpans`. It is
    proved against `Scan`.
  - The loop over the lines, as the method `Replace`. It returns the processed
    lines and the indices of the lines it skipped.
  - The restore step, as `Restore` and `Unprocess`.
  - The properties: locality, preserved single quotes, idempotence, the round
    trip.
- `GeneralLoop` (`general_loop.dfy`): the same `while` loop exactly as written,
  for a constant of any length.
  - It follows Python slicing, where a negative bound counts from the end and
    bounds are clamped.
  - `find` returns -1 when there is no match.
  - The index `second` is carried over after `line` has been rebuilt.
  - Because the loop need not stop, it runs for a bounded number of passes.
- `WorkedLines` (`worked_lines.dfy`): individual lines worked through
  in full.

The loop as written and the scanner agree for every one-character constant
(`GeneralLoop.AsWrittenOneChar`). For constants of any other length the loop
can mispair quotes or fail to stop (see "## Findings").

`echo 'say "hi" now' and "don't touch"` holds three single quotes, the
apostrophe of `don't` being the third, so `__replace` leaves the whole line
unchanged (`WorkedLines.ApostropheLeavesLineAlone`).

## Model

| member | source | states |
|---|---|---|
| PyStr.Count | layerByteCode/resources/fileProcessor.py:23 | `str.count` for one character. No more occurrences than characters. `CountAppend` makes it additive over concatenation, and `CountZero` makes it zero exactly when the character is absent. |
| PyStr.CountAppend | layerByteCode/resources/fileProcessor.py:23 | The count over a concatenation is the sum of the counts of the parts. |
| PyStr.CountZero | layerByteCode/resources/fileProcessor.py:23 | The count is zero exactly when the character does not occur. |
| PyStr.ReplaceAll | layerByteCode/resources/fileProcessor.py:37 | `str.replace`, and the literal effect of `sed s/…/…/g` on one line. No contract of its own; `ReplaceCharAt` and `ReplaceAllAbsent` characterise it. |
| PyStr.Find | layerByteCode/resources/fileProcessor.py:33-35 | `find` returns the first index at or after `start` that holds the character, or -1 exactly when no such index exists. |
| PyStr.ReplaceCharAt | layerByteCode/resources/fileProcessor.py:37 | Replacing one character by one character keeps the length. Each position is mapped on its own. |
| PyStr.ReplaceAllAbsent | layerByteCode/resources/fileProcessor.py:70 | A global replace of a pattern that does not occur leaves the text unchanged. |
| FileProcessor.Scan | layerByteCode/resources/fileProcessor.py:29-38 | The scanner that specifies the loop. No contract of its own; `ScanAt`, `ScanAppend`, `ScanPlain` and `ScanSpanBody` characterise it, and `SubstituteInSpans` proves the loop equal to it. |
| FileProcessor.ProcessLine | layerByteCode/resources/fileProcessor.py:23-38 | One line: kept when its count of single quotes is uneven, scanned otherwise. No contract of its own; `ProcessLineAt`, `QuotesPreserved`, `ProcessIdempotent`, `NoQuoteUnchanged`, `BetweenSpansUntouched` and `SpanRewrite` characterise it. |
| FileProcessor.ScanPlain | layerByteCode/resources/fileProcessor.py:31 | Text without single quotes passes through the scanner unchanged. |
| FileProcessor.ScanSpanBody | layerByteCode/resources/fileProcessor.py:37 | Inside a span without single quotes, the scanner does what `.replace('"', constant)` does. |
| FileProcessor.ScanAt | layerByteCode/resources/fileProcessor.py:29-38 | For a one-character constant, the scanner keeps the length, and position i becomes the constant exactly when it is a double quote and an odd number of single quotes stand before it; otherwise it is kept. |
| FileProcessor.ProcessLineAt | layerByteCode/resources/fileProcessor.py:23-38 | Locality, for a one-character constant: only the double quotes strictly inside a span change. Delimiters, text between spans and lines with an uneven count are kept, character for character. |
| FileProcessor.QuotesPreserved | layerByteCode/resources/fileProcessor.py:37 | For a one-character constant other than `'`, single quotes keep their positions and their count, so the pairing found by the loop does not move. |
| FileProcessor.ProcessIdempotent | layerByteCode/resources/fileProcessor.py:21-38 | For a one-character constant other than `'`, processing a processed line again changes nothing. |
| FileProcessor.NoQuoteUnchanged | layerByteCode/resources/fileProcessor.py:30-31 | The scanner leaves a line without single quotes unchanged, for any constant. `GeneralLoop.NoQuoteAsWritten` shows the code as written does the same. |
| GeneralLoop.NoQuoteAsWritten | layerByteCode/resources/fileProcessor.py:23-31 | A line without single quotes passes the line-23 test and fails the loop test at once, so the code returns it unchanged, for any constant. |
| FileProcessor.ScanAppend | layerByteCode/resources/fileProcessor.py:31-37 | The scan of a concatenation is the scan of the first part, then the second part scanned in the state the first part leaves. Each line depends only on itself. |
| FileProcessor.BetweenSpansUntouched | layerByteCode/resources/fileProcessor.py:31-37 | Text between two spans passes through unchanged, double quotes included. The parts on either side are processed independently. |
| FileProcessor.SpanRewrite | layerByteCode/resources/fileProcessor.py:33-37 | One span `'body'` becomes `'` + body with every double quote replaced by the constant + `'`. |
| FileProcessor.SubstituteInSpans | layerByteCode/resources/fileProcessor.py:30-38 | The loop terminates and returns the scanner's result. The visited spans pair the (2k+1)-th with the (2k+2)-th single quote, one span per two quotes. Exactly the double quotes inside them become the constant. |
| FileProcessor.ScanOneSpan | layerByteCode/resources/fileProcessor.py:31-37 | One pass finds `first` and a `second` that is never -1, with `first` < `second`. The pass keeps the loop invariant (spans found so far, text rewritten so far). |
| FileProcessor.SpanStep | layerByteCode/resources/fileProcessor.py:33-35 | On a line with an even count, the quote after an even-numbered quote always exists. The two quotes form the next pair, and the positions between them are exactly those inside the span. |
| FileProcessor.ScanDone | layerByteCode/resources/fileProcessor.py:31 | Once no single quote is left after `second`, every pair has been visited and the rewritten line equals the scanner's result. |
| FileProcessor.Replace | layerByteCode/resources/fileProcessor.py:19-39 | One output line per input line, each the processed form of its own input line. `skipped` lists, in increasing order, exactly the lines with an uneven count (where a warning is printed). |
| FileProcessor.Restore | layerByteCode/resources/fileProcessor.py:70 | `sed` on one line; the empty constant makes `sed` fail and leaves the line. No contract of its own; `RoundTrip`, `RestoreIdempotent` and `RestoreWithoutConstant` characterise it. |
| FileProcessor.Unprocess | layerByteCode/resources/fileProcessor.py:68-70 | `unprocess` on a whole file, line by line. No contract of its own; `RoundTripFile` characterises it. |
| FileProcessor.RoundTrip | layerByteCode/resources/fileProcessor.py:68-70 | With a one-character constant that does not occur in the line, restoring undoes the substitution. This covers skipped lines too. |
| FileProcessor.RoundTripFile | layerByteCode/resources/fileProcessor.py:68-70 | The same for a whole file produced by `Replace`. |
| FileProcessor.RestoreWithoutConstant | layerByteCode/resources/fileProcessor.py:70 | Restoring a line in which the constant does not occur changes nothing. |
| FileProcessor.RestoreIdempotent | layerByteCode/resources/fileProcessor.py:70 | For a one-character constant other than `"`, no constant is left after one restore, so restoring twice equals restoring once. |
| GeneralLoop.Bound | layerByteCode/resources/fileProcessor.py:37 | A slice bound is clamped to the string. A negative bound counts from the end. |
| GeneralLoop.Slice | layerByteCode/resources/fileProcessor.py:37 | `s[i:j]` is the sequence slice for in-range bounds. A negative `i` or `j` counts from the end. A range whose clamped end does not lie after its clamped start is empty. |
| GeneralLoop.Continues | layerByteCode/resources/fileProcessor.py:31 | The loop condition. No contract of its own; `QuoteFound`, `QuoteResumes` and `NoQuoteLeft` show it holds exactly when `find` sees a single quote after `second`. |
| GeneralLoop.Step | layerByteCode/resources/fileProcessor.py:33-37 | One pass. `second` never drops below -1. `StepInRange` shows that when both quotes are found, the pass is the plain rewrite of `line[first:second]`. |
| GeneralLoop.Run | layerByteCode/resources/fileProcessor.py:30-37 | The loop, bounded by a number of passes. `RunSteps` unfolds it pass by pass. `RunOneChar` shows it ends in the scanner's result for one-character constants; `NeverStops` shows it does not end for `""` on the line `'` + k `"` + `'`. |
| GeneralLoop.AsWrittenLine | layerByteCode/resources/fileProcessor.py:23-38 | One line as the code handles it. No contract of its own; `AsWrittenOneChar` ties it to `ProcessLine`, and the three findings lemmas show where it departs. |
| GeneralLoop.QuoteResumes | layerByteCode/resources/fileProcessor.py:31-33 | When `find` sees a single quote after `second`, the loop condition holds. |
| GeneralLoop.StepInRange | layerByteCode/resources/fileProcessor.py:33-37 | When both `find` calls succeed, a pass keeps `line[:first]` and `line[second:]` and rewrites only `line[first:second]`. |
| GeneralLoop.AsWrittenOneChar | layerByteCode/resources/fileProcessor.py:23-38 | For every one-character constant, the loop as written stops within `len(line)` passes and yields the scanner's result. |
| GeneralLoop.RunOneChar | layerByteCode/resources/fileProcessor.py:30-37 | From any state that satisfies the loop invariant, the remaining passes of the loop as written end in the scanner's result. |
| GeneralLoop.OnePass | layerByteCode/resources/fileProcessor.py:31-37 | One pass of the loop as written strictly increases `second` and keeps the loop invariant. |
| GeneralLoop.QuoteFound | layerByteCode/resources/fileProcessor.py:31-33 | When the loop condition holds, `find` from `second + 1` succeeds. |
| GeneralLoop.NoQuoteLeft | layerByteCode/resources/fileProcessor.py:31 | When the loop condition fails, no single quote lies after `second`. |
| GeneralLoop.DoublesQuotes | layerByteCode/resources/fileProcessor.py:37 | Replacing each of k double quotes by `""` gives 2k double quotes. |
| GeneralLoop.NeverStops | layerByteCode/resources/fileProcessor.py:30-37 | With the constant `""`, on the line `'` + k `"` + `'` with k ≥ 1, the loop keeps running for any number of passes. |
| GeneralLoop.NeverStopsOnOneSpan | layerByteCode/resources/fileProcessor.py:23-37 | On `'"'` with the constant `""` the loop as written has not stopped within any bound of passes. The scanner gives `'""'`. |
| GeneralLoop.MispairsWithEmptyConstant | layerByteCode/resources/fileProcessor.py:31-37 | On `'"''x'"''` with the empty constant the loop as written yields `'''x'''`. The scanner gives `'''x'"''`. |
| GeneralLoop.MispairsWithLongerConstant | layerByteCode/resources/fileProcessor.py:31-37 | On `'"'"'x'` with the constant `QQ` the loop as written yields `'QQ'QQ'x'`. The scanner gives `'QQ'"'x'`. |
| WorkedLines.TwoSpansWithQ | layerByteCode/resources/fileProcessor.py:30-38 | `a'b"c'd"e'f"g'h` with `Q` gives `a'bQc'd"e'fQg'h`: both spans rewritten, `d"e` between them untouched. |
| WorkedLines.ThreeQuotesKept | layerByteCode/resources/fileProcessor.py:23-27 | A line holding exactly three single quotes is returned unchanged, for any constant. |
| WorkedLines.ApostropheLeavesLineAlone | layerByteCode/resources/fileProcessor.py:23-27 | `echo 'say "hi" now' and "don't touch"` is returned unchanged, for any constant. |
| WorkedLines.ProcessingTwiceWithLongerConstant | layerByteCode/resources/fileProcessor.py:33-37 | With the constant `x"`, `'"'` becomes `'x"'`, and processing that again gives `'xx"'`: idempotence needs a one-character constant. |
| WorkedLines.OverlappingConstantBreaksRoundTrip | layerByteCode/resources/fileProcessor.py:68-70 | `'x"'` does not contain `xx`. Yet processing it with `xx` gives `'xxx'`, in the scanner and in the loop as written, and restoring gives `'"x'`. |

## Left out

- File input and output are not modelled: `__parse_file`, `__write_file` and the `sync` call (lines 6-17). `process` (lines 43-64) is only that input and output around `__replace`, so `Replace` stands for it.
- The warning `print` on line 25 is not modelled as output. `Replace` returns the indices of the lines it skipped instead.
- `unprocess` runs a shell command. The model takes the constant literally in the `sed` pattern. Constants that contain regular-expression or shell metacharacters (`.`, `*`, `/`, `&`, `\`, quotes) or a line break are not modelled, and neither is quoting of the file name. `sed` reads the file line by line and never matches a line break, while `Unprocess` restores each line with its line break included. An empty constant makes `sed` fail, so the file is unchanged, and `Restore` models that.
- `main` and its argument parsing (lines 73-87) are not modelled.
- `layerByteCode/resources/byte-code-gen.py` is not part of this model.
- Python strings are sequences of code points here. A line keeps its line break as an ordinary character.
- FileProcessor.SubstituteInSpans: requires a one-character constant. With a constant of any other length, the empty one included, the loop as written can mispair quotes or run forever, so it cannot be a terminating method. Those constants are modelled only by `GeneralLoop.Run`, which takes a bound on the number of passes.
- FileProcessor.Replace: requires a one-character constant, for the same reason.
- FileProcessor.RoundTrip: covers only one-character constants. A longer constant can overlap the text next to it and break the round trip even when it does not occur in the line (`WorkedLines.OverlappingConstantBreaksRoundTrip`).
- FileProcessor.QuotesPreserved: covers only one-character constants, and requires the constant not to be a single quote. A constant `'` turns double quotes into new single quotes. A longer constant shifts the quotes after it (`GeneralLoop.MispairsWithLongerConstant`).
- FileProcessor.ProcessIdempotent: covers only one-character constants other than a single quote. A longer constant can hold a double quote that the next processing replaces again: `x"` turns `'"'` into `'x"'`, and that into `'xx"'` (`WorkedLines.ProcessingTwiceWithLongerConstant`).
- GeneralLoop.Run: a result of `None` only says that the loop has not stopped within the given number of passes. Non-termination is shown by proving `None` for every bound.

## Findings

| source | as written | input that shows it | evidently intended | confidence | as-written member | corrected member |
|---|---|---|---|---|---|---|
| layerByteCode/resources/fileProcessor.py:35-37 | A constant longer than one character shifts the rest of the line to the right, but `second` keeps its old index, so the next pass pairs the wrong quotes. | `'"'"'x'` with the constant `QQ` gives `'QQ'QQ'x'`: the double quote between the two spans is replaced. | `'QQ'"'x'`: the double quote between two spans is left alone. | not executed | GeneralLoop.MispairsWithLongerConstant | FileProcessor.BetweenSpansUntouched |
| layerByteCode/resources/fileProcessor.py:31-37 | With the constant `""`, one pass doubles the double quotes of the span and leaves `second` inside the span. The next pass finds no closing quote, so `second` becomes -1 and the loop starts over on a longer span. It never finishes: the line doubles every two passes until memory runs out. | `'"'` with the constant `""` | `'""'`, after one pass over the span | not executed | GeneralLoop.NeverStopsOnOneSpan | FileProcessor.SpanRewrite |
| layerByteCode/resources/fileProcessor.py:35-37 | The empty constant shifts the rest of the line to the left, but `second` keeps its old index, so the next pass pairs the closing quote of one span with the opening quote of the next. | `'"''x'"''` with the empty constant gives `'''x'''`: the double quote between the second and the third span is deleted. | `'''x'"''`: the double quote between two spans is left alone. | not executed | GeneralLoop.MispairsWithEmptyConstant | FileProcessor.BetweenSpansUntouched |
