# Character-count recorder: a Dafny model

The recorder counts the characters of a novel kept as Markdown episode files
and logs the count to a spreadsheet. Two pieces of the system hold all of its
logic, and this project models both.

**Recording a count into a sheet.** The model covers two variants. They are
kept separate because their lookback rules differ.

- `src/helpers.ts` is driven by a `SheetConfig`. `writeRecord` picks the target
  row:
  - an hourly sheet always appends a row;
  - a daily sheet uses the first row whose date is today, or appends one
    (`findRowByDate`).

  It then writes the time (hourly only), the date and the count.
  `calculateDifference` then writes the difference column:
  - without a time column, it uses the count next to the date of the nearest
    row above whose date is not today and whose neighbour is a number;
  - with a time column, it uses the row just above, if that holds a number.
- `src/record.ts` holds `hourlyRecord` and `dailyRecord`.
  - `hourlyRecord` appends one row. It compares against the previous row's
    count cell, whatever that cell holds.
  - `dailyRecord` updates today's row or appends one, writing the date only
    when appending. It compares against the count of the nearest row above
    that holds a Date of another day. It stops at that row even when its count
    is not a number.

The sheet is `Sheets.Sheet`, a class whose `rows` field is a sequence of rows.
Each row maps a column number to a cell. A cell is empty, a number, a string,
a Date (reduced to its calendar-day key), or the unevaluated formula
`=IFERROR(cur - prev, "N/A")`. `getLastRow()` is the number of rows. Writing
row `lastRow + 1` appends a row.

Each recorder is an imperative method with the source's loops. Its
postcondition ties the new table to a pure function of the old one:
`Helpers.RecordedRows`, `Record.HourlyRows` or `Record.DailyRows`. Lemmas about
those functions then state what the source promises:
- which row is written, and that no other row changes;
- the difference rule;
- that a second daily run on the same day changes nothing;
- that a daily run never creates a second row for a day.

**Counting characters.**
- `parseMd` (`src/utils.ts`) splits a document with `/^---\n(.*?)\n---\n(.*)/s`
  into front matter and body. When the pattern does not match, it throws
  through `orThrow`.
- `requestCharCount` (`src/count-characters.ts`) sums, over all documents, the
  body length once `replace(/[\s\n]+/g, '')` has removed every whitespace code
  unit.

Text is a sequence of UTF-16 code units. `\s` is the ECMAScript WhiteSpace and
LineTerminator set. That set includes U+3000, the ideographic space, and
U+FEFF. The regular-expression replacement is modelled run by run. It is
proved equal to dropping each whitespace code unit on its own.
`requestCharCount` is a loop over the documents. It is proved equal to a fold
that stops at the first document `parseMd` rejects.

Files:
- `wrappers.dfy`: `Option`, `Result`, `Error`.
- `sheets.dfy`: cells, the table and the `Sheet` class.
- `helpers.dfy`: `src/helpers.ts`.
- `record.dfy`: `src/record.ts`.
- `utils.dfy`: `src/utils.ts`.
- `count_characters.dfy`: `src/count-characters.ts`.

Thrown errors become `Err` results carrying the source's message.

## Model

| member | source | states |
|---|---|---|
| Sheets.Put | src/helpers.ts:43-44 | writing one cell changes that cell only; writing row lastRow + 1 appends exactly one row, and every other row is untouched |
| Sheets.FirstRowOn | src/helpers.ts:59-71 | the result lies in 1..lastRow + 1; below lastRow + 1 it is a row whose date cell is a Date of the day, and no earlier row has one |
| Sheets.FirstRowOnUnique | src/helpers.ts:59-71 | those three properties determine the row found, so any search that meets them agrees with it |
| Helpers.FindRowByDate | src/helpers.ts:59-71 | the forward scan returns the first row whose date cell is a Date of the given day, or lastRow + 1 when there is none; the result lies in 1..lastRow + 1 |
| Helpers.NearestComparable | src/helpers.ts:92-104 | the daily lookback finds the nearest row at or above i whose date is not a same-day Date and whose neighbouring cell is a number; rows in between fail that test; None means no row qualifies |
| Helpers.NearestComparableUnique | src/helpers.ts:92-104 | the nearest-qualifying-row properties determine the lookback result, so the backward loop with break computes it |
| Helpers.NearestComparableFrame | src/helpers.ts:89-104 | the lookback reads only rows above the current row: two tables that agree there give the same result |
| Helpers.DifferenceFromFrame | src/helpers.ts:82-120 | the difference cell depends only on the rows above the current row and on the current row's date |
| Helpers.CalculateDifference | src/helpers.ts:82-120 | the method writes into the difference column of the current row the cell the lookback rule prescribes ("N/A" on row 1 or when no number is found, otherwise the IFERROR formula), and changes nothing else |
| Helpers.TargetRow | src/helpers.ts:30-40 | the row written to always lies in 1..lastRow + 1 |
| Helpers.WriteRecord | src/helpers.ts:19-48 | an error thrown by `requestCharCount()` passes through and a NaN count throws the source's message, both with the table untouched; otherwise the table becomes the recorded table |
| Helpers.RecordedCells | src/helpers.ts:32-47 | every cell after the run: outside the target row nothing changes; the target row holds today's date, the count, the time (hourly only) and the difference computed from the rows above it |
| Helpers.WriteRecordTouchesOnlyTarget | src/helpers.ts:32-44 | hourly mode targets lastRow + 1 and writes the time there; daily mode targets the first row of today and never writes a time cell; the target then holds today's date and the count; no other row changes |
| Helpers.WriteRecordDifference | src/helpers.ts:83-119 | the difference is "N/A" on row 1; with a time column it is the formula against the number right of the date in the row above, else "N/A"; without one it is the formula against the nearest qualifying row's number, else "N/A" |
| Helpers.DailyWriteRecordIdempotent | src/helpers.ts:39-47 | a second daily run on the same day with the same count leaves the table exactly as the first run left it |
| Helpers.DailyWriteRecordOnEmptySheet | src/helpers.ts:39-47 | the first daily run on an empty sheet records one row holding today's date, the count and "N/A", and nothing else |
| Helpers.FindRowByDateAsWritten | src/helpers.ts:59-71 | as written against the hosted sheet, the scan throws exactly when the sheet is empty (a range of zero rows is refused) and otherwise returns the first row of the day or lastRow + 1 |
| Helpers.EmptySheetScanThrows | src/helpers.ts:60-61 | on an empty sheet the scan as written throws, where the documented result is row 1 |
| Helpers.DailyWriteRecordKeepsOneRowPerDay | src/helpers.ts:39-43 | if no two rows held Dates of the same day before a daily run, none do after it |
| Record.HourlyRecord | src/record.ts:4-28 | an error thrown by `requestCharCount()` passes through and an invalid count throws the source's message, both with the table untouched; otherwise the table becomes the hourly table |
| Record.HourlyRecordAppendsOneRow | src/record.ts:15-27 | exactly one row is appended; the earlier rows are unchanged; it holds date, time and count; its difference is the formula against whatever the previous row's count cell holds, or "N/A" on row 1; its other cells are empty |
| Record.PriorDayRow | src/record.ts:65-71 | the daily lookback finds the nearest row at or above i whose date cell is a Date of another day, whatever its count holds; rows in between are not; None means no such row |
| Record.PriorDayRowUnique | src/record.ts:65-71 | the nearest-other-day properties determine the lookback result, so the backward loop with break computes it |
| Record.PriorDayRowFrame | src/record.ts:63-71 | the lookback reads only rows above the target: two tables that agree there give the same result |
| Record.DailyDifferenceFrame | src/record.ts:63-81 | the difference cell depends only on the rows above the target row |
| Record.DailyRecord | src/record.ts:30-82 | an error thrown by `requestCharCount()` passes through and an invalid count throws the source's message, both with the table untouched; otherwise the forward search, the write and the backward search leave the daily table |
| Record.DailyCells | src/record.ts:45-81 | every cell after the run: outside the target row nothing changes; the target row holds today's date, the count and the difference computed from the rows above it |
| Record.DailyRecordWrites | src/record.ts:45-60 | the target is the first row holding a Date of today, else lastRow + 1; a found row keeps its date and an appended row gets today's; the count is always overwritten; no other row changes |
| Record.DailyRecordDifference | src/record.ts:63-81 | "N/A" on row 1; otherwise the formula when the nearest other-day row's count is a number, and "N/A" when it is not or there is no such row |
| Record.DailyRecordIdempotent | src/record.ts:45-81 | a second run on the same day with the same count leaves the table exactly as the first run left it |
| Record.DailyRecordKeepsOneRowPerDay | src/record.ts:45-60 | if no two rows held Dates of the same day before the run, none do after it |
| Utils.OrThrow | src/utils.ts:5-18 | succeeds exactly when the argument is present, with the callable's result; otherwise it throws the given message or the default one |
| Utils.FirstCloseFrom | src/utils.ts:24 | the lazy group ends at the first "\n---\n" at or after the start index; None means there is none |
| Utils.FirstCloseFromUnique | src/utils.ts:24 | the first-occurrence properties determine where the lazy group ends |
| Utils.ParseMd | src/utils.ts:20-31 | a failed match throws exactly the default orThrow error and never a partial result; on success the lengths of the two fences and the two groups add up to the text's length (the reconstruction itself is `Utils.ParseMdShape`) |
| Utils.ParseMdShape | src/utils.ts:24-30 | parsing succeeds exactly when the text starts with "---\n" and "\n---\n" occurs at index 4 or later; the front matter then ends at the first such fence; fences, front matter and content concatenate back to the text |
| Utils.ParseMdRoundTrip | src/utils.ts:24-30 | when the first "\n---\n" in front matter + "\n---\n" is the appended one, parsing "---\n" + front matter + "\n---\n" + content gives back exactly that front matter and content |
| CountCharacters.RemoveWhitespace | src/count-characters.ts:23 | stripping never lengthens the text, so the count is a natural number no larger than the body |
| CountCharacters.RemoveWhitespaceContents | src/count-characters.ts:23 | no whitespace code unit survives stripping, and every other code unit occurs exactly as often as in the body |
| CountCharacters.RemoveWhitespaceKeepsClean | src/count-characters.ts:23 | text with no whitespace is left unchanged |
| CountCharacters.RemoveWhitespaceIdempotent | src/count-characters.ts:23 | stripping an already stripped body changes nothing |
| CountCharacters.RunEnd | src/count-characters.ts:23 | the greedy `+` takes the whole maximal run of whitespace starting at i |
| CountCharacters.ReplaceRunsRemovesWhitespace | src/count-characters.ts:23 | replacing each maximal whitespace run with nothing is the same as dropping each whitespace code unit |
| CountCharacters.StrippedLength | src/count-characters.ts:23 | the length after the replacement is the number of non-whitespace code units of the body |
| CountCharacters.DocumentCount | src/count-characters.ts:21-23 | a document counts exactly when parseMd accepts it, and then counts its body's non-whitespace code units; otherwise it carries parseMd's error |
| CountCharacters.FrontMatterNeverCounts | src/count-characters.ts:22-23 | a document's count depends only on its body: any front matter free of an early fence contributes nothing |
| CountCharacters.AccumulateAppend | src/count-characters.ts:19-24 | the summing loop over a concatenation combines the loops over the parts |
| CountCharacters.AccumulateFailsIff | src/count-characters.ts:19-24 | the summing loop fails exactly when some document fails, and then carries one of those errors |
| CountCharacters.AccumulateOfSuccesses | src/count-characters.ts:19-24 | when no document fails, the summing loop returns the sum of the per-document counts |
| CountCharacters.RequestCharCount | src/count-characters.ts:18-26 | the loop returns the total count: the sum of the documents' counts, or the first error a document throws |
| CountCharacters.TotalCountAppend | src/count-characters.ts:18-26 | counting a concatenation of document lists combines the two counts; the first error in document order wins |
| CountCharacters.TotalCountNext | src/count-characters.ts:20-24 | each turn of the loop adds the next document's count to the count of the documents before it |
| CountCharacters.TotalCountStopsAtError | src/count-characters.ts:20-22 | once a document has failed, later documents are never counted |
| CountCharacters.TotalCountFailsIff | src/count-characters.ts:19-25 | the count throws exactly when some document fails parseMd, and then only with the default orThrow error, never a partial sum; no documents count 0 |
| CountCharacters.CountReading | src/count-characters.ts:18-26 | what a recorder's call to `requestCharCount()` yields: never NaN; it throws exactly when some document fails parseMd, and then with the default orThrow error; otherwise it is the total count |
| CountCharacters.TotalCountIsSumOfBodies | src/count-characters.ts:18-25 | when every document parses, the count is the sum over the documents of the non-whitespace code units of each body |
| CountCharacters.TotalCountSwap | src/count-characters.ts:18-25 | the order in which the folder lists the documents does not change a successful count |

## Left out

- Drive access is not modelled. `getFilesInFolder` and `getEpisodeFiles` list a folder, and the UTF-8 decoding of each file is I/O. `CountCharacters.RequestCharCount` takes the decoded documents as a sequence of texts instead.
- Clocks and time zones are not modelled. `Utilities.formatDate`, `Session.getScriptTimeZone`, `new Date()` and `Date.toDateString()` are replaced by a calendar-day key (`Sheets.Day`) and a preformatted time string, both passed in. Both ways of comparing days in the source reduce to equality of that key.
- Sheets turning the written "yyyy/MM/dd" string into a Date is modelled by writing `DateV(now)` directly.
- `IFERROR` formulas are never evaluated: a difference cell is kept as `Diff(cur, prev)`. So a later lookback reads a difference cell as "not a number".
- `getLastRow()` is taken to be the number of rows. Trailing empty rows, and content in other columns beyond the table, are not modelled.
- `Helpers.FindRowByDate`: on an empty sheet, `src/helpers.ts:61` asks the hosted sheet for a range of zero rows, and the hosted sheet refuses it, so the daily `writeRecord` throws there before any write. The model's scan returns row 1 instead, as the function's documented result says. The behaviour as written is `Helpers.FindRowByDateAsWritten` (see "## Findings").
- JavaScript numbers are not modelled. The recorders take the outcome of their `requestCharCount()` call as a `CountCharacters.Reading`: a natural number, `NotANumber` (which the recorders' NaN guard handles; `CountCharacters.CountReading` shows `requestCharCount()` never yields it), or `Thrown` with the error a rejected document throws out of the call. Fractional and negative counts cannot occur, because the count is a sum of lengths.
- Thrown errors are not exceptions here: a throw is an `Err` result carrying the message. The stack and the `Error` object are not modelled.
- `Helpers.WriteRecord`: requires a time column in hourly mode. The source asserts it with `COL_TIME!`, and without one the hosted `getRange` call fails. That failure is not modelled.
- The constants module does not define the column constants, date formats or sheet names that `src/helpers.ts` and `src/record.ts` import. The columns become parameters: `Helpers.SheetConfig` for `src/helpers.ts` and `Record.Columns` for `src/record.ts`. The lemmas assume the columns are positive and distinct.
- `src/main.ts` (sheet lookup by name, "missing sheet" error, global registration) and `src/constants.ts` are not part of this model.
- `dev` in `src/utils.ts` only logs and is not part of this model.
- Sheets reading a row into an array (`getValues`) is modelled as reading the same cells one at a time. Concurrent edits to the sheet are not modelled.

## Findings

| source | as written | input that shows it | evidently intended | confidence | as-written member | corrected member |
|---|---|---|---|---|---|---|
| src/helpers.ts:59-71 | `getRange(1, COL_DATE, lastRow)` is requested before the scan even when `lastRow` is 0, and the hosted sheet refuses a range of zero rows, so the daily `writeRecord` throws on an empty sheet before writing anything | an empty sheet, daily mode | return `lastRow + 1` (row 1), as the function's doc comment states, and record the first day there | not executed; rests on the hosted sheet refusing zero-row ranges | Helpers.EmptySheetScanThrows | Helpers.DailyWriteRecordOnEmptySheet |
