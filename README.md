# Excel to JSON converter: the DataSheet core

This project models the part of `scripts/excel_to_json.rb` that turns one worksheet into
records keyed by id. It covers:

- the `DataSheet` class:
  - locating the `column_name`, `data_type` and `data_start` tag rows in column 1;
  - reading the column map, which gives each column's name and type tag;
  - coercing each cell by its column's type tag;
  - building one record per row;
  - collecting the rows into a map keyed by their `id` field, with the run-out heuristics
    that end the column scan and the row scan;
- the selection of data sheets by name in `Excel#each_data_sheets`.

The model is split into these modules:

- `Cells`: cells, values, errors, the sparse grid and the five bounds of the converter.
- `Numbers`: the integer conversions the coercion uses (`Float#to_i`, `Integer#to_s`,
  `String#to_i`).
- `Coerce`: `convert`.
- `Schema`: `tag_row`, `column_meta_data` and `columns` as functions.
- `Extract`: `row` and `rows` as functions.
- `Sheet`: the `DataSheet` class itself. Its memoized fields (`||=`) are `Option` fields. Its
  loop methods are each proved to return what the Schema and Extract functions describe.
  Every cache that is filled holds what recomputing it would give, and a filled cache never
  changes.
- `Workbook`: the sheet-name filter, and the isolation of the sheets from one another.
- `Scenarios`: a worked header layout and three worked sheets.

Each scan function also returns the last row or column the scan examined. The frame lemmas
use it to show that no cell beyond that point influences the result.

Four behaviours of the code a reader may not expect, all modelled as the code has them:

- `intstring` applied to a non-numeric String does not fail. It gives `"0"`, the `to_i` of
  such a string; a String with a leading number gives that number.
- The `datetime` check bounds the leading digit of the month, day, hour, minute and second
  fields, but not the pair; `2023-19-39 29:59:59` passes.
- Both regular expressions (the sheet-name filter and the `datetime` check) are anchored
  with `^` and `$`, which in Ruby match at line breaks: a value passes when one of its lines
  matches, and the `datetime` value returned is the whole cell text.
- The tag rows are looked up lazily:
  - `data_type` is looked up only when a named column is met, so a sheet without named
    columns needs no `data_type` tag;
  - the column map is read only when the first data row is read, so a data start row beyond
    the last available row gives an empty map even without a `column_name` tag.

Raising an exception is modelled as an `Err` result naming the failure. A header or type cell
that is not a String (a number) has no `length`: the model reports it as `HeaderNotText`.

## Model

| member | source | states |
|---|---|---|
| Numbers.Trunc | scripts/excel_to_json.rb:96 | `Float#to_i` truncates toward zero: the result is within one of the float, on the side of zero |
| Numbers.NatToDecimal | scripts/excel_to_json.rb:96 | The decimal rendering is non-empty, all digits, with no leading zero |
| Numbers.DigitPrefix | scripts/excel_to_json.rb:96 | The digits `to_i` reads are the longest all-digit prefix of the string |
| Numbers.DigitPrefixOfDigits | scripts/excel_to_json.rb:96 | An all-digit string is read in full |
| Numbers.DigitsValueOfDecimal | scripts/excel_to_json.rb:96 | Reading the digits of a natural number gives that number back |
| Numbers.LeadingIntOfDecimal | scripts/excel_to_json.rb:96 | `n.to_s.to_i == n` for every integer, negatives included |
| Numbers.IntToDecimal | scripts/excel_to_json.rb:96 | `Integer#to_s`: a leading '-' exactly for negative numbers, then a non-empty run of digits with no leading zero; `LeadingIntOfDecimal` reads it back |
| Numbers.LeadingInt | scripts/excel_to_json.rb:96 | `String#to_i`, an optional sign, then a skipped `0d`/`0D` radix prefix and the longest digit prefix; its contract is carried by `LeadingIntOfDecimal`, `LeadingIntRadixPrefix`, `LeadingIntOfNonNumeric` and `DigitPrefix` |
| Numbers.LeadingIntRadixPrefix | scripts/excel_to_json.rb:96 | A `0d`/`0D` prefix after the sign is skipped: "0d12" reads as 12, "-0D5" as -5, "+0d7x" as 7; "0d", "0dx" and "0x12" read as 0 |
| Numbers.LeadingIntOfNonNumeric | scripts/excel_to_json.rb:96 | A string starting with neither a sign nor a digit reads as 0 |
| Coerce.ToI | scripts/excel_to_json.rb:96-105 | `to_i` of a non-empty cell: `LeadingInt` of a String, the Integer itself, `Trunc` of a Float; its contract is carried by `IntstringOfInt`, `IntstringOfFloat` and `NumericTags` |
| Coerce.Convert | scripts/excel_to_json.rb:85-113 | `convert(value, type)`; its contract is carried by `NilNeverFails`, `ConvertFailure` (against the independent `Accepts` table) and the lemmas below |
| Coerce.NilNeverFails | scripts/excel_to_json.rb:86-92 | An empty cell gives "" under `string` and nil under every other tag, known or unknown; it never fails |
| Coerce.DateTimePatternShape | scripts/excel_to_json.rb:107 | The datetime pattern matches a whole line exactly when the line is a 19-character string of shape `20dd-[01]d-[0-3]d [0-2]d:[0-5]d:[0-5]d` (both directions) |
| Coerce.DateTimeLines | scripts/excel_to_json.rb:107 | Some line of a cell matches the datetime pattern iff some whole line of it is a timestamp of the spelt-out shape |
| Coerce.ConvertFailure | scripts/excel_to_json.rb:94-112 | A non-empty cell fails with UnsupportedType iff its tag is outside the six known tags; it fails with InvalidValue iff the tag is known and refuses the cell's shape; otherwise it converts |
| Coerce.IntstringOfInt | scripts/excel_to_json.rb:95-96 | `intstring` of an Integer cell is its canonical decimal rendering, which reads back as that integer |
| Coerce.IntstringOfFloat | scripts/excel_to_json.rb:95-96 | `intstring` of a Float cell is the canonical decimal rendering of its truncation toward zero, which is within one of the float |
| Coerce.NumericTags | scripts/excel_to_json.rb:99-105 | `int` gives the truncation of a numeric cell; `bool` gives whether that truncation is non-zero |
| Coerce.UnchangedTags | scripts/excel_to_json.rb:97-102 | `string` returns a String cell unchanged and `float` a Float cell unchanged; `float` refuses every Integer cell |
| Coerce.ConvertExamples | scripts/excel_to_json.rb:95-96 | Under `intstring`, 3.0 gives "3", -42.9 gives "-42", "abc" gives "0" and "12ab" gives "12" |
| Coerce.OtherTagExamples | scripts/excel_to_json.rb:85-113 | nil gives "" or nil; an unknown tag is refused for a value but not for nil; "7" is invalid for `int`; 0.5 is false for `bool` |
| Coerce.DateTimeAccepted | scripts/excel_to_json.rb:106-107 | A well-formed timestamp is returned unchanged, and so is a cell holding one on its second line |
| Coerce.DateTimeRefused | scripts/excel_to_json.rb:106-112 | Day 99, year 1999, a timestamp followed by text on its line, and an Integer cell are each refused with InvalidValue |
| Coerce.DateTimeIsShapeOnly | scripts/excel_to_json.rb:107 | Month 19, day 39 and hour 29 are accepted: only the leading digit of each field is bounded |
| Schema.FindTag | scripts/excel_to_json.rb:153-158 | The search from row `i` on; its contract is carried by `FindTagIsFirst` and `FindTagFrame` |
| Schema.TagRow | scripts/excel_to_json.rb:153-158 | `tag_row(tag)`; its contract is carried by `TagRowIsFirst` and `TagRowOfFirst` |
| Schema.FindTagIsFirst | scripts/excel_to_json.rb:153-158 | When no earlier row holds the tag, the search returns the first tag row at or after its start, or reports that none is in the window |
| Schema.TagRowIsFirst | scripts/excel_to_json.rb:153-158 | `tag_row` returns the first row within rows 1..100 whose column-1 cell is the tag; when there is none it fails with TagNotFound naming that tag |
| Schema.TagRowOfFirst | scripts/excel_to_json.rb:153-158 | Conversely, the first tag row in the window is what `tag_row` returns |
| Schema.FindTagFrame | scripts/excel_to_json.rb:155 | The tag search looks only at column 1 |
| Schema.ColumnMeta | scripts/excel_to_json.rb:131-139 | `column_meta_data(col)`; its contract is carried by `ColumnMetaNamed`, `ColumnMetaUntyped`, `ColumnMetaUnnamed` and `ColumnMetaFrame` |
| Schema.ColumnMetaNamed | scripts/excel_to_json.rb:131-139 | A declared column carries its own index, the non-empty String on the name row and the non-empty String on the type row |
| Schema.ColumnMetaUntyped | scripts/excel_to_json.rb:135-136 | A named column whose type cell is empty or "" fails with MissingType for that name |
| Schema.ColumnMetaUnnamed | scripts/excel_to_json.rb:132-133 | A column whose name cell is empty or "" is undeclared, whatever its type cell holds |
| Schema.ColumnScan | scripts/excel_to_json.rb:115-129 | The column loop from column `i` with a counter and the columns so far; its contract is carried by `ColumnScanEnd`, `ColumnScanOk`, `ColumnScanAscending`, `ColumnScanEndsOnRun` and `ColumnScanNoEarlierRun` |
| Schema.Columns | scripts/excel_to_json.rb:115-129 | `columns`; its contract is carried by `ColumnsWellFormed`, `ColumnsRejectUntyped`, `ColumnsStopOnRun` and `ColumnsStopAfterLast` |
| Schema.LastColumn | scripts/excel_to_json.rb:119-124 | The last column `columns` examines; `ColumnsStopOnRun` places it at the end of the first run of unnamed columns |
| Schema.ColumnScanEnd | scripts/excel_to_json.rb:115-129 | Where the column scan ends, and that a failed scan fails on the last column it examined |
| Schema.ColumnScanOk | scripts/excel_to_json.rb:115-129 | A successful scan returns the accumulated columns plus exactly the declared columns between its start and where it ended |
| Schema.ColumnScanAscending | scripts/excel_to_json.rb:119-121 | The columns come in strictly ascending order of index |
| Schema.ColumnsWellFormed | scripts/excel_to_json.rb:115-139 | The column map holds, in ascending index order, every declared column from 2 to the last column examined and no other; every stored name and type is non-empty; the scan stays within column 100 |
| Schema.ColumnsRejectUntyped | scripts/excel_to_json.rb:136 | A named but untyped column within the scanned range makes the column map fail |
| Schema.ColumnBlankRun | scripts/excel_to_json.rb:123-124 | A run of undeclared columns that reaches the quitting count ends the scan at the end of that run |
| Schema.ColumnScanStops | scripts/excel_to_json.rb:120-124 | From a declared column, `quittingColumns` (10 by default) undeclared columns stop the scan that many columns further on |
| Schema.ColumnScanEndsOnRun | scripts/excel_to_json.rb:119-125 | A successful scan that stops before the last available column stops on `quittingColumns` unnamed columns ending at its last column |
| Schema.ColumnScanNoEarlierRun | scripts/excel_to_json.rb:119-125 | No run of `quittingColumns` unnamed columns lies wholly before the last column a scan examines |
| Schema.ColumnsStopOnRun | scripts/excel_to_json.rb:115-129 | `columns` ends at the end of the first run of `quittingColumns` (10 by default) unnamed columns from column 2, or at the last available column (100 by default) |
| Schema.ColumnsStopAfterLast | scripts/excel_to_json.rb:115-129 | With no such run before named column `k` and `quittingColumns` (10 by default) unnamed columns after it, `columns` ends with column `k` and examines up to column `k + quittingColumns` |
| Schema.ColumnMetaFrame | scripts/excel_to_json.rb:131-139 | Reading column metadata looks at no later column |
| Schema.ColumnScanFrame | scripts/excel_to_json.rb:115-129 | The column scan depends only on the columns up to the last one it examined |
| Schema.ColumnsFrame | scripts/excel_to_json.rb:115-129 | Two sheets alike up to the last examined column have the same column map |
| Extract.Field | scripts/excel_to_json.rb:74-75 | The coerced value of one column in one row, `convert(cell, type)`; its contract is carried by the `Coerce` lemmas above and by `BuildRecordOk` and `BuildRecordFirstError` |
| Extract.IdOf | scripts/excel_to_json.rb:57 | `row['id']`, nil when the record has no `id` field; its contract is carried by `ExtractRowsKeyed`, `ExtractRowsRejectNilId` and `ScanRowsOk` |
| Extract.BuildRecord | scripts/excel_to_json.rb:71-77 | The record of a row, column by column; its contract is carried by `BuildRecordOk`, `BuildRecordFirstError`, `BuildRecordFields` and `BuildRecordFrame` |
| Extract.RowAt | scripts/excel_to_json.rb:71-83 | `row(r)` given the columns; its contract is carried by `RowAbsentIff`, `RowAbsentDistinct` and `RowAtError` |
| Extract.BuildRecordOk | scripts/excel_to_json.rb:71-76 | A record is built exactly when every column converts |
| Extract.BuildRecordFirstError | scripts/excel_to_json.rb:73-75 | A failed record reports the error of the first column, in column order, that does not convert |
| Extract.BuildRecordFields | scripts/excel_to_json.rb:72-76 | The record's keys are exactly the column names, and each holds the value of the last column of that name |
| Extract.LastIndexOfName | scripts/excel_to_json.rb:75 | Every column name has a last column carrying it, at or after any column of that name |
| Extract.RowAbsentIff | scripts/excel_to_json.rb:78-82 | A row whose columns convert is absent iff every kept field is nil or "" |
| Extract.RowAbsentDistinct | scripts/excel_to_json.rb:78-82 | With distinct column names, a row is absent iff every column converts to nil or "" |
| Extract.NoColumnsNoRows | scripts/excel_to_json.rb:78-80 | With no columns every row is absent |
| Extract.DuplicateNameHidesData | scripts/excel_to_json.rb:75-78 | A later column of one name overwrites an earlier one: a nil there makes a row with text in it absent |
| Extract.RowAtError | scripts/excel_to_json.rb:73-75 | A row fails only by a failed conversion: an unsupported type tag or a refused value |
| Extract.BuildRecordFrame | scripts/excel_to_json.rb:74 | Reading a row looks at no other row |
| Extract.SheetRow | scripts/excel_to_json.rb:71-83 | `row(r)` as the sheet runs it, the `columns` call included: a column-map error, or `RowAt` over the column map; it is the contract of `DataSheet.Row`, and `RowAbsentIff` and `NoColumnsNoRows` carry its absence rule |
| Extract.ScanRows | scripts/excel_to_json.rb:55-66 | The row loop from row `i` with a counter and the rows so far; its contract is carried by `ScanRowsEnd`, `ScanRowsFirstOffender`, `ScanRowsOk`, `ScanRowsNewKeys`, `ScanRowsKeyed`, `ScanRowsEndsOnRun` and `ScanRowsNoEarlierRun` |
| Extract.ExtractRows | scripts/excel_to_json.rb:52-68 | `rows`; its contract is carried by the `ExtractRows` lemmas (`ExtractRowsFailsFirst` for failures), `RowsStopAfterLast` and `DefaultScanStopsAt70` |
| Extract.ScanRowsEnd | scripts/excel_to_json.rb:55-66 | Where the row scan ends, and that a failed scan fails on its last examined row: a conversion error, a nil id, or an id already taken before the scan or by an earlier examined row |
| Extract.ScanRowsFirstOffender | scripts/excel_to_json.rb:55-66 | Every row a scan examines before its last one converts, and when present has a non-nil id taken neither before the scan nor by an earlier examined row: a failed scan stops at its first offending row |
| Extract.ScanRowsOk | scripts/excel_to_json.rb:55-67 | A successful scan keeps the accumulated rows, and every present row it examined is stored under its id, which is non-nil and new |
| Extract.ScanRowsNewKeys | scripts/excel_to_json.rb:55-67 | Every key a successful scan adds comes from a present row it examined |
| Extract.ScanRowsKeyed | scripts/excel_to_json.rb:57-61 | Starting from a map keyed by ids, the scan ends with one: each key is a non-nil id equal to its record's `id`, and the record is present |
| Extract.ScanRowsRejectsTaken | scripts/excel_to_json.rb:59 | A row examined later whose id is already taken makes the scan fail |
| Extract.ScanRowsRejectsDuplicate | scripts/excel_to_json.rb:59 | Two examined present rows with the same id make the scan fail |
| Extract.RowBlankRun | scripts/excel_to_json.rb:63-64 | A run of absent rows reaching the quitting count ends the scan at the end of the run, with the rows collected so far |
| Extract.ScanRowsStops | scripts/excel_to_json.rb:56-64 | From a present row with a new id, `quittingRows` (50 by default) absent rows end the scan that many rows later with that row stored last |
| Extract.DefaultScanStopsAt70 | scripts/excel_to_json.rb:37-68 | With the default bounds and the data start row at or before row 20, data ending on row 20 makes row 70 the last row `rows` examines, and row 20 is stored |
| Extract.ScanRowsEndsOnRun | scripts/excel_to_json.rb:63-64 | A successful scan that stops before the last available row stops on `quittingRows` absent rows ending at its last row |
| Extract.ScanRowsNoEarlierRun | scripts/excel_to_json.rb:55-66 | No run of `quittingRows` absent rows lies wholly before the last row a scan examines |
| Extract.ExtractRowsStopOnRun | scripts/excel_to_json.rb:52-68 | `rows` ends at the end of the first run of `quittingRows` (50 by default) absent rows from the data start row, or at the last available row |
| Extract.RowsStopAfterLast | scripts/excel_to_json.rb:52-68 | With no such run before present row `k` and `quittingRows` (50 by default) absent rows after it, `rows` stores row `k` and examines up to row `k + quittingRows` |
| Extract.ScanRowsFrame | scripts/excel_to_json.rb:55-66 | The row scan depends only on the rows up to the last one it examined |
| Extract.ExtractRowsKeyed | scripts/excel_to_json.rb:52-68 | Every key of a `rows` result is a non-nil id, and its record is a present row with that id |
| Extract.ExtractRowsComplete | scripts/excel_to_json.rb:52-68 | The `rows` result holds every present row examined from the data start row on, under its id; each entry is the row at some examined row |
| Extract.ExtractRowsRejectNilId | scripts/excel_to_json.rb:58 | A present row with a nil id, once examined, makes `rows` fail |
| Extract.ExtractRowsRejectDuplicate | scripts/excel_to_json.rb:59 | Two examined present rows with one id make `rows` fail, returning no map |
| Extract.ExtractRowsFailsFirst | scripts/excel_to_json.rb:52-68 | Once the data start row and the column map are found, a failed `rows` reports the error of its first offending row: the last examined row fails with that error (a conversion error, a nil id, or an id taken by an earlier row), and every earlier examined row passes |
| Extract.ExtractRowsUniqueIds | scripts/excel_to_json.rb:59 | Conversely, when the examined present rows have distinct ids, `rows` never fails with DuplicateId |
| Sheet.DataSheet.constructor | scripts/excel_to_json.rb:43-46 | A new sheet holds its name and cells, and nothing is cached |
| Sheet.DataSheet.TagRow | scripts/excel_to_json.rb:153-158 | The search loop returns the first tag row in the window, or TagNotFound |
| Sheet.DataSheet.ColumnNameRow | scripts/excel_to_json.rb:141-143 | The cached `column_name` row is the tag row; it is filled on the first success and is never recomputed |
| Sheet.DataSheet.DataTypeRow | scripts/excel_to_json.rb:145-147 | The cached `data_type` row is the tag row; it is filled on the first success |
| Sheet.DataSheet.DataStartRow | scripts/excel_to_json.rb:149-151 | The cached `data_start` row is the tag row; it is filled on the first success |
| Sheet.DataSheet.ColumnMetaData | scripts/excel_to_json.rb:131-139 | The method's answer is the column metadata; on success the `column_name` row is cached, and for a named column the `data_type` row too; caches already filled are kept |
| Sheet.DataSheet.Columns | scripts/excel_to_json.rb:115-129 | The scanning loop returns the column map; it is cached on success, and a filled cache is returned unchanged |
| Sheet.DataSheet.Row | scripts/excel_to_json.rb:71-83 | The loop over the columns returns the row's record, or nothing for an absent row, or the first conversion error |
| Sheet.DataSheet.Rows | scripts/excel_to_json.rb:52-68 | The loop over the rows returns the `rows` result, satisfying the Extract lemmas above; on success the data start row is cached, and every cache stays consistent |
| Sheet.BuildRecordKeepsError | scripts/excel_to_json.rb:73-75 | Once a prefix of the columns fails, the whole row fails with that error |
| Workbook.IsDataSheetName | scripts/excel_to_json.rb:30 | The name test; `DataSheetNameOneLine` ties it to the plain word-name test for names without line feeds |
| Workbook.DataSheetNames | scripts/excel_to_json.rb:30 | The `select`; its contract is carried by `DataSheetNamesMembers`, `DataSheetNamesCount` and `DataSheetNamesConcat` |
| Workbook.DataSheetNameOneLine | scripts/excel_to_json.rb:30 | A name without line feeds is selected iff it is a non-empty run of letters, digits and underscores |
| Workbook.DataSheetNamesMembers | scripts/excel_to_json.rb:30 | A name is selected iff it is a sheet name matching `^[A-Za-z0-9_]+$`, that is, one of its lines is a word name |
| Workbook.DataSheetNamesCount | scripts/excel_to_json.rb:30 | Selection keeps each matching name as often as it occurs, and no other name |
| Workbook.DataSheetNamesConcat | scripts/excel_to_json.rb:30 | Selection keeps workbook order: it commutes with concatenation |
| Workbook.DataSheetNamesExample | scripts/excel_to_json.rb:30 | "Notes!", "" and "a b" are skipped; "Items" and "shop_2" are kept, in order |
| Workbook.DataSheetNamesMultiLine | scripts/excel_to_json.rb:30 | "Notes!\nItems" and "Items\n" are kept because one line of each is a word name; "a b\nc d" is skipped |
| Workbook.ConvertBook | scripts/excel_to_json.rb:182-200 | Each selected sheet with its own outcome; its contract is carried by `SheetIsolation` |
| Workbook.SheetIsolation | scripts/excel_to_json.rb:182-200 | There is one outcome per selected sheet, in order; changing one sheet's cells leaves every other sheet's outcome unchanged |
| Scenarios.HeaderTagRows | scripts/excel_to_json.rb:141-158 | Tags on rows 5, 6 and 8 of column 1 are found there |
| Scenarios.HeaderSchema | scripts/excel_to_json.rb:115-139 | Headers `id`/`int` and `name`/`string` in columns 2 and 3 give exactly those two columns, and column 13 is the last examined |
| Scenarios.HeaderLaidOut | scripts/excel_to_json.rb:132-135 | The three worked sheets share the header layout |
| Scenarios.HeaderCells | scripts/excel_to_json.rb:132-135 | The header layout holds exactly the tag, name and type cells it is built from |
| Scenarios.OneRowBlankBelow | scripts/excel_to_json.rb:74 | The well-formed sheet has no data below row 8 |
| Scenarios.RecordOf | scripts/excel_to_json.rb:71-76 | Under that schema a record is the `id` and `name` fields of the row |
| Scenarios.EmptyRowAbsent | scripts/excel_to_json.rb:78-80 | An empty row is absent, although its `name` field is "" |
| Scenarios.OneRowExtracted | scripts/excel_to_json.rb:52-68 | A sheet with one data row yields that record under id 7, and row 58 is the last examined |
| Scenarios.RepeatedIdRejected | scripts/excel_to_json.rb:59 | A second row with id 7 makes the sheet fail with DuplicateId(7) |
| Scenarios.MissingIdRejected | scripts/excel_to_json.rb:58 | A row with a name and no id makes the sheet fail with NilId |
| Scenarios.TwoSheetWorkbook | scripts/excel_to_json.rb:30 | In a workbook the notes sheet is skipped; sheet A keeps its records and sheet B alone reports its failure |

## Left out

- Reading the workbook file (Roo) is not modelled. A sheet is given as its grid of cells.
- The grid holds the four cell shapes the converter distinguishes. Date, Time and Boolean
  cells are not modelled.
- The command line, environment, directories and the `FilterList` class are not modelled:
  they are file-system I/O, and the filter list is never consulted.
- Writing the JSON, the PHP encoder call, the MD5 digest and the console output are not
  modelled: they are I/O. The encoder call interpolates `php`, which is never defined, so as
  written every sheet lands in the rescue branch. The model stops at the per-sheet result;
  the rescue is modelled only as the isolation of sheets in `Workbook.ConvertBook`.
- Floats are real numbers. IEEE rounding, NaN and infinities are not modelled.
- Numbers.LeadingInt: `String#to_i`'s skipping of leading whitespace and of underscores
  between digits is not modelled.
- Cells.IsLine: a line ends at a line feed only; Ruby's `$` does not treat a carriage
  return as a line end either, so "\r\n" line endings leave the "\r" on the line.
- Extract.ExtractRowsStopOnRun, Extract.RowsStopAfterLast, Schema.ColumnsStopOnRun,
  Schema.ColumnsStopAfterLast: stated for quitting counts of at least 1 (and at least two
  available columns); the code's counts are 50 and 10 and its column bound is 100.
- A non-String cell under `datetime` is modelled as InvalidValue. That is what Ruby before
  3.2 raises; from 3.2, `Object#=~` is gone and the error is NoMethodError instead.
- Records and the id map are Dafny maps: the insertion order of Ruby hashes, which fixes the
  key order of the JSON output, is not modelled.
- Error messages are modelled as `Error` values naming the failure and its data, not as the
  message text.
