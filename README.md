# ExcelMerger merge core in Dafny

ExcelMerger copies the first sheet of several Excel workbooks, one after
the other, into a single destination sheet. This project models the merge
core of `Main.java`:

- the source loop of `main`, which opens each source workbook in list
  order and skips one that fails with an I/O exception;
- `execSheet`, which appends one source sheet below the rows already in
  the destination;
- `execRow`, which copies the cells of one row, optionally filtered by a
  regular expression on the cell address;
- `execCell`, which copies one cell by its type.

The model has three modules:

- `Cells` (`cells.dfy`): the cell kinds and `ExecCell`.
- `Sheets` (`sheets.dfy`): rows and sheets as maps from index to
  cell or row. It also holds the library's `getLastRowNum` and
  `getLastCellNum`, and two offset rules for `execSheet`: the code's rule
  (`AsWritten`) and the corrected one (`Corrected`). `ExecSheetResult(rule,
  ...)` is what one `execSheet` call leaves in the destination under the
  given rule, and the lemmas are stated about it.
- `Merger` (`merger.dfy`):
  - `ExecRow`, a method with the column loop;
  - the class `DestinationSheet`, whose `rows` field `ExecSheet` updates
    row by row with the source-row loop;
  - the source loop `MergeWorkbooks`, specified by the fold `MergeAll`.

Each method is proved equal to its specification function. The
properties are then proved about those functions.

The behaviour of the spreadsheet library is part of the model. It is
stated here because it is not in the repository:

- `getLastRowNum` is the largest row index present, or -1 for a sheet
  without rows.
- `getLastCellNum` is one past the largest column present, or -1 for a
  row without cells.
- `createRow(k)` puts a new empty row at `k` and replaces any row that was
  there.
- `createCell` gives a blank cell with the default style.
- `setCellValue(Date)` stores the date's serial number, a plain number.
  Date formatting is part of a cell's style, and the style is not copied.
  So a date-formatted source cell arrives in the destination as a plain,
  not date-formatted, number. The model follows the code here, not the
  stated aim that dates copy as dates. The model also takes that number
  to be the one the source cell held. The library's date conversion does
  not always give that number back; "## Left out" lists the cases.

The regular-expression match and the A1-style address formatting are
parameters of the model. They are the `matches` and `address` fields of
`ColumnFilter`, next to the configured `copyColumn` pattern. Opening a
workbook and reading its first sheet is the parameter `readFirstSheet`,
which returns `None` where the code catches an `IOException`.

## Model

The code's offset rule at `Main.java:112` can overwrite a row (see
"## Findings"). `DestinationSheet.ExecSheet`, `MergeWorkbooks` and the
fold `MergeAll` take the offset rule as a parameter. With `AsWritten` they
are the code as written, using `Sheets.AsWrittenOffset`. With `Corrected`
they use `Sheets.Offset`. Each lemma states which rules it holds for, and
under what condition for the code's rule.

| member | source | states |
|---|---|---|
| Cells.ExecCell | src/main/java/com/tanakahda/Main.java:156-183 | a typed source cell is written into the destination cell with its kind and payload kept; a numeric source arrives with its number but is no longer date-formatted, since no style is copied; an untyped source leaves the destination cell as it was |
| Cells.ExecCellIdempotent | src/main/java/com/tanakahda/Main.java:140-145 | copying the copy of a cell into another newly created cell gives the same cell again |
| Cells.CopyIntoFreshCell | src/main/java/com/tanakahda/Main.java:140-145 | a cell created and then filled holds the source in the default style, or is blank for an untyped source; it is never untyped |
| Sheets.LastKey | src/main/java/com/tanakahda/Main.java:112 | the last index of a map is -1 exactly for the empty map; otherwise it is present and no index is larger |
| Sheets.LastRowNum | src/main/java/com/tanakahda/Main.java:112-116 | the last row number is -1 exactly for a sheet without rows, otherwise the largest row index present |
| Sheets.LastCellNum | src/main/java/com/tanakahda/Main.java:131 | the last cell number is -1 exactly for a row without cells; every column present is below it and the column just below it is present |
| Sheets.AsWrittenOffset | src/main/java/com/tanakahda/Main.java:112 | the offset as written is 0 exactly when the destination is empty or holds only row 0; a positive offset lies above every destination row, with the row just below it present |
| Sheets.AsWrittenOffsetRule | src/main/java/com/tanakahda/Main.java:111-112 | a positive offset as written equals the corrected offset; the two differ exactly when the destination holds only row 0 |
| Sheets.Offset | src/main/java/com/tanakahda/Main.java:111-112 | the corrected offset is above every destination row, is 0 exactly for an empty destination, and is the least such index, since the row just below it is present |
| Sheets.CopiedCellsFilter | src/main/java/com/tanakahda/Main.java:133-146 | with an empty pattern every cell of the row is copied; otherwise exactly the cells whose source address matches; each copied cell is the source cell in the default style, or blank for an untyped one |
| Sheets.AppendPlacement | src/main/java/com/tanakahda/Main.java:116-121 | after an append at `off`, row `k` exists iff it existed before or source row `k - off` exists; it holds the copy of source row `k - off` when that exists, and its old contents otherwise; gaps between source rows are kept |
| Sheets.RowLandsAtOffset | src/main/java/com/tanakahda/Main.java:119-120 | source row `i` lands at destination row `off + i`, holding the copy of that row |
| Sheets.ExecSheetKeepsRows | src/main/java/com/tanakahda/Main.java:111-121 | `execSheet` keeps every destination row unchanged, every new row lies past the old last row, and the last row number does not drop; with the corrected offset always, and as written whenever the destination is empty or its last row number is positive |
| Sheets.ExecSheetKeepsAppendSafe | src/main/java/com/tanakahda/Main.java:111-121 | as written, `execSheet` into a sheet that is empty or has a positive last row number leaves such a sheet, unless the source's only row is row 0 |
| Sheets.ExecSheetRowCount | src/main/java/com/tanakahda/Main.java:109-123 | with the corrected offset, after `execSheet` the destination has exactly its old row count plus the source's |
| Sheets.PlacedRowsSize | src/main/java/com/tanakahda/Main.java:116-121 | one `execSheet` call writes exactly one destination row per source row |
| Sheets.UnionSize | src/main/java/com/tanakahda/Main.java:119 | writing rows over a sheet gives both row counts less the row indices they share |
| Sheets.LoneRowZeroIsReplaced | src/main/java/com/tanakahda/Main.java:112-120 | as written, when the destination holds only row 0 and the source has a row 0, the offset is 0 and destination row 0 becomes the copy of source row 0 |
| Sheets.LoneRowZeroIsLost | src/main/java/com/tanakahda/Main.java:112-120 | as written, a concrete sheet holding only row 0, appended with another such sheet, ends with only the second sheet's row |
| Sheets.AsWrittenRowCount | src/main/java/com/tanakahda/Main.java:109-123 | as written, the destination gains one row per source row, less one exactly when a lone destination row 0 meets a source row 0 |
| Merger.ExecRow | src/main/java/com/tanakahda/Main.java:130-149 | the row after the column loop is the destination row overwritten by exactly the selected source cells, each at its own column and copied by `execCell` |
| Merger.PartlyAppendedEntries | src/main/java/com/tanakahda/Main.java:116-121 | after the loop has handled the source rows below `i`, row `k` is present iff it was there before or comes from one of those rows; those rows hold their copies and all others are unchanged |
| Merger.PartlyAppendedDone | src/main/java/com/tanakahda/Main.java:116-122 | once the loop has passed the last source row, the sheet is the declarative append of the whole source |
| Merger.DestinationSheet.constructor | src/main/java/com/tanakahda/Main.java:47-48 | a new destination sheet has no rows |
| Merger.DestinationSheet.ExecSheet | src/main/java/com/tanakahda/Main.java:109-123 | the sheet after the source-row loop is the declarative append of the source at the offset the given rule computes from the old last row number |
| Merger.MergeWorkbooks | src/main/java/com/tanakahda/Main.java:47-67 | the destination after the source loop is a fresh sheet folded with `execSheet`, under the given offset rule, over the readable sources in list order |
| Merger.MergeAllConcat | src/main/java/com/tanakahda/Main.java:56-67 | merging two lists of sources one after the other is the same as merging their concatenation |
| Merger.UnreadableSourceIsSkipped | src/main/java/com/tanakahda/Main.java:56-67 | a source that fails to open or read leaves the result as if it were absent from the list, and the sources after it are still merged |
| Merger.SourcesInListOrder | src/main/java/com/tanakahda/Main.java:56-61 | the first source in the list is appended before all the others |
| Merger.RowCountIsSum | src/main/java/com/tanakahda/Main.java:56-67 | the row count after the source loop is the start count plus the row counts of all readable sources: with the corrected offset always; as written when the destination starts empty or with a positive last row number and no readable source's sheet holds only row 0, and then the destination stays that way |
| Merger.MergeKeepsRows | src/main/java/com/tanakahda/Main.java:56-67 | every row present before the source loop is still present, unchanged, after it, and the last row number does not drop: with the corrected offset always, and as written when the destination starts empty or with a positive last row number |
| Merger.LoneRowZeroSourcesCollapse | src/main/java/com/tanakahda/Main.java:56-67 | as written (the offset rule of line 112), two readable sources whose sheets each hold only row 0, merged into the fresh destination, leave one row although they hold two; with the corrected offset both rows arrive |

## Left out

- Reading the YAML configuration (`getConfig`, `Config`) is not modelled. The source paths and the column pattern are parameters. A missing configuration, where `getConfig` returns null, is not modelled either.
- File I/O is left out: opening the source files, creating, writing and closing the destination workbook, and printing and logging. Opening and reading one source is the parameter `readFirstSheet`.
- An `IOException` from `srcWorkbook.close()` is not modelled. It is raised after `execSheet` has already appended the rows. The model treats a source as either read in full or skipped.
- Exceptions other than `IOException` are left out, since they end the program. These include `getSheetAt(0)` on a workbook without sheets, `createRow` past the format's row limit, and an invalid regular expression.
- The regular-expression engine and A1 address formatting are left out and taken as parameters (`ColumnFilter.matches`, `ColumnFilter.address`).
- Numeric values are kept as opaque 64-bit patterns. Floating point is left out; the line for `Cells.ExecCell` below says what that leaves out for dates.
- Cell styles are not modelled apart from date formatting, because the code copies no style. A formula cell's cached value is not modelled for the same reason: only the formula text is copied.
- Rows are modelled as values, not as row objects holding references. The code only fills the row it has just created, so no aliasing is visible.
- Cells.ExecCell: takes a date-formatted cell's number to come back unchanged through `getDateCellValue` and `setCellValue(Date)`. The library's conversion can change it: under the 1904 date system the number written back is 1462 days off; a local time that falls in a daylight-saving gap is moved by an hour; and the time is rounded to milliseconds. Floating point and time zones are not modelled.
- Cells.ExecCell: is stated for any destination cell, and its setters replace whatever the cell held. The library does not do that for a formula cell, whose setters only change the cached result and keep the formula. The code calls `execCell` only on a cell it has just created (`Main.java:140`, `Main.java:144`), so only `Cells.CopyIntoFreshCell` and `Cells.ExecCellIdempotent`, both about a new cell, are claimed for the code.
- Merger.RowCountIsSum: under the code's rule it is proved only when no readable source's sheet holds only row 0. Such a source can also be harmless, when the destination already has a positive last row number. The exact per-call count is `Sheets.AsWrittenRowCount`, and `Merger.LoneRowZeroSourcesCollapse` shows the loss end to end.
- Sheets.ExecSheetKeepsRows: under the code's rule it is not stated for a destination holding only row 0. There the row is kept only when the source has no row 0; `Sheets.LoneRowZeroIsReplaced` states what happens when it has one.
- Merger.MergeKeepsRows: under the code's rule it is not stated for a destination that starts with only row 0, for the same reason as `Sheets.ExecSheetKeepsRows`.

## Findings

The offset rule at `Main.java:112` appends at 0 whenever the last row number is not positive. That happens both when the destination is empty (last row number -1) and when it holds only row 0 (last row number 0). The comment beside the rule says it exists to avoid overwriting the last row, yet in the second case it does overwrite row 0. So the destination's row count is then not the sum of the source row counts, as `Sheets.AsWrittenRowCount` shows for one call, `Sheets.LoneRowZeroIsLost` on a concrete sheet, and `Merger.LoneRowZeroSourcesCollapse` for the whole source loop. With the corrected offset the count is always the sum (`Sheets.ExecSheetRowCount`, `Merger.RowCountIsSum`).

| source | as written | input that shows it | evidently intended | confidence | as-written member | corrected member |
|---|---|---|---|---|---|---|
| src/main/java/com/tanakahda/Main.java:112 | offset is `getLastRowNum() + 1` only when `getLastRowNum() > 0`, else 0 | a destination holding only row 0, then a source sheet with a row 0: the source's row 0 replaces the destination's | offset `getLastRowNum() + 1` in every case (0 for an empty sheet), so existing rows are never overwritten | not executed | Merger.LoneRowZeroSourcesCollapse | Merger.RowCountIsSum |
