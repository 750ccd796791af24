/**
 * The merger proper: `execRow` (copy the cells of one row), `execSheet`
 * (append one source sheet to the destination sheet, which it updates in
 * place) and the loop of `main` that folds `execSheet` over the source
 * files in order, skipping a source that cannot be opened or read.
 */
module Merger {
  import opened Cells
  import opened Sheets

  datatype Option<T> = None | Some(value: T)

  /**
   * execRow: walks the columns of `srcRow` from 0 up to its last cell
   * number, skips columns without a cell, and, when the cell passes the
   * column filter (tested on the address of the SOURCE cell, in source row
   * `srcRowIdx`), creates the cell at the same column of `destRow` and
   * copies the source cell into it.
   */
  method ExecRow(f: ColumnFilter, destRow: Row, srcRowIdx: nat, srcRow: Row) returns (r: Row)
    ensures r == destRow + CopiedCells(f, srcRowIdx, srcRow)
  {
    r := destRow;
    var lastCellNum := LastCellNum(srcRow);
    var i := 0;
    RowPrefixEmpty(f, destRow, srcRowIdx, srcRow);
    while i < lastCellNum
      invariant 0 <= i
      invariant r == destRow + CopiedCells(f, srcRowIdx, Prefix(srcRow, i))
      decreases lastCellNum - i
    {
      if i in srcRow {
        var cell := srcRow[i];
        var copy := true;
        if f.copyColumn != [] {
          var addr := f.address(srcRowIdx, i);
          copy := f.matches(addr, f.copyColumn);
        }
        if copy {
          RowPrefixCopy(f, destRow, srcRowIdx, srcRow, i);
          var destCell := FreshCell;                   // createCell(i)
          r := r[i := ExecCell(destCell, cell)];
        } else {
          RowPrefixSkip(f, destRow, srcRowIdx, srcRow, i);
        }
      } else {
        RowPrefixSkip(f, destRow, srcRowIdx, srcRow, i);
      }
      i := i + 1;
    }
    RowPrefixAll(f, destRow, srcRowIdx, srcRow, i);
  }

  lemma RowPrefixEmpty(f: ColumnFilter, destRow: Row, srcRowIdx: nat, srcRow: Row)
    ensures destRow + CopiedCells(f, srcRowIdx, Prefix(srcRow, 0)) == destRow
  {
  }

  lemma RowPrefixAll(f: ColumnFilter, destRow: Row, srcRowIdx: nat, srcRow: Row, i: int)
    requires forall c :: c in srcRow ==> c < i
    ensures destRow + CopiedCells(f, srcRowIdx, Prefix(srcRow, i)) == destRow + CopiedCells(f, srcRowIdx, srcRow)
  {
  }

  /** A selected cell at column `i` extends the copied prefix of the row by that cell. */
  lemma RowPrefixCopy(f: ColumnFilter, destRow: Row, srcRowIdx: nat, srcRow: Row, i: nat)
    requires i in srcRow && Selected(f, srcRowIdx, i)
    ensures destRow + CopiedCells(f, srcRowIdx, Prefix(srcRow, i + 1)) ==
      (destRow + CopiedCells(f, srcRowIdx, Prefix(srcRow, i)))[i := ExecCell(FreshCell, srcRow[i])]
  {
  }

  /** A column without a cell, or whose cell the filter rejects, leaves the copied prefix as it is. */
  lemma RowPrefixSkip(f: ColumnFilter, destRow: Row, srcRowIdx: nat, srcRow: Row, i: nat)
    requires !(i in srcRow && Selected(f, srcRowIdx, i))
    ensures CopiedCells(f, srcRowIdx, Prefix(srcRow, i + 1)) == CopiedCells(f, srcRowIdx, Prefix(srcRow, i))
  {
  }

  /**
   * The destination `dest` after the source-row loop has run for the source
   * rows below `i`, writing source row `r` to destination row `off + r`.
   */
  function PartlyAppended(f: ColumnFilter, dest: Sheet, src: Sheet, off: nat, i: nat): Sheet
    decreases i
  {
    if i == 0 then dest
    else
      var before := PartlyAppended(f, dest, src, off, i - 1);
      if i - 1 in src then before[off + i - 1 := CopiedCells(f, i - 1, src[i - 1])] else before
  }

  /** Whether destination row `k` is one of those written for source rows below `i`, starting at `off`. */
  predicate Written(src: Sheet, off: nat, i: int, k: nat) {
    off <= k < off + i && k - off in src
  }

  /**
   * What the loop has written after `i` source rows: row `k` is present iff it
   * was in `dest` or comes from a source row below `i`; such a row holds the
   * copy of its source row, and every other row is the one in `dest`.
   */
  lemma {:induction false} PartlyAppendedEntries(f: ColumnFilter, dest: Sheet, src: Sheet, off: nat, i: nat)
    ensures forall k :: k in PartlyAppended(f, dest, src, off, i) <==> k in dest || Written(src, off, i, k)
    ensures forall k :: k in PartlyAppended(f, dest, src, off, i) && Written(src, off, i, k) ==>
      PartlyAppended(f, dest, src, off, i)[k] == CopiedCells(f, k - off, src[k - off])
    ensures forall k :: k in PartlyAppended(f, dest, src, off, i) && !Written(src, off, i, k) ==>
      PartlyAppended(f, dest, src, off, i)[k] == dest[k]
    decreases i
  {
    if i > 0 {
      PartlyAppendedEntries(f, dest, src, off, i - 1);
      forall k: nat ensures Written(src, off, i, k) <==> Written(src, off, i - 1, k) || (k == off + i - 1 && i - 1 in src) {
      }
    }
  }

  /** Creating destination row `off + i` and filling it from source row `i` extends a partial append by one row. */
  lemma PartlyAppendedWrite(f: ColumnFilter, dest: Sheet, src: Sheet, off: nat, i: nat, rows: Sheet, newRow: Row)
    requires rows == PartlyAppended(f, dest, src, off, i)
    requires i in src && newRow == map[] + CopiedCells(f, i, src[i])
    ensures rows[off + i := map[]][off + i := newRow] == PartlyAppended(f, dest, src, off, i + 1)
  {
    assert newRow == CopiedCells(f, i, src[i]);
    assert rows[off + i := map[]][off + i := newRow] == rows[off + i := newRow];
  }

  /** A source row index without a row writes nothing. */
  lemma PartlyAppendedSkip(f: ColumnFilter, dest: Sheet, src: Sheet, off: nat, i: nat)
    requires i !in src
    ensures PartlyAppended(f, dest, src, off, i + 1) == PartlyAppended(f, dest, src, off, i)
  {
  }

  /** Past the last source row, the rows written are exactly those at or past `off` that come from a source row. */
  lemma WrittenPastLast(src: Sheet, off: nat, i: int)
    requires i > LastRowNum(src)
    ensures forall k: nat :: Written(src, off, i, k) <==> k >= off && k - off in src
  {
  }

  /** Once every source row has been written, the partial append has the rows of the whole append. */
  lemma PartlyAppendedDoneKeys(f: ColumnFilter, dest: Sheet, src: Sheet, off: nat, i: nat)
    requires i > LastRowNum(src)
    ensures PartlyAppended(f, dest, src, off, i).Keys == AppendSheet(f, dest, src, off).Keys
  {
    PartlyAppendedEntries(f, dest, src, off, i);
    AppendPlacement(f, dest, src, off);
    WrittenPastLast(src, off, i);
  }

  /** Once every source row has been written, the partial append holds the rows of the whole append. */
  lemma PartlyAppendedDoneValues(f: ColumnFilter, dest: Sheet, src: Sheet, off: nat, i: nat)
    requires i > LastRowNum(src)
    ensures forall k :: k in PartlyAppended(f, dest, src, off, i) && k in AppendSheet(f, dest, src, off) ==>
      PartlyAppended(f, dest, src, off, i)[k] == AppendSheet(f, dest, src, off)[k]
  {
    PartlyAppendedEntries(f, dest, src, off, i);
    AppendPlacement(f, dest, src, off);
    WrittenPastLast(src, off, i);
  }

  /** Once every source row has been written, the partial append is the whole append. */
  lemma PartlyAppendedDone(f: ColumnFilter, dest: Sheet, src: Sheet, off: nat, i: nat)
    requires i > LastRowNum(src)
    ensures PartlyAppended(f, dest, src, off, i) == AppendSheet(f, dest, src, off)
  {
    PartlyAppendedDoneKeys(f, dest, src, off, i);
    PartlyAppendedDoneValues(f, dest, src, off, i);
  }

  /** The destination sheet, which the merger fills row by row. */
  class DestinationSheet {
    var rows: Sheet

    /** A new, empty sheet. */
    constructor ()
      ensures rows == map[]
    {
      rows := map[];
    }

    /**
     * execSheet: computes the append offset once, from the destination's
     * last row number, then writes every source row `i` that exists to
     * destination row `offset + i`, replacing whatever row was there. With
     * `AsWritten` the offset is the code's rule, 0 unless the last row number
     * is positive; with `Corrected` it is one past the last row number.
     */
    method ExecSheet(rule: OffsetRule, f: ColumnFilter, src: Sheet)
      modifies this
      ensures rows == ExecSheetResult(rule, f, old(rows), src)
    {
      ghost var dest := rows;
      var lastRowNum := LastRowNum(rows);
      var destLastRowNum: nat;
      if rule.AsWritten? {
        destLastRowNum := if lastRowNum > 0 then lastRowNum + 1 else 0;
      } else {
        destLastRowNum := lastRowNum + 1;
      }
      assert destLastRowNum == OffsetBy(rule, dest);
      var srcLastRowNum := LastRowNum(src);
      var i := 0;
      while i <= srcLastRowNum
        invariant 0 <= i
        invariant rows == PartlyAppended(f, dest, src, destLastRowNum, i)
        decreases srcLastRowNum + 1 - i
      {
        if i in src {
          ghost var before := rows;
          var row := src[i];
          rows := rows[destLastRowNum + i := map[]];   // createRow(destLastRowNum + i)
          var newRow := ExecRow(f, rows[destLastRowNum + i], i, row);
          rows := rows[destLastRowNum + i := newRow];
          PartlyAppendedWrite(f, dest, src, destLastRowNum, i, before, newRow);
        } else {
          PartlyAppendedSkip(f, dest, src, destLastRowNum, i);
        }
        i := i + 1;
      }
      PartlyAppendedDone(f, dest, src, destLastRowNum, i);
    }
  }

  /** One iteration of the source loop: a source that could not be read leaves the destination as it is. */
  function MergeStep(rule: OffsetRule, f: ColumnFilter, dest: Sheet, read: Option<Sheet>): Sheet {
    match read
    case None => dest
    case Some(srcSheet) => ExecSheetResult(rule, f, dest, srcSheet)
  }

  /**
   * The destination after the source loop over `srcPaths`, in list order.
   * `readFirstSheet(path)` is the first sheet of the workbook at `path`, or
   * None when opening or reading it throws an I/O exception.
   */
  function MergeAll(rule: OffsetRule, f: ColumnFilter, dest: Sheet, srcPaths: seq<string>,
                    readFirstSheet: string -> Option<Sheet>): Sheet
    decreases |srcPaths|
  {
    if srcPaths == [] then dest
    else MergeStep(rule, f, MergeAll(rule, f, dest, srcPaths[..|srcPaths| - 1], readFirstSheet),
                   readFirstSheet(srcPaths[|srcPaths| - 1]))
  }

  /**
   * The body of `main` between creating the destination sheet and writing
   * it out: a fresh sheet, then every source in order.
   */
  method MergeWorkbooks(rule: OffsetRule, f: ColumnFilter, srcPaths: seq<string>,
                        readFirstSheet: string -> Option<Sheet>)
    returns (destSheet: DestinationSheet)
    ensures fresh(destSheet)
    ensures destSheet.rows == MergeAll(rule, f, map[], srcPaths, readFirstSheet)
  {
    destSheet := new DestinationSheet();
    for k := 0 to |srcPaths|
      invariant destSheet.rows == MergeAll(rule, f, map[], srcPaths[..k], readFirstSheet)
    {
      assert srcPaths[..k + 1][..k] == srcPaths[..k];
      var dir := srcPaths[k];
      match readFirstSheet(dir) {
        case Some(srcSheet) => destSheet.ExecSheet(rule, f, srcSheet);
        case None =>
      }
    }
    assert srcPaths[..|srcPaths|] == srcPaths;
  }

  /** Merging two lists of sources one after the other is merging their concatenation. */
  lemma {:induction false} MergeAllConcat(rule: OffsetRule, f: ColumnFilter, dest: Sheet, ps: seq<string>,
                                         qs: seq<string>, readFirstSheet: string -> Option<Sheet>)
    ensures MergeAll(rule, f, dest, ps + qs, readFirstSheet) ==
      MergeAll(rule, f, MergeAll(rule, f, dest, ps, readFirstSheet), qs, readFirstSheet)
    decreases |qs|
  {
    if qs == [] {
      assert ps + qs == ps;
    } else {
      var init := qs[..|qs| - 1];
      MergeAllConcat(rule, f, dest, ps, init, readFirstSheet);
      assert (ps + qs)[..|ps + qs| - 1] == ps + init;
      assert (ps + qs)[|ps + qs| - 1] == qs[|qs| - 1];
    }
  }

  /**
   * A source that cannot be read is skipped: the result is the same as if it
   * were not in the list, and the sources after it are still merged.
   */
  lemma UnreadableSourceIsSkipped(rule: OffsetRule, f: ColumnFilter, dest: Sheet, ps: seq<string>, p: string,
                                  qs: seq<string>, readFirstSheet: string -> Option<Sheet>)
    requires readFirstSheet(p) == None
    ensures MergeAll(rule, f, dest, ps + [p] + qs, readFirstSheet) == MergeAll(rule, f, dest, ps + qs, readFirstSheet)
  {
    MergeAllConcat(rule, f, dest, ps + [p], qs, readFirstSheet);
    MergeAllConcat(rule, f, dest, ps, qs, readFirstSheet);
    assert (ps + [p])[..|ps + [p]| - 1] == ps;
  }

  /** Sources are merged in list order: the first source is appended before all the others. */
  lemma SourcesInListOrder(rule: OffsetRule, f: ColumnFilter, dest: Sheet, p: string, qs: seq<string>,
                           readFirstSheet: string -> Option<Sheet>)
    ensures MergeAll(rule, f, dest, [p] + qs, readFirstSheet) ==
      MergeAll(rule, f, MergeStep(rule, f, dest, readFirstSheet(p)), qs, readFirstSheet)
  {
    MergeAllConcat(rule, f, dest, [p], qs, readFirstSheet);
    assert [p][..0] == [];
  }

  /** The number of rows in the sources that can be read. */
  function TotalRows(srcPaths: seq<string>, readFirstSheet: string -> Option<Sheet>): nat
    decreases |srcPaths|
  {
    if srcPaths == [] then 0
    else
      var rows := match readFirstSheet(srcPaths[|srcPaths| - 1])
        case None => 0
        case Some(s) => |s|;
      TotalRows(srcPaths[..|srcPaths| - 1], readFirstSheet) + rows
  }

  /** No readable source has a sheet whose only row is row 0. */
  predicate NoLoneRowZeroSource(srcPaths: seq<string>, readFirstSheet: string -> Option<Sheet>) {
    forall k :: 0 <= k < |srcPaths| && readFirstSheet(srcPaths[k]).Some? ==>
      readFirstSheet(srcPaths[k]).value.Keys != {0}
  }

  /**
   * The destination row count after the source loop is its start count plus
   * the row counts of all readable sources: always with the corrected offset,
   * and with the code's rule as long as no sheet along the way ends up
   * holding only row 0.
   */
  lemma {:induction false} RowCountIsSum(rule: OffsetRule, f: ColumnFilter, dest: Sheet, srcPaths: seq<string>,
                                        readFirstSheet: string -> Option<Sheet>)
    requires rule.Corrected? || (AppendSafe(dest) && NoLoneRowZeroSource(srcPaths, readFirstSheet))
    ensures |MergeAll(rule, f, dest, srcPaths, readFirstSheet)| == |dest| + TotalRows(srcPaths, readFirstSheet)
    ensures rule.AsWritten? ==> AppendSafe(MergeAll(rule, f, dest, srcPaths, readFirstSheet))
    decreases |srcPaths|
  {
    if srcPaths != [] {
      var init := srcPaths[..|srcPaths| - 1];
      var last := srcPaths[|srcPaths| - 1];
      assert NoLoneRowZeroSource(srcPaths, readFirstSheet) ==> NoLoneRowZeroSource(init, readFirstSheet) by {
        forall k | 0 <= k < |init| ensures init[k] == srcPaths[k] { }
      }
      RowCountIsSum(rule, f, dest, init, readFirstSheet);
      var before := MergeAll(rule, f, dest, init, readFirstSheet);
      match readFirstSheet(last)
      case None =>
      case Some(s) =>
        if rule.Corrected? {
          ExecSheetRowCount(f, before, s);
        } else {
          assert s.Keys != {0} by {
            assert last == srcPaths[|srcPaths| - 1];
          }
          AsWrittenRowCount(f, before, s);
          ExecSheetKeepsAppendSafe(f, before, s);
        }
    }
  }

  /**
   * No row is ever lost: every row present before the source loop is still
   * there, unchanged, after it, and the last row number never drops. This
   * holds always with the corrected offset, and with the code's rule when
   * the destination starts empty or with a positive last row number.
   */
  lemma {:induction false} MergeKeepsRows(rule: OffsetRule, f: ColumnFilter, dest: Sheet, srcPaths: seq<string>,
                                         readFirstSheet: string -> Option<Sheet>)
    requires rule.Corrected? || AppendSafe(dest)
    ensures forall k :: k in dest ==>
      k in MergeAll(rule, f, dest, srcPaths, readFirstSheet) && MergeAll(rule, f, dest, srcPaths, readFirstSheet)[k] == dest[k]
    ensures dest != map[] ==> LastRowNum(dest) <= LastRowNum(MergeAll(rule, f, dest, srcPaths, readFirstSheet))
    decreases |srcPaths|
  {
    if srcPaths != [] && dest != map[] {
      var init := srcPaths[..|srcPaths| - 1];
      MergeKeepsRows(rule, f, dest, init, readFirstSheet);
      var before := MergeAll(rule, f, dest, init, readFirstSheet);
      assert LastRowNum(dest) in before;
      match readFirstSheet(srcPaths[|srcPaths| - 1])
      case None =>
      case Some(s) =>
        ExecSheetKeepsRows(rule, f, before, s);
    }
  }

  /** The source loop over two sources, unfolded. */
  lemma MergeTwo(rule: OffsetRule, f: ColumnFilter, dest: Sheet, p: string, q: string,
                 readFirstSheet: string -> Option<Sheet>)
    ensures MergeAll(rule, f, dest, [p, q], readFirstSheet) ==
      MergeStep(rule, f, MergeStep(rule, f, dest, readFirstSheet(p)), readFirstSheet(q))
  {
    assert [p, q][..1] == [p];
    assert [p][..0] == [];
    assert MergeAll(rule, f, dest, [p], readFirstSheet) ==
      MergeStep(rule, f, MergeAll(rule, f, dest, [], readFirstSheet), readFirstSheet(p));
  }

  /** The row count of two sources. */
  lemma TotalRowsTwo(p: string, q: string, readFirstSheet: string -> Option<Sheet>)
    requires readFirstSheet(p).Some? && readFirstSheet(q).Some?
    ensures TotalRows([p, q], readFirstSheet) == |readFirstSheet(p).value| + |readFirstSheet(q).value|
  {
    assert [p, q][..1] == [p];
    assert [p][..0] == [];
    assert TotalRows([p], readFirstSheet) == |readFirstSheet(p).value|;
  }

  /** A sheet holding only row 0, appended to an empty destination, gives a sheet holding only row 0. */
  lemma LoneRowZeroIntoEmpty(rule: OffsetRule, f: ColumnFilter, s: Sheet)
    requires s.Keys == {0}
    ensures ExecSheetResult(rule, f, map[], s).Keys == {0}
  {
    AppendPlacement(f, map[], s, 0);
  }

  /**
   * End to end, as written: two source workbooks whose first sheets each hold
   * only row 0 give a destination with one row, not two, while the corrected
   * offset keeps both.
   */
  lemma LoneRowZeroSourcesCollapse(f: ColumnFilter, p: string, q: string, readFirstSheet: string -> Option<Sheet>)
    requires readFirstSheet(p).Some? && readFirstSheet(p).value.Keys == {0}
    requires readFirstSheet(q).Some? && readFirstSheet(q).value.Keys == {0}
    ensures TotalRows([p, q], readFirstSheet) == 2
    ensures |MergeAll(AsWritten, f, map[], [p, q], readFirstSheet)| == 1
    ensures |MergeAll(Corrected, f, map[], [p, q], readFirstSheet)| == 2
  {
    var s := readFirstSheet(p).value;
    var t := readFirstSheet(q).value;
    assert |s| == 1 by { assert s.Keys == {0}; }
    assert |t| == 1 by { assert t.Keys == {0}; }
    TotalRowsTwo(p, q, readFirstSheet);
    MergeTwo(AsWritten, f, map[], p, q, readFirstSheet);
    var first := ExecSheetResult(AsWritten, f, map[], s);
    LoneRowZeroIntoEmpty(AsWritten, f, s);
    AsWrittenRowCount(f, first, t);
    RowCountIsSum(Corrected, f, map[], [p, q], readFirstSheet);
  }
}
