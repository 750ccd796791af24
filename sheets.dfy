/**
 * Sheets and rows as sparse maps, the library queries the merger relies on
 * (last row number, last cell number), the append-offset rule, and a
 * declarative description of what one `execSheet` call leaves in the
 * destination sheet, with its properties.
 */
module Sheets {
  import opened Cells

  /** A row: column index to cell; a column without an entry holds no cell. */
  type Row = map<nat, Cell>

  /** A sheet: row index to row; an index without an entry holds no row. */
  type Sheet = map<nat, Row>

  /**
   * The configured column filter. `copyColumn` is the pattern (empty means
   * "copy every column"); `matches(s, p)` stands for the library's
   * whole-string regular-expression match of `s` against `p`, and
   * `address(r, c)` for the A1-style text of the cell at row `r`, column `c`.
   */
  datatype ColumnFilter = ColumnFilter(
    copyColumn: string,
    matches: (string, string) -> bool,
    address: (nat, nat) -> string)

  /** Whether the cell of source row `row`, column `col` passes the filter. */
  predicate Selected(f: ColumnFilter, row: nat, col: nat) {
    f.copyColumn == [] || f.matches(f.address(row, col), f.copyColumn)
  }

  lemma {:induction false} GreatestExists(s: set<nat>)
    requires s != {}
    ensures exists m :: m in s && forall k :: k in s ==> k <= m
  {
    var x :| x in s;
    if s != {x} {
      GreatestExists(s - {x});
      var m :| m in s - {x} && forall k :: k in s - {x} ==> k <= m;
      var top := if x <= m then m else x;
      forall k | k in s ensures k <= top {
        if k != x { assert k in s - {x}; }
      }
    }
  }

  /** The greatest key of a sparse map, or -1 when it has none. */
  function LastKey<V>(m: map<nat, V>): (r: int)
    ensures r >= -1
    ensures r == -1 <==> m == map[]
    ensures m != map[] ==> r in m
    ensures forall k :: k in m ==> k <= r
  {
    if m == map[] then -1
    else
      GreatestExists(m.Keys);
      var top :| top in m && forall k :: k in m ==> k <= top;
      top
  }

  /** getLastRowNum: the index of the last row present, -1 for a sheet without rows. */
  function LastRowNum(s: Sheet): (r: int)
    ensures r == -1 <==> s == map[]
    ensures s != map[] ==> r in s && forall i :: i in s ==> i <= r
  {
    LastKey(s)
  }

  /** getLastCellNum: one past the last column present, -1 for a row without cells. */
  function LastCellNum(row: Row): (r: int)
    ensures r == -1 <==> row == map[]
    ensures row != map[] ==> r - 1 in row
    ensures forall c :: c in row ==> c < r
  {
    if row == map[] then -1 else LastKey(row) + 1
  }

  /**
   * The first destination row index an `execSheet` call writes to, as the
   * code computes it: one past the last row when that last row number is
   * positive, 0 otherwise. It is 0 both for an empty destination and for
   * one holding only row 0, which it does not tell apart.
   */
  function AsWrittenOffset(dest: Sheet): (off: nat)
    ensures off == 0 <==> (dest == map[] || dest.Keys == {0})
    ensures off > 0 ==> (forall k :: k in dest ==> k < off) && off - 1 in dest
  {
    if LastRowNum(dest) > 0 then LastRowNum(dest) + 1 else 0
  }

  /**
   * The corrected offset: one past the last row number, which is 0 for an
   * empty sheet since its last row number is -1. It is the least index above
   * every row present.
   */
  function Offset(dest: Sheet): (off: nat)
    ensures forall k :: k in dest ==> k < off
    ensures off == 0 <==> dest == map[]
    ensures dest != map[] ==> off - 1 in dest
  {
    LastRowNum(dest) + 1
  }

  /** Which offset rule an `execSheet` call follows: the code's, or the corrected one. */
  datatype OffsetRule = AsWritten | Corrected

  /** The first destination row index an `execSheet` call writes to, under `rule`. */
  function OffsetBy(rule: OffsetRule, dest: Sheet): nat {
    match rule
    case AsWritten => AsWrittenOffset(dest)
    case Corrected => Offset(dest)
  }

  /** The entries of `m` whose key is below `n`. */
  function Prefix<V>(m: map<nat, V>, n: int): map<nat, V> {
    map k | k in m && k < n :: m[k]
  }

  /** The cells `execRow` writes for source row `srcRowIdx`: the selected ones, at their own columns. */
  function CopiedCells(f: ColumnFilter, srcRowIdx: nat, src: Row): Row {
    map c | c in src && Selected(f, srcRowIdx, c) :: ExecCell(FreshCell, src[c])
  }

  /** Whether index `k` of a map shifted down by `off` comes from an entry of `m`. */
  predicate ShiftedFrom<V>(m: map<nat, V>, off: nat, k: nat) {
    k >= off && k - off in m
  }

  /** The entries of `m` moved down by `off`: entry `i` becomes entry `off + i`. */
  function Shifted<V>(m: map<nat, V>, off: nat): map<nat, V> {
    map k: nat | off <= k <= off + LastKey(m) && ShiftedFrom(m, off, k) :: m[k - off]
  }

  /** Where the entries of a shifted map are. */
  lemma ShiftedEntries<V>(m: map<nat, V>, off: nat)
    ensures forall k: nat :: k in Shifted(m, off) <==> ShiftedFrom(m, off, k)
    ensures forall k: nat :: k in Shifted(m, off) ==> Shifted(m, off)[k] == m[k - off]
  {
  }

  /** Shifting a map keeps its size. */
  lemma {:induction false} ShiftedSize<V>(m: map<nat, V>, off: nat)
    ensures |Shifted(m, off)| == |m|
    decreases |m|
  {
    if m != map[] {
      var x :| x in m;
      var rest := m - {x};
      ShiftedSize(rest, off);
      ShiftedEntries(m, off);
      ShiftedEntries(rest, off);
      assert Shifted(m, off).Keys == Shifted(rest, off).Keys + {off + x};
      assert off + x !in Shifted(rest, off);
    }
  }

  /** Each source row copied cell by cell, still at its source index. */
  function CopiedRows(f: ColumnFilter, src: Sheet): Sheet {
    map i | i in src :: CopiedCells(f, i, src[i])
  }

  /** The rows `execSheet` writes: source row `i` to destination row `off + i`. */
  function PlacedRows(f: ColumnFilter, off: nat, src: Sheet): Sheet {
    Shifted(CopiedRows(f, src), off)
  }

  /** The destination after every row of `src` has been written starting at `off`. */
  function AppendSheet(f: ColumnFilter, dest: Sheet, src: Sheet, off: nat): Sheet {
    dest + PlacedRows(f, off, src)
  }

  /** The destination after one `execSheet(dest, src)` call under the offset rule `rule`. */
  function ExecSheetResult(rule: OffsetRule, f: ColumnFilter, dest: Sheet, src: Sheet): Sheet {
    AppendSheet(f, dest, src, OffsetBy(rule, dest))
  }

  /**
   * The offset rule as written against the corrected one: a positive offset
   * as written is the corrected offset, and the two differ exactly for a
   * destination that holds only row 0.
   */
  lemma AsWrittenOffsetRule(dest: Sheet)
    ensures AsWrittenOffset(dest) > 0 ==> AsWrittenOffset(dest) == Offset(dest)
    ensures AsWrittenOffset(dest) != Offset(dest) <==> dest.Keys == {0}
  {
  }

  /** The column filter: with an empty pattern every cell is copied, otherwise exactly the matching ones. */
  lemma CopiedCellsFilter(f: ColumnFilter, srcRowIdx: nat, src: Row)
    ensures f.copyColumn == [] ==> CopiedCells(f, srcRowIdx, src).Keys == src.Keys
    ensures f.copyColumn != [] ==> forall c :: c in CopiedCells(f, srcRowIdx, src) <==>
      c in src && f.matches(f.address(srcRowIdx, c), f.copyColumn)
    ensures forall c :: c in CopiedCells(f, srcRowIdx, src) ==>
      CopiedCells(f, srcRowIdx, src)[c] == (if src[c].NoneCell? then BlankCell else DefaultStyled(src[c]))
  {
  }

  /**
   * Placement: destination row `k` at or past the offset holds the copy of
   * source row `k - off` when that row exists (so gaps between source rows
   * are kept), and every other destination row is the one that was there.
   */
  lemma AppendPlacement(f: ColumnFilter, dest: Sheet, src: Sheet, off: nat)
    ensures forall k :: k in AppendSheet(f, dest, src, off) <==>
      k in dest || (k >= off && k - off in src)
    ensures forall k :: k >= off && k - off in src ==>
      AppendSheet(f, dest, src, off)[k] == CopiedCells(f, k - off, src[k - off])
    ensures forall k :: k in dest && !(k >= off && k - off in src) ==>
      AppendSheet(f, dest, src, off)[k] == dest[k]
  {
    var copied := CopiedRows(f, src);
    ShiftedEntries(copied, off);
    assert copied.Keys == src.Keys;
  }

  /** Source row `i` lands at destination row `off + i`. */
  lemma RowLandsAtOffset(f: ColumnFilter, dest: Sheet, src: Sheet, off: nat, i: nat)
    requires i in src
    ensures off + i in AppendSheet(f, dest, src, off)
    ensures AppendSheet(f, dest, src, off)[off + i] == CopiedCells(f, i, src[i])
  {
    AppendPlacement(f, dest, src, off);
    assert (off + i) - off == i;
  }

  /** An append starting above every destination row leaves every destination row as it was. */
  lemma AppendAboveKeepsRows(f: ColumnFilter, dest: Sheet, src: Sheet, off: nat)
    requires forall k :: k in dest ==> k < off
    ensures forall k :: k in dest ==> k in AppendSheet(f, dest, src, off) && AppendSheet(f, dest, src, off)[k] == dest[k]
    ensures forall k :: k in AppendSheet(f, dest, src, off) && k !in dest ==> k >= off
  {
  }

  /** A sheet the code's offset rule appends to without overwriting: empty, or with a positive last row number. */
  predicate AppendSafe(dest: Sheet) {
    dest == map[] || LastRowNum(dest) > 0
  }

  /**
   * `execSheet` keeps every existing row and only adds rows past the last
   * one: always with the corrected offset, and with the code's rule whenever
   * the destination is empty or its last row number is positive.
   */
  lemma ExecSheetKeepsRows(rule: OffsetRule, f: ColumnFilter, dest: Sheet, src: Sheet)
    requires rule.Corrected? || AppendSafe(dest)
    ensures forall k :: k in dest ==> k in ExecSheetResult(rule, f, dest, src) && ExecSheetResult(rule, f, dest, src)[k] == dest[k]
    ensures forall k :: k in ExecSheetResult(rule, f, dest, src) && k !in dest ==> k > LastRowNum(dest)
    ensures dest != map[] ==> LastRowNum(dest) <= LastRowNum(ExecSheetResult(rule, f, dest, src))
  {
    AppendAboveKeepsRows(f, dest, src, OffsetBy(rule, dest));
    if dest != map[] {
      assert LastRowNum(dest) in ExecSheetResult(rule, f, dest, src);
    }
  }

  /** The code's rule keeps a sheet safe to append to, unless the source's only row is row 0. */
  lemma ExecSheetKeepsAppendSafe(f: ColumnFilter, dest: Sheet, src: Sheet)
    requires AppendSafe(dest) && src.Keys != {0}
    ensures AppendSafe(ExecSheetResult(AsWritten, f, dest, src))
  {
    if dest != map[] {
      ExecSheetKeepsRows(AsWritten, f, dest, src);
    } else if src != map[] {
      var k :| k in src && k != 0;
      AppendPlacement(f, dest, src, 0);
      assert k in ExecSheetResult(AsWritten, f, dest, src);
    } else {
      AppendPlacement(f, dest, src, 0);
      assert ExecSheetResult(AsWritten, f, dest, src) == map[];
    }
  }

  /**
   * When the destination holds only row 0 and the source has a row 0,
   * `execSheet` replaces that row with the copy of the source's row 0.
   */
  lemma LoneRowZeroIsReplaced(f: ColumnFilter, dest: Sheet, src: Sheet)
    requires dest.Keys == {0} && 0 in src
    ensures AsWrittenOffset(dest) == 0
    ensures ExecSheetResult(AsWritten, f, dest, src)[0] == CopiedCells(f, 0, src[0])
  {
    AsWrittenOffsetRule(dest);
    RowLandsAtOffset(f, dest, src, 0, 0);
  }

  /** A concrete instance: the destination's lone row 0 is lost to the next sheet's row 0. */
  lemma LoneRowZeroIsLost()
    ensures var f := ColumnFilter([], (s, p) => true, (r, c) => []);
            var dest: Sheet := map[0 := map[0 := StringCell("first")]];
            var src: Sheet := map[0 := map[0 := StringCell("second")]];
            ExecSheetResult(AsWritten, f, dest, src) == map[0 := map[0 := StringCell("second")]]
  {
    var f := ColumnFilter([], (s, p) => true, (r, c) => []);
    var dest: Sheet := map[0 := map[0 := StringCell("first")]];
    var src: Sheet := map[0 := map[0 := StringCell("second")]];
    LoneRowZeroIsReplaced(f, dest, src);
    assert CopiedCells(f, 0, src[0]) == map[0 := StringCell("second")];
    AppendPlacement(f, dest, src, 0);
    assert ExecSheetResult(AsWritten, f, dest, src).Keys == {0};
  }

  /** `execSheet` writes one destination row per source row. */
  lemma PlacedRowsSize(f: ColumnFilter, off: nat, src: Sheet)
    ensures |PlacedRows(f, off, src)| == |src|
  {
    ShiftedSize(CopiedRows(f, src), off);
    assert CopiedRows(f, src).Keys == src.Keys;
  }

  /**
   * Row count after `execSheet` as written: the destination gains one row per
   * source row, except that a lone destination row 0 is lost to a source row 0.
   */
  lemma AsWrittenRowCount(f: ColumnFilter, dest: Sheet, src: Sheet)
    ensures |ExecSheetResult(AsWritten, f, dest, src)| ==
      |dest| + |src| - (if dest.Keys == {0} && 0 in src then 1 else 0)
  {
    var off := AsWrittenOffset(dest);
    var p := PlacedRows(f, off, src);
    AsWrittenOffsetRule(dest);
    PlacedRowsSize(f, off, src);
    UnionSize(dest, p);
    if dest.Keys == {0} {
      assert off == 0;
      ShiftedEntries(CopiedRows(f, src), 0);
      assert p.Keys == src.Keys;
      assert dest.Keys * p.Keys == if 0 in src then {0} else {};
    } else if dest != map[] {
      ShiftedEntries(CopiedRows(f, src), off);
      assert dest.Keys * p.Keys == {};
    }
  }

  /** The size of a sheet overwritten by another: their sizes less the row indices they share. */
  lemma UnionSize(dest: Sheet, p: Sheet)
    ensures |dest + p| == |dest| + |p| - |dest.Keys * p.Keys|
  {
  }

  /** Row count after `execSheet`: the destination gains exactly one row per source row. */
  lemma ExecSheetRowCount(f: ColumnFilter, dest: Sheet, src: Sheet)
    ensures |ExecSheetResult(Corrected, f, dest, src)| == |dest| + |src|
  {
    var off := Offset(dest);
    var p := PlacedRows(f, off, src);
    AppendPlacement(f, dest, src, off);
    PlacedRowsSize(f, off, src);
    ShiftedEntries(CopiedRows(f, src), off);
    assert dest.Keys * p.Keys == {};
    UnionSize(dest, p);
  }
}
