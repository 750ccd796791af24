/**
 * Spreadsheet cells and the per-cell transcription of the merger (`execCell`).
 *
 * A cell is a typed value. Numeric payloads are kept opaque (the bit pattern
 * of the double, never interpreted); whether a numeric cell is formatted as a
 * date is a flag on the cell, standing for the library's date-format check.
 */
module Cells {

  /** The payload of a numeric cell: the 64-bit pattern of the double. */
  datatype Number = Number(bits: bv64)

  /** The one-byte code of an error cell. */
  type ErrorCode = bv8

  /** One cell, by kind: the cell types the merger dispatches on. */
  datatype Cell =
    | StringCell(text: string)
    | NumericCell(value: Number, dateFormatted: bool)
    | BooleanCell(flag: bool)
    | FormulaCell(formula: string)
    | BlankCell
    | ErrorCell(code: ErrorCode)
    | NoneCell   // the library's "no type" marker, which the dispatch does not name

  /** The state of a cell just created in a row: blank, with the default style. */
  const FreshCell: Cell := BlankCell

  /**
   * What a setter writes for the value of `c` into a cell with the default
   * style: the same kind and value, but a numeric cell is no longer
   * date-formatted, since date formatting belongs to the style, which is not
   * copied.
   */
  function DefaultStyled(c: Cell): Cell {
    if c.NumericCell? then NumericCell(c.value, false) else c
  }

  /**
   * execCell: writes the value of `src` into the destination cell `dest`,
   * choosing the setter by the kind of `src`. A date-formatted numeric cell
   * is read as a date and written back as that date's serial number, which
   * the model takes to be the number it was read from (see the README); any
   * other numeric cell is written as a number; a kind the dispatch does not
   * name leaves `dest` as it was.
   */
  function ExecCell(dest: Cell, src: Cell): (r: Cell)
    ensures src.NoneCell? ==> r == dest
    ensures src.NumericCell? ==> r.NumericCell? && r.value == src.value && !r.dateFormatted
    ensures !src.NoneCell? && !src.NumericCell? ==> r == src
    ensures !src.NoneCell? ==> r == DefaultStyled(src)
  {
    match src
    case StringCell(s) => StringCell(s)
    case NumericCell(v, isDate) =>
      if isDate then NumericCell(v, false)   // setCellValue(getDateCellValue()): the serial number of the date
      else NumericCell(v, false)             // setCellValue(getNumericCellValue())
    case BooleanCell(b) => BooleanCell(b)
    case FormulaCell(f) => FormulaCell(f)
    case BlankCell => BlankCell
    case ErrorCell(e) => ErrorCell(e)
    case NoneCell => dest
  }

  /**
   * Copying is idempotent: copying the copy of a cell into another freshly
   * created cell gives the same cell again, since the copy is already in
   * the default style and is never untyped.
   */
  lemma ExecCellIdempotent(src: Cell)
    ensures ExecCell(FreshCell, ExecCell(FreshCell, src)) == ExecCell(FreshCell, src)
  {
  }

  /** Copying into a freshly created cell: the source in the default style, or blank for an untyped source. */
  lemma CopyIntoFreshCell(src: Cell)
    ensures ExecCell(FreshCell, src) == if src.NoneCell? then BlankCell else DefaultStyled(src)
    ensures ExecCell(FreshCell, src) != NoneCell
  {
  }
}
