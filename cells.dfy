/**
 * The values a worksheet hands to the converter and the values it produces.
 *
 * A sheet is a sparse 1-indexed grid: a cell that is not in the map reads as
 * `Nil`, as an empty cell does in the spreadsheet reader. Cell contents are
 * the four shapes the converter distinguishes: nothing, a String, an Integer
 * and a Float (modelled as a real number).
 */
module Cells {

  /** A raw cell as delivered by the spreadsheet reader. */
  datatype Cell = Nil | Str(s: string) | Int(i: int) | Flt(f: real)

  /** A coerced field value of an output record. */
  datatype Value = VNil | VStr(s: string) | VInt(i: int) | VFlt(f: real) | VBool(b: bool)

  /** Every failure the converter raises for a sheet. */
  datatype Error =
    | TagNotFound(tag: string)                 // no tag row within the search window
    | HeaderNotText(row: int, column: int)     // a header or type cell that is not a String
    | MissingType(name: string)                // a named column whose type cell is empty
    | UnsupportedType(typ: string)             // a type tag outside the vocabulary
    | InvalidValue(value: Cell, typ: string)   // a cell whose shape the type tag refuses
    | NilId                                    // a present row without an id
    | DuplicateId(id: Value)                   // two present rows with the same id

  datatype Option<T> = None | Some(value: T)

  datatype Result<T> = Ok(value: T) | Err(error: Error)

  /** The outcome of a bounded scan, with the last index the scan examined. */
  datatype Scanned<T> = Scanned(result: Result<T>, last: int)

  /** A worksheet: (row, column) to cell, both 1-indexed; missing cells are empty. */
  type Grid = map<(int, int), Cell>

  function CellAt(g: Grid, row: int, col: int): Cell
  {
    if (row, col) in g then g[(row, col)] else Nil
  }

  /**
   * The five bounds of the converter: the window searched for tag rows, the
   * run of unnamed columns and of absent rows that ends a scan, and the last
   * column and row ever examined.
   */
  datatype Limits = Limits(
    tagSearchRows: nat,
    quittingColumns: nat,
    quittingRows: nat,
    availableColumns: nat,
    availableRows: nat)

  const DefaultLimits: Limits := Limits(100, 10, 50, 100, 100000)

  /** A field that does not make its row present: nil or the empty string. */
  predicate Blank(v: Value)
  {
    v == VNil || v == VStr("")
  }

  /** Two grids that hold the same cells in every row up to `last`. */
  ghost predicate AgreeOnRows(g: Grid, h: Grid, last: int)
  {
    forall r, c :: r <= last ==> CellAt(g, r, c) == CellAt(h, r, c)
  }

  /** Two grids that hold the same cells in every column up to `last`. */
  ghost predicate AgreeOnColumns(g: Grid, h: Grid, last: int)
  {
    forall r, c :: c <= last ==> CellAt(g, r, c) == CellAt(h, r, c)
  }

  /**
   * `s[a..b]` is a whole line of `s` as Ruby's `^` and `$` delimit lines:
   * it begins the string or follows a line feed, and ends the string or
   * precedes one.
   */
  predicate IsLine(s: string, a: int, b: int)
  {
    0 <= a <= b <= |s| && (a == 0 || s[a - 1] == '\n') && (b == |s| || s[b] == '\n')
  }

  /** A string without line feeds has one line, itself. */
  lemma SingleLine(s: string, a: int, b: int)
    requires '\n' !in s && IsLine(s, a, b)
    ensures a == 0 && b == |s|
  {
  }
}
