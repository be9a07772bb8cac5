/**
 * The schema a sheet declares about itself: the tag rows marked in column 1
 * (`tag_row`), the description of one column (`column_meta_data`) and the
 * column map (`columns`), which scans columns 2 onwards until a run of
 * unnamed columns or the last available column.
 */
module Schema {
  import opened Cells

  const ColumnNameTag: string := "column_name"
  const DataTypeTag: string := "data_type"
  const DataStartTag: string := "data_start"

  /** One declared column: its index in the sheet, its field name and its type tag. */
  datatype Column = Column(index: int, name: string, typ: string)

  /** The search of `tag_row`, from row `i` to the end of the search window. */
  function FindTag(g: Grid, lim: Limits, tag: string, i: int): Result<nat>
    requires i >= 1
    decreases lim.tagSearchRows + 1 - i
  {
    if i > lim.tagSearchRows then Err(TagNotFound(tag))
    else if CellAt(g, i, 1) == Str(tag) then Ok(i)
    else FindTag(g, lim, tag, i + 1)
  }

  /** `tag_row(tag)`. */
  function TagRow(g: Grid, lim: Limits, tag: string): Result<nat>
  {
    FindTag(g, lim, tag, 1)
  }

  /** `r` is the first row of the search window whose first cell is the tag. */
  ghost predicate IsFirstTagRow(g: Grid, lim: Limits, tag: string, r: int)
  {
    && 1 <= r <= lim.tagSearchRows
    && CellAt(g, r, 1) == Str(tag)
    && forall j :: 1 <= j < r ==> CellAt(g, j, 1) != Str(tag)
  }

  ghost predicate NoTagRow(g: Grid, lim: Limits, tag: string)
  {
    forall j :: 1 <= j <= lim.tagSearchRows ==> CellAt(g, j, 1) != Str(tag)
  }

  lemma {:induction false} FindTagIsFirst(g: Grid, lim: Limits, tag: string, i: int)
    requires i >= 1
    requires forall j :: 1 <= j < i ==> CellAt(g, j, 1) != Str(tag)
    ensures FindTag(g, lim, tag, i).Ok? ==> IsFirstTagRow(g, lim, tag, FindTag(g, lim, tag, i).value)
    ensures FindTag(g, lim, tag, i).Err? ==>
      FindTag(g, lim, tag, i) == Err(TagNotFound(tag)) && NoTagRow(g, lim, tag)
    decreases lim.tagSearchRows + 1 - i
  {
    if i <= lim.tagSearchRows && CellAt(g, i, 1) != Str(tag) {
      FindTagIsFirst(g, lim, tag, i + 1);
    }
  }

  /**
   * `tag_row` gives the smallest row of the window holding the tag, and
   * fails with TagNotFound exactly when no row of the window holds it.
   */
  lemma TagRowIsFirst(g: Grid, lim: Limits, tag: string)
    ensures TagRow(g, lim, tag).Ok? ==> IsFirstTagRow(g, lim, tag, TagRow(g, lim, tag).value)
    ensures TagRow(g, lim, tag).Err? ==>
      TagRow(g, lim, tag) == Err(TagNotFound(tag)) && NoTagRow(g, lim, tag)
  {
    FindTagIsFirst(g, lim, tag, 1);
  }

  /** The first row of the window holding the tag is what `tag_row` returns. */
  lemma TagRowOfFirst(g: Grid, lim: Limits, tag: string, r: int)
    requires IsFirstTagRow(g, lim, tag, r)
    ensures TagRow(g, lim, tag) == Ok(r)
  {
    TagRowIsFirst(g, lim, tag);
  }

  lemma {:induction false} FindTagFrame(g: Grid, h: Grid, lim: Limits, tag: string, i: int)
    requires i >= 1
    requires forall r :: CellAt(g, r, 1) == CellAt(h, r, 1)
    ensures FindTag(g, lim, tag, i) == FindTag(h, lim, tag, i)
    decreases lim.tagSearchRows + 1 - i
  {
    if i <= lim.tagSearchRows {
      FindTagFrame(g, h, lim, tag, i + 1);
    }
  }

  /**
   * `column_meta_data(col)`: nothing for a column without a name; otherwise
   * the column, provided its type cell is a non-empty String. A header or
   * type cell that is not a String is an error, as `length` is undefined on it.
   */
  function ColumnMeta(g: Grid, lim: Limits, col: int): Result<Option<Column>>
  {
    match TagRow(g, lim, ColumnNameTag)
    case Err(e) => Err(e)
    case Ok(nameRow) =>
      var name := CellAt(g, nameRow, col);
      if name == Nil || name == Str("") then Ok(None)
      else if !name.Str? then Err(HeaderNotText(nameRow, col))
      else
        match TagRow(g, lim, DataTypeTag)
        case Err(e) => Err(e)
        case Ok(typeRow) =>
          var t := CellAt(g, typeRow, col);
          if t == Nil || t == Str("") then Err(MissingType(name.s))
          else if !t.Str? then Err(HeaderNotText(typeRow, col))
          else Ok(Some(Column(col, name.s, t.s)))
  }

  /**
   * The loop of `columns` from column `i`, having seen `empty` unnamed
   * columns in a row and collected `acc`; `last` is the last column examined.
   */
  function ColumnScan(g: Grid, lim: Limits, i: int, empty: nat, acc: seq<Column>): Scanned<seq<Column>>
    decreases lim.availableColumns + 1 - i
  {
    if i > lim.availableColumns then Scanned(Ok(acc), i - 1)
    else
      match ColumnMeta(g, lim, i)
      case Err(e) => Scanned(Err(e), i)
      case Ok(Some(c)) => ColumnScan(g, lim, i + 1, 0, acc + [c])
      case Ok(None) =>
        if empty + 1 >= lim.quittingColumns then Scanned(Ok(acc), i)
        else ColumnScan(g, lim, i + 1, empty + 1, acc)
  }

  /** `columns`: the declared columns in ascending order of index. */
  function Columns(g: Grid, lim: Limits): Result<seq<Column>>
  {
    ColumnScan(g, lim, 2, 0, []).result
  }

  /** The last column `columns` examines. */
  function LastColumn(g: Grid, lim: Limits): int
  {
    ColumnScan(g, lim, 2, 0, []).last
  }

  predicate Ascending(cols: seq<Column>)
  {
    forall a, b :: 0 <= a < b < |cols| ==> cols[a].index < cols[b].index
  }

  /** A named column: the column returned, the cells it was read from. */
  lemma ColumnMetaNamed(g: Grid, lim: Limits, col: int)
    requires ColumnMeta(g, lim, col).Ok? && ColumnMeta(g, lim, col).value.Some?
    ensures var c := ColumnMeta(g, lim, col).value.value;
      && c.index == col && c.name != "" && c.typ != ""
      && TagRow(g, lim, ColumnNameTag).Ok? && TagRow(g, lim, DataTypeTag).Ok?
      && CellAt(g, TagRow(g, lim, ColumnNameTag).value, col) == Str(c.name)
      && CellAt(g, TagRow(g, lim, DataTypeTag).value, col) == Str(c.typ)
  {
  }

  /** A column with a non-empty name whose type cell is nil or empty is a MissingType error. */
  lemma ColumnMetaUntyped(g: Grid, lim: Limits, col: int, name: string)
    requires TagRow(g, lim, ColumnNameTag).Ok? && TagRow(g, lim, DataTypeTag).Ok?
    requires CellAt(g, TagRow(g, lim, ColumnNameTag).value, col) == Str(name) && name != ""
    requires CellAt(g, TagRow(g, lim, DataTypeTag).value, col) in {Nil, Str("")}
    ensures ColumnMeta(g, lim, col) == Err(MissingType(name))
  {
  }

  /** A column without a name contributes nothing and never consults the type row. */
  lemma ColumnMetaUnnamed(g: Grid, lim: Limits, col: int)
    requires TagRow(g, lim, ColumnNameTag).Ok?
    requires CellAt(g, TagRow(g, lim, ColumnNameTag).value, col) in {Nil, Str("")}
    ensures ColumnMeta(g, lim, col) == Ok(None)
  {
  }

  /** Where a column scan ends, and which error it reports when it fails. */
  lemma {:induction false} ColumnScanEnd(g: Grid, lim: Limits, i: int, empty: nat, acc: seq<Column>)
    ensures var s := ColumnScan(g, lim, i, empty, acc);
      && i - 1 <= s.last
      && (s.last < i || s.last <= lim.availableColumns)
      && (i <= lim.availableColumns ==> i <= s.last)
      && (s.result.Err? ==> i <= s.last && ColumnMeta(g, lim, s.last) == Err(s.result.error))
      && (forall j :: i <= j < s.last ==> ColumnMeta(g, lim, j).Ok?)
    decreases lim.availableColumns + 1 - i
  {
    if i <= lim.availableColumns {
      match ColumnMeta(g, lim, i)
      case Err(e) =>
      case Ok(Some(c)) => ColumnScanEnd(g, lim, i + 1, 0, acc + [c]);
      case Ok(None) =>
        if empty + 1 < lim.quittingColumns {
          ColumnScanEnd(g, lim, i + 1, empty + 1, acc);
        }
    }
  }

  /**
   * A successful column scan keeps what it had, appends exactly the named
   * columns among those it examined, in order, and examined every column
   * from `i` to `last` without error.
   */
  lemma {:induction false} ColumnScanOk(g: Grid, lim: Limits, i: int, empty: nat, acc: seq<Column>)
    requires ColumnScan(g, lim, i, empty, acc).result.Ok?
    ensures var s := ColumnScan(g, lim, i, empty, acc);
      var cols := s.result.value;
      && |acc| <= |cols| && cols[..|acc|] == acc
      && (forall j :: i <= j <= s.last ==> ColumnMeta(g, lim, j).Ok?)
      && (forall k :: |acc| <= k < |cols| ==>
            i <= cols[k].index <= s.last && ColumnMeta(g, lim, cols[k].index) == Ok(Some(cols[k])))
      && (forall j :: i <= j <= s.last && ColumnMeta(g, lim, j).Ok? && ColumnMeta(g, lim, j).value.Some? ==>
            ColumnMeta(g, lim, j).value.value in cols[|acc|..])
    decreases lim.availableColumns + 1 - i
  {
    var s := ColumnScan(g, lim, i, empty, acc);
    if i <= lim.availableColumns {
      match ColumnMeta(g, lim, i)
      case Ok(Some(c)) =>
        ColumnScanOk(g, lim, i + 1, 0, acc + [c]);
        ColumnScanEnd(g, lim, i + 1, 0, acc + [c]);
        var cols := s.result.value;
        assert cols[..|acc| + 1] == acc + [c];
        assert cols[..|acc|] == (acc + [c])[..|acc|] == acc;
        assert cols[|acc|] == c;
        assert cols[|acc|..] == [c] + cols[|acc| + 1..];
        assert ColumnMeta(g, lim, i).value.value in cols[|acc|..];
      case Ok(None) =>
        if empty + 1 < lim.quittingColumns {
          ColumnScanOk(g, lim, i + 1, empty + 1, acc);
        }
    }
  }

  /** A scan that starts after every collected column keeps the collection ascending. */
  lemma {:induction false} ColumnScanAscending(g: Grid, lim: Limits, i: int, empty: nat, acc: seq<Column>)
    requires Ascending(acc) && forall k :: 0 <= k < |acc| ==> acc[k].index < i
    requires ColumnScan(g, lim, i, empty, acc).result.Ok?
    ensures Ascending(ColumnScan(g, lim, i, empty, acc).result.value)
    decreases lim.availableColumns + 1 - i
  {
    if i <= lim.availableColumns {
      match ColumnMeta(g, lim, i)
      case Ok(Some(c)) =>
        assert c.index == i;
        ColumnScanAscending(g, lim, i + 1, 0, acc + [c]);
      case Ok(None) =>
        if empty + 1 < lim.quittingColumns {
          ColumnScanAscending(g, lim, i + 1, empty + 1, acc);
        }
    }
  }

  /**
   * The column map of a sheet: its indices lie in 2..availableColumns and
   * ascend, every column has a non-empty name and type read from the header
   * rows, every named column up to the last one examined is in it, and no
   * column examined failed.
   */
  lemma ColumnsWellFormed(g: Grid, lim: Limits)
    requires Columns(g, lim).Ok?
    ensures var cols := Columns(g, lim).value;
      && Ascending(cols)
      && (LastColumn(g, lim) <= lim.availableColumns || LastColumn(g, lim) == 1)
      && (forall k :: 0 <= k < |cols| ==>
            2 <= cols[k].index <= LastColumn(g, lim) && cols[k].name != "" && cols[k].typ != ""
            && ColumnMeta(g, lim, cols[k].index) == Ok(Some(cols[k])))
      && (forall j :: 2 <= j <= LastColumn(g, lim) ==> ColumnMeta(g, lim, j).Ok?)
      && (forall j :: 2 <= j <= LastColumn(g, lim) && ColumnMeta(g, lim, j).value.Some? ==>
            ColumnMeta(g, lim, j).value.value in cols)
  {
    var cols := Columns(g, lim).value;
    ColumnScanOk(g, lim, 2, 0, []);
    ColumnScanEnd(g, lim, 2, 0, []);
    ColumnScanAscending(g, lim, 2, 0, []);
    assert cols[0..] == cols;
    forall k | 0 <= k < |cols|
      ensures cols[k].name != "" && cols[k].typ != ""
    {
      ColumnMetaNamed(g, lim, cols[k].index);
    }
  }

  /** A named column with no type, if examined, makes the whole column map fail. */
  lemma ColumnsRejectUntyped(g: Grid, lim: Limits, col: int, name: string)
    requires 2 <= col <= LastColumn(g, lim)
    requires TagRow(g, lim, ColumnNameTag).Ok? && TagRow(g, lim, DataTypeTag).Ok?
    requires CellAt(g, TagRow(g, lim, ColumnNameTag).value, col) == Str(name) && name != ""
    requires CellAt(g, TagRow(g, lim, DataTypeTag).value, col) in {Nil, Str("")}
    ensures Columns(g, lim).Err?
  {
    ColumnMetaUntyped(g, lim, col, name);
    if Columns(g, lim).Ok? {
      ColumnScanOk(g, lim, 2, 0, []);
    }
  }

  /** A scan meeting `quittingColumns - empty` unnamed columns ends at the last of them. */
  lemma {:induction false} ColumnBlankRun(g: Grid, lim: Limits, i: int, empty: nat, acc: seq<Column>)
    requires empty < lim.quittingColumns
    requires i + (lim.quittingColumns - 1 - empty) <= lim.availableColumns
    requires forall j :: i <= j <= i + (lim.quittingColumns - 1 - empty) ==> ColumnMeta(g, lim, j) == Ok(None)
    ensures ColumnScan(g, lim, i, empty, acc) == Scanned(Ok(acc), i + (lim.quittingColumns - 1 - empty))
    decreases lim.quittingColumns - empty
  {
    assert ColumnMeta(g, lim, i) == Ok(None);
    if empty + 1 < lim.quittingColumns {
      ColumnBlankRun(g, lim, i + 1, empty + 1, acc);
    }
  }

  /**
   * After a named column `k`, `quittingColumns` unnamed columns end the scan:
   * the counter is reset by the named column, the last column examined is
   * `k + quittingColumns`, and nothing after it is collected.
   */
  lemma ColumnScanStops(g: Grid, lim: Limits, k: int, empty: nat, acc: seq<Column>, c: Column)
    requires lim.quittingColumns >= 1 && k + lim.quittingColumns <= lim.availableColumns
    requires ColumnMeta(g, lim, k) == Ok(Some(c))
    requires forall j :: k < j <= k + lim.quittingColumns ==> ColumnMeta(g, lim, j) == Ok(None)
    ensures ColumnScan(g, lim, k, empty, acc) == Scanned(Ok(acc + [c]), k + lim.quittingColumns)
  {
    ColumnBlankRun(g, lim, k + 1, 0, acc + [c]);
  }

  /** Columns `a` to `a + n - 1` are all unnamed. */
  ghost predicate UnnamedRun(g: Grid, lim: Limits, a: int, n: int)
  {
    forall j :: a <= j < a + n ==> ColumnMeta(g, lim, j) == Ok(None)
  }

  /**
   * A successful column scan that stops before the last available column
   * stops on a run of unnamed columns: the `quittingColumns` columns up to
   * its last one, as far as they lie in the scan, are unnamed, and if the
   * run reaches back past `i` the counter it started with makes up the
   * difference.
   */
  lemma {:induction false} ColumnScanEndsOnRun(g: Grid, lim: Limits, i: int, empty: nat, acc: seq<Column>)
    requires empty < lim.quittingColumns
    requires ColumnScan(g, lim, i, empty, acc).result.Ok?
    requires ColumnScan(g, lim, i, empty, acc).last < lim.availableColumns
    ensures var s := ColumnScan(g, lim, i, empty, acc);
      var a := s.last - (lim.quittingColumns - 1);
      && (forall j :: i <= j && a <= j <= s.last ==> ColumnMeta(g, lim, j) == Ok(None))
      && (a < i ==> s.last - i + 1 + empty >= lim.quittingColumns)
    decreases lim.availableColumns + 1 - i
  {
    match ColumnMeta(g, lim, i)
    case Err(_) =>
    case Ok(None) =>
      if empty + 1 < lim.quittingColumns {
        ColumnScanEndsOnRun(g, lim, i + 1, empty + 1, acc);
      }
    case Ok(Some(c)) =>
      ColumnScanEndsOnRun(g, lim, i + 1, 0, acc + [c]);
  }

  /** No run of `quittingColumns` unnamed columns lies wholly before the last column a scan examines. */
  lemma {:induction false} ColumnScanNoEarlierRun(g: Grid, lim: Limits, i: int, empty: nat, acc: seq<Column>)
    requires empty < lim.quittingColumns
    ensures var s := ColumnScan(g, lim, i, empty, acc);
      forall k :: i <= k && k + (lim.quittingColumns - 1) < s.last ==> !UnnamedRun(g, lim, k, lim.quittingColumns)
    decreases lim.availableColumns + 1 - i
  {
    var s := ColumnScan(g, lim, i, empty, acc);
    if i <= lim.availableColumns {
      match ColumnMeta(g, lim, i)
      case Err(_) =>
      case Ok(None) =>
        if empty + 1 < lim.quittingColumns {
          ColumnScanNoEarlierRun(g, lim, i + 1, empty + 1, acc);
          ColumnScanEnd(g, lim, i + 1, empty + 1, acc);
          if i + (lim.quittingColumns - 1) < s.last && UnnamedRun(g, lim, i, lim.quittingColumns) {
            ColumnBlankRun(g, lim, i + 1, empty + 1, acc);
            assert false;
          }
        }
      case Ok(Some(c)) =>
        ColumnScanNoEarlierRun(g, lim, i + 1, 0, acc + [c]);
        assert !UnnamedRun(g, lim, i, lim.quittingColumns) by {
          assert ColumnMeta(g, lim, i) != Ok(None);
        }
    }
  }

  /**
   * `columns` ends at the first run of `quittingColumns` unnamed columns
   * from column 2, or at the last available column: when it stops earlier,
   * the `quittingColumns` columns up to its last column are unnamed and lie
   * from column 2 on, and no such run lies wholly before its last column.
   */
  lemma ColumnsStopOnRun(g: Grid, lim: Limits)
    requires lim.quittingColumns >= 1 && lim.availableColumns >= 2
    requires Columns(g, lim).Ok?
    ensures var last := LastColumn(g, lim);
      && 2 <= last <= lim.availableColumns
      && (last < lim.availableColumns ==>
            2 <= last - (lim.quittingColumns - 1) && UnnamedRun(g, lim, last - (lim.quittingColumns - 1), lim.quittingColumns))
      && (forall k :: 2 <= k && k + (lim.quittingColumns - 1) < last ==> !UnnamedRun(g, lim, k, lim.quittingColumns))
  {
    ColumnScanEnd(g, lim, 2, 0, []);
    ColumnScanNoEarlierRun(g, lim, 2, 0, []);
    if LastColumn(g, lim) < lim.availableColumns {
      ColumnScanEndsOnRun(g, lim, 2, 0, []);
    }
  }

  /**
   * When no run of unnamed columns precedes named column `k` and the
   * `quittingColumns` columns after it are unnamed, `columns` ends with
   * column `k` and its last examined column is `k + quittingColumns`.
   */
  lemma ColumnsStopAfterLast(g: Grid, lim: Limits, k: int, c: Column)
    requires lim.quittingColumns >= 1
    requires 2 <= k && k + lim.quittingColumns <= lim.availableColumns
    requires Columns(g, lim).Ok?
    requires forall a :: 2 <= a && a + (lim.quittingColumns - 1) < k ==> !UnnamedRun(g, lim, a, lim.quittingColumns)
    requires ColumnMeta(g, lim, k) == Ok(Some(c)) && UnnamedRun(g, lim, k + 1, lim.quittingColumns)
    ensures LastColumn(g, lim) == k + lim.quittingColumns
    ensures var cols := Columns(g, lim).value;
      |cols| > 0 && cols[|cols| - 1] == c
  {
    var q := lim.quittingColumns;
    var last := LastColumn(g, lim);
    ColumnsStopOnRun(g, lim);
    assert k <= last;
    assert k + q <= last by {
      assert ColumnMeta(g, lim, k) != Ok(None);
    }
    assert !(k + q < last) by {
      assert 2 <= k + 1;
    }
    ColumnsWellFormed(g, lim);
    var cols := Columns(g, lim).value;
    assert c in cols;
  }

  lemma ColumnMetaFrame(g: Grid, h: Grid, lim: Limits, col: int)
    requires 1 <= col && AgreeOnColumns(g, h, col)
    ensures ColumnMeta(g, lim, col) == ColumnMeta(h, lim, col)
  {
    FindTagFrame(g, h, lim, ColumnNameTag, 1);
    FindTagFrame(g, h, lim, DataTypeTag, 1);
  }

  /**
   * The column scan reads no column after the last one it examined: a sheet
   * that agrees on the columns up to it gives the same scan.
   */
  lemma {:induction false} ColumnScanFrame(g: Grid, h: Grid, lim: Limits, i: int, empty: nat, acc: seq<Column>)
    requires i >= 1
    requires AgreeOnColumns(g, h, ColumnScan(g, lim, i, empty, acc).last)
    ensures ColumnScan(g, lim, i, empty, acc) == ColumnScan(h, lim, i, empty, acc)
    decreases lim.availableColumns + 1 - i
  {
    var last := ColumnScan(g, lim, i, empty, acc).last;
    if i <= lim.availableColumns {
      ColumnScanEnd(g, lim, i, empty, acc);
      assert i <= last by {
        ColumnScanEnd(g, lim, i + 1, 0, []);
        ColumnScanEnd(g, lim, i + 1, empty + 1, acc);
        match ColumnMeta(g, lim, i)
        case Err(_) =>
        case Ok(Some(c)) => ColumnScanEnd(g, lim, i + 1, 0, acc + [c]);
        case Ok(None) =>
      }
      assert AgreeOnColumns(g, h, i);
      ColumnMetaFrame(g, h, lim, i);
      match ColumnMeta(g, lim, i)
      case Err(_) =>
      case Ok(Some(c)) => ColumnScanFrame(g, h, lim, i + 1, 0, acc + [c]);
      case Ok(None) =>
        if empty + 1 < lim.quittingColumns {
          ColumnScanFrame(g, h, lim, i + 1, empty + 1, acc);
        }
    }
  }

  /** The column map depends on no column after the last one examined. */
  lemma ColumnsFrame(g: Grid, h: Grid, lim: Limits)
    requires AgreeOnColumns(g, h, LastColumn(g, lim))
    ensures Columns(g, lim) == Columns(h, lim) && LastColumn(g, lim) == LastColumn(h, lim)
  {
    ColumnScanFrame(g, h, lim, 2, 0, []);
  }
}
