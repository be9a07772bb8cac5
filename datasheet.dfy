/**
 * The `DataSheet` object: a named sheet with the tag rows and the column
 * map it computes on first use and keeps (`||=`), and the loops of
 * `tag_row`, `columns`, `row` and `rows`. Each method is proved to compute
 * what the functions of Schema and Extract describe, so the properties
 * proved there hold of the object's answers.
 */
module Sheet {
  import opened Cells
  import opened Coerce
  import opened Schema
  import opened Extract

  /** A cache holds nothing, or the value the computation it stands for produces. */
  ghost predicate Memoized<T>(cache: Option<T>, computed: Result<T>)
  {
    cache.Some? ==> computed == Ok(cache.value)
  }

  /** A cache once filled keeps its value. */
  ghost predicate Grows<T>(before: Option<T>, after: Option<T>)
  {
    before.Some? ==> after == before
  }

  class DataSheet {
    const name: string
    const grid: Grid
    const limits: Limits

    var columnNameRow: Option<nat>     // @column_name_row
    var dataTypeRow: Option<nat>       // @data_type_row
    var dataStartRow: Option<nat>      // @data_start_row
    var columns: Option<seq<Column>>   // @columns

    /** Every cache that is filled holds what recomputing it would give. */
    ghost predicate Valid()
      reads this
    {
      && Memoized(columnNameRow, Schema.TagRow(grid, limits, ColumnNameTag))
      && Memoized(dataTypeRow, Schema.TagRow(grid, limits, DataTypeTag))
      && Memoized(dataStartRow, Schema.TagRow(grid, limits, DataStartTag))
      && Memoized(columns, Schema.Columns(grid, limits))
    }

    constructor(name: string, grid: Grid, limits: Limits)
      ensures Valid()
      ensures this.name == name && this.grid == grid && this.limits == limits
      ensures columnNameRow == None && dataTypeRow == None && dataStartRow == None && columns == None
    {
      this.name := name;
      this.grid := grid;
      this.limits := limits;
      columnNameRow := None;
      dataTypeRow := None;
      dataStartRow := None;
      columns := None;
    }

    /** `tag_row(tag)`: the first row of the window whose first cell is the tag. */
    method TagRow(tag: string) returns (r: Result<nat>)
      ensures r == Schema.TagRow(grid, limits, tag)
    {
      for i := 1 to limits.tagSearchRows + 1
        invariant FindTag(grid, limits, tag, i) == Schema.TagRow(grid, limits, tag)
      {
        if CellAt(grid, i, 1) == Str(tag) {
          return Ok(i);
        }
      }
      return Err(TagNotFound(tag));
    }

    /** `column_name_row`, computed once. */
    method ColumnNameRow() returns (r: Result<nat>)
      requires Valid()
      modifies this`columnNameRow
      ensures Valid() && r == Schema.TagRow(grid, limits, ColumnNameTag)
      ensures columnNameRow == if r.Ok? then Some(r.value) else old(columnNameRow)
    {
      if columnNameRow.Some? {
        return Ok(columnNameRow.value);
      }
      r := TagRow(ColumnNameTag);
      if r.Ok? {
        columnNameRow := Some(r.value);
      }
    }

    /** `data_type_row`, computed once. */
    method DataTypeRow() returns (r: Result<nat>)
      requires Valid()
      modifies this`dataTypeRow
      ensures Valid() && r == Schema.TagRow(grid, limits, DataTypeTag)
      ensures dataTypeRow == if r.Ok? then Some(r.value) else old(dataTypeRow)
    {
      if dataTypeRow.Some? {
        return Ok(dataTypeRow.value);
      }
      r := TagRow(DataTypeTag);
      if r.Ok? {
        dataTypeRow := Some(r.value);
      }
    }

    /** `data_start_row`, computed once. */
    method DataStartRow() returns (r: Result<nat>)
      requires Valid()
      modifies this`dataStartRow
      ensures Valid() && r == Schema.TagRow(grid, limits, DataStartTag)
      ensures dataStartRow == if r.Ok? then Some(r.value) else old(dataStartRow)
    {
      if dataStartRow.Some? {
        return Ok(dataStartRow.value);
      }
      r := TagRow(DataStartTag);
      if r.Ok? {
        dataStartRow := Some(r.value);
      }
    }

    /** `column_meta_data(col)`; the type row is looked up only for a named column. */
    method ColumnMetaData(col: int) returns (r: Result<Option<Column>>)
      requires Valid()
      modifies this`columnNameRow, this`dataTypeRow
      ensures Valid() && r == ColumnMeta(grid, limits, col)
      ensures Grows(old(columnNameRow), columnNameRow) && Grows(old(dataTypeRow), dataTypeRow)
      ensures r.Ok? ==> columnNameRow.Some?
      ensures r.Ok? && r.value.Some? ==> dataTypeRow.Some?
    {
      var nameRow := ColumnNameRow();
      if nameRow.Err? {
        return Err(nameRow.error);
      }
      var name := CellAt(grid, nameRow.value, col);
      if name == Nil || name == Str("") {
        return Ok(None);
      }
      if !name.Str? {
        return Err(HeaderNotText(nameRow.value, col));
      }
      var typeRow := DataTypeRow();
      if typeRow.Err? {
        return Err(typeRow.error);
      }
      var t := CellAt(grid, typeRow.value, col);
      if t == Nil || t == Str("") {
        return Err(MissingType(name.s));
      }
      if !t.Str? {
        return Err(HeaderNotText(typeRow.value, col));
      }
      return Ok(Some(Column(col, name.s, t.s)));
    }

    /**
     * `columns`, computed once: columns 2 onwards, stopping after
     * `quittingColumns` unnamed columns in a row.
     */
    method Columns() returns (r: Result<seq<Column>>)
      requires Valid()
      modifies this`columnNameRow, this`dataTypeRow, this`columns
      ensures Valid() && r == Schema.Columns(grid, limits)
      ensures r.Ok? ==> columns == Some(r.value)
      ensures Grows(old(columnNameRow), columnNameRow) && Grows(old(dataTypeRow), dataTypeRow)
      ensures Grows(old(columns), columns)
    {
      if columns.Some? {
        return Ok(columns.value);
      }
      var emptyCount: nat := 0;
      var acc: seq<Column> := [];
      var i := 2;
      while i <= limits.availableColumns
        invariant 2 <= i
        invariant ColumnScan(grid, limits, i, emptyCount, acc) == ColumnScan(grid, limits, 2, 0, [])
        invariant Valid() && columns == None
        invariant Grows(old(columnNameRow), columnNameRow) && Grows(old(dataTypeRow), dataTypeRow)
        decreases limits.availableColumns + 1 - i
      {
        var meta := ColumnMetaData(i);
        if meta.Err? {
          return Err(meta.error);
        }
        if meta.value.Some? {
          acc := acc + [meta.value.value];
          emptyCount := 0;
        } else {
          emptyCount := emptyCount + 1;
          if emptyCount >= limits.quittingColumns {
            break;
          }
        }
        i := i + 1;
      }
      columns := Some(acc);
      return Ok(acc);
    }

    /**
     * `row(r)`: the record of row `r` over the declared columns, or nothing
     * when every field is nil or "".
     */
    method Row(r: int) returns (res: Result<Option<Record>>)
      requires Valid()
      modifies this`columnNameRow, this`dataTypeRow, this`columns
      ensures Valid() && res == SheetRow(grid, limits, r)
      ensures res.Ok? ==> columns.Some?
      ensures Grows(old(columnNameRow), columnNameRow) && Grows(old(dataTypeRow), dataTypeRow)
      ensures Grows(old(columns), columns)
    {
      var cols := Columns();
      if cols.Err? {
        return Err(cols.error);
      }
      var data: Record := map[];
      for k := 0 to |cols.value|
        invariant BuildRecord(grid, cols.value[..k], r) == Ok(data)
      {
        var c := cols.value[k];
        var v := Convert(CellAt(grid, r, c.index), c.typ);
        assert cols.value[..k + 1][..k] == cols.value[..k];
        if v.Err? {
          BuildRecordKeepsError(grid, cols.value, r, k + 1);
          return Err(v.error);
        }
        data := data[c.name := v.value];
      }
      assert cols.value[..|cols.value|] == cols.value;
      if AllBlank(data) {
        return Ok(None);
      }
      return Ok(Some(data));
    }

    /**
     * `rows`: rows from the data start row on, keyed by id, until
     * `quittingRows` absent rows in a row or the last available row.
     */
    method Rows() returns (res: Result<RowMap>)
      requires Valid()
      modifies this`columnNameRow, this`dataTypeRow, this`dataStartRow, this`columns
      ensures Valid() && res == ExtractRows(grid, limits)
      ensures res.Ok? ==> dataStartRow.Some?
      ensures Grows(old(columnNameRow), columnNameRow) && Grows(old(dataTypeRow), dataTypeRow)
      ensures Grows(old(dataStartRow), dataStartRow) && Grows(old(columns), columns)
    {
      var start := DataStartRow();
      if start.Err? {
        return Err(start.error);
      }
      var emptyCount: nat := 0;
      var rows: RowMap := map[];
      var i := start.value;
      while i <= limits.availableRows
        invariant start.value <= i
        invariant i == start.value ==> emptyCount == 0 && rows == map[]
        invariant i > start.value ==> columns.Some?
        invariant i > start.value ==>
          ScanRows(grid, columns.value, limits, i, emptyCount, rows) == ScanRows(grid, columns.value, limits, start.value, 0, map[])
        invariant Valid() && dataStartRow.Some?
        invariant Grows(old(columnNameRow), columnNameRow) && Grows(old(dataTypeRow), dataTypeRow)
        invariant Grows(old(dataStartRow), dataStartRow) && Grows(old(columns), columns)
        decreases limits.availableRows + 1 - i
      {
        var row := Row(i);
        if row.Err? {
          return Err(row.error);
        }
        match row.value {
          case Some(rec) =>
            var id := IdOf(rec);
            if id == VNil {
              return Err(NilId);
            }
            if id in rows {
              return Err(DuplicateId(id));
            }
            rows := rows[id := rec];
            emptyCount := 0;
          case None =>
            emptyCount := emptyCount + 1;
            if emptyCount >= limits.quittingRows {
              break;
            }
        }
        i := i + 1;
      }
      return Ok(rows);
    }
  }

  /** Once a prefix of the columns fails to convert, the whole record fails with that error. */
  lemma {:induction false} BuildRecordKeepsError(g: Grid, cols: seq<Column>, r: int, n: int)
    requires 0 <= n <= |cols| && BuildRecord(g, cols[..n], r).Err?
    ensures BuildRecord(g, cols, r) == BuildRecord(g, cols[..n], r)
    decreases |cols|
  {
    if n < |cols| {
      var init := cols[..|cols| - 1];
      assert init[..n] == cols[..n];
      BuildRecordKeepsError(g, init, r, n);
    } else {
      assert cols[..n] == cols;
    }
  }
}
