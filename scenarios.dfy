/**
 * Worked sheets: a schema declared by tag rows 5, 6 and 8 with an `id`
 * column of type int and a `name` column of type string, and the outcome of
 * converting a well-formed sheet, a sheet with a repeated id and a sheet
 * with a row lacking its id, alone and together in one workbook.
 */
module Scenarios {
  import opened Cells
  import opened Schema
  import opened Extract
  import opened Workbook

  const IdColumn: Column := Column(2, "id", "int")
  const NameColumn: Column := Column(3, "name", "string")

  /** The header region: tags in column 1, names on row 5, types on row 6. */
  const Header: Grid := map[
    (5, 1) := Str("column_name"), (6, 1) := Str("data_type"), (8, 1) := Str("data_start"),
    (5, 2) := Str("id"), (6, 2) := Str("int"),
    (5, 3) := Str("name"), (6, 3) := Str("string")]

  /** One data row: id 7 (a Float cell, as spreadsheets store numbers), name "sword". */
  const OneRow: Grid := Header[(8, 2) := Flt(7.0)][(8, 3) := Str("sword")]

  /** A second row repeating id 7. */
  const RepeatedId: Grid := OneRow[(9, 2) := Flt(7.0)]

  /** A row with a name but no id. */
  const MissingId: Grid := Header[(8, 3) := Str("shield")]

  const SwordRecord: Record := map["id" := VInt(7), "name" := VStr("sword")]

  /** The cells of the header region that the schema is read from. */
  ghost predicate HasHeader(g: Grid)
  {
    && (forall j :: 1 <= j <= 4 ==> CellAt(g, j, 1) == Nil)
    && CellAt(g, 5, 1) == Str("column_name") && CellAt(g, 6, 1) == Str("data_type")
    && CellAt(g, 7, 1) == Nil && CellAt(g, 8, 1) == Str("data_start")
    && CellAt(g, 5, 2) == Str("id") && CellAt(g, 6, 2) == Str("int")
    && CellAt(g, 5, 3) == Str("name") && CellAt(g, 6, 3) == Str("string")
    && (forall j :: 4 <= j <= 13 ==> CellAt(g, 5, j) == Nil)
  }

  lemma HeaderTagRows(g: Grid)
    requires HasHeader(g)
    ensures TagRow(g, DefaultLimits, ColumnNameTag) == Ok(5)
    ensures TagRow(g, DefaultLimits, DataTypeTag) == Ok(6)
    ensures TagRow(g, DefaultLimits, DataStartTag) == Ok(8)
  {
    TagRowOfFirst(g, DefaultLimits, ColumnNameTag, 5);
    TagRowOfFirst(g, DefaultLimits, DataTypeTag, 6);
    TagRowOfFirst(g, DefaultLimits, DataStartTag, 8);
  }

  /** A sheet with the header region has the worked schema, examined up to column 13. */
  lemma HeaderSchema(g: Grid)
    requires HasHeader(g)
    ensures TagRow(g, DefaultLimits, DataStartTag) == Ok(8)
    ensures Columns(g, DefaultLimits) == Ok([IdColumn, NameColumn])
    ensures LastColumn(g, DefaultLimits) == 13
  {
    var lim := DefaultLimits;
    HeaderTagRows(g);
    assert ColumnMeta(g, lim, 2) == Ok(Some(IdColumn));
    assert ColumnMeta(g, lim, 3) == Ok(Some(NameColumn));
    forall j | 3 < j <= 13
      ensures ColumnMeta(g, lim, j) == Ok(None)
    {
      ColumnMetaUnnamed(g, lim, j);
    }
    assert ColumnScan(g, lim, 2, 0, []) == ColumnScan(g, lim, 3, 0, [IdColumn]) by {
      assert [] + [IdColumn] == [IdColumn];
    }
    ColumnScanStops(g, lim, 3, 0, [IdColumn], NameColumn);
    assert [IdColumn] + [NameColumn] == [IdColumn, NameColumn];
  }

  lemma HeaderLaidOut()
    ensures HasHeader(OneRow) && HasHeader(RepeatedId) && HasHeader(MissingId)
  {
    HeaderCells();
    forall r, c | r < 8
      ensures CellAt(OneRow, r, c) == CellAt(Header, r, c)
      ensures CellAt(RepeatedId, r, c) == CellAt(Header, r, c)
      ensures CellAt(MissingId, r, c) == CellAt(Header, r, c)
    {
    }
  }

  lemma HeaderCells()
    ensures HasHeader(Header)
  {
    forall j | 1 <= j <= 4
      ensures CellAt(Header, j, 1) == Nil
    {
      assert (j, 1) !in Header;
    }
    forall j | 4 <= j <= 13
      ensures CellAt(Header, 5, j) == Nil
    {
      assert (5, j) !in Header;
    }
  }

  /** Below row 8, the well-formed sheet has no cell in columns 2 and 3. */
  lemma OneRowBlankBelow(j: int)
    requires 8 < j
    ensures CellAt(OneRow, j, 2) == Nil && CellAt(OneRow, j, 3) == Nil
  {
  }


  /** Under the worked schema a row is read from its cells in columns 2 and 3. */
  lemma RecordOf(g: Grid, j: int, id: Value, name: Value)
    requires Field(g, IdColumn, j) == Ok(id) && Field(g, NameColumn, j) == Ok(name)
    ensures BuildRecord(g, [IdColumn, NameColumn], j) == Ok(map["id" := id, "name" := name])
  {
    var cols := [IdColumn, NameColumn];
    assert cols[..1] == [IdColumn] && cols[..1][..0] == [];
    assert BuildRecord(g, cols[..1], j) == Ok(map["id" := id]);
  }

  /** Rows whose cells in columns 2 and 3 are empty are absent under the worked schema. */
  lemma EmptyRowAbsent(g: Grid, j: int)
    requires CellAt(g, j, 2) == Nil && CellAt(g, j, 3) == Nil
    ensures RowAt(g, [IdColumn, NameColumn], j) == Ok(None)
  {
    RecordOf(g, j, VNil, VStr(""));
  }

  /** The well-formed sheet gives one record under id 7, and row 58 is the last one examined. */
  lemma OneRowExtracted()
    ensures ExtractRows(OneRow, DefaultLimits) == Ok(map[VInt(7) := SwordRecord])
    ensures ScanRows(OneRow, [IdColumn, NameColumn], DefaultLimits, 8, 0, map[]).last == 58
  {
    var cols := [IdColumn, NameColumn];
    HeaderLaidOut();
    HeaderSchema(OneRow);
    forall j | 8 < j <= 58
      ensures RowAt(OneRow, cols, j) == Ok(None)
    {
      OneRowBlankBelow(j);
      EmptyRowAbsent(OneRow, j);
    }
    RecordOf(OneRow, 8, VInt(7), VStr("sword"));
    assert RowAt(OneRow, cols, 8) == Ok(Some(SwordRecord)) by {
      assert !Blank(SwordRecord["name"]);
    }
    ScanRowsStops(OneRow, cols, DefaultLimits, 8, 0, map[], SwordRecord);
  }

  /** Two rows with id 7: the sheet fails with DuplicateId and yields no map. */
  lemma RepeatedIdRejected()
    ensures ExtractRows(RepeatedId, DefaultLimits) == Err(DuplicateId(VInt(7)))
  {
    var cols := [IdColumn, NameColumn];
    HeaderLaidOut();
    HeaderSchema(RepeatedId);
    RecordOf(RepeatedId, 8, VInt(7), VStr("sword"));
    assert RowAt(RepeatedId, cols, 8) == Ok(Some(SwordRecord)) by {
      assert !Blank(SwordRecord["name"]);
    }
    var second := map["id" := VInt(7), "name" := VStr("")];
    RecordOf(RepeatedId, 9, VInt(7), VStr(""));
    assert RowAt(RepeatedId, cols, 9) == Ok(Some(second)) by {
      assert !Blank(second["id"]);
    }
  }

  /** A present row without an id: the sheet fails with NilId. */
  lemma MissingIdRejected()
    ensures ExtractRows(MissingId, DefaultLimits) == Err(NilId)
  {
    var cols := [IdColumn, NameColumn];
    HeaderLaidOut();
    HeaderSchema(MissingId);
    var rec := map["id" := VNil, "name" := VStr("shield")];
    RecordOf(MissingId, 8, VNil, VStr("shield"));
    assert RowAt(MissingId, cols, 8) == Ok(Some(rec)) by {
      assert !Blank(rec["name"]);
    }
  }

  /**
   * A workbook with the well-formed sheet A, a notes sheet and sheet B
   * lacking an id: the notes sheet is skipped, A keeps its records and B
   * alone reports its failure.
   */
  lemma TwoSheetWorkbook()
    ensures var book := Book(["A", "Notes!", "B"], map["A" := OneRow, "Notes!" := Header, "B" := MissingId]);
      ConvertBook(book, DefaultLimits) == [("A", Ok(map[VInt(7) := SwordRecord])), ("B", Err(NilId))]
  {
    var book := Book(["A", "Notes!", "B"], map["A" := OneRow, "Notes!" := Header, "B" := MissingId]);
    DataSheetNameOneLine("Notes!");
    DataSheetNameOneLine("A");
    DataSheetNameOneLine("B");
    assert !IsWordName("Notes!") by { assert !IsWordChar("Notes!"[5]); }
    assert book.sheetNames[1..][1..][1..] == [];
    assert DataSheetNames(book.sheetNames) == ["A", "B"];
    OneRowExtracted();
    MissingIdRejected();
  }
}
