/**
 * Row extraction: `DataSheet#row` turns one sheet row into a record keyed by
 * column name, and `DataSheet#rows` walks the data rows from the
 * `data_start` row, keying each present row by its `id` field, until a run
 * of absent rows or the last available row.
 */
module Extract {
  import opened Cells
  import opened Coerce
  import opened Schema

  /** One output record: field name to coerced value. */
  type Record = map<string, Value>

  /** The result of a sheet: id to record. */
  type RowMap = map<Value, Record>

  /** The coerced value of column `c` in row `r`. */
  function Field(g: Grid, c: Column, r: int): Result<Value>
  {
    Convert(CellAt(g, r, c.index), c.typ)
  }

  /**
   * The record `row` builds, column by column in order; a later column with
   * the same name overwrites an earlier one, and the first failing
   * conversion is the error.
   */
  function BuildRecord(g: Grid, cols: seq<Column>, r: int): Result<Record>
    decreases |cols|
  {
    if cols == [] then Ok(map[])
    else
      match BuildRecord(g, cols[..|cols| - 1], r)
      case Err(e) => Err(e)
      case Ok(m) =>
        var c := cols[|cols| - 1];
        match Field(g, c, r)
        case Err(e) => Err(e)
        case Ok(v) => Ok(m[c.name := v])
  }

  predicate AllBlank(rec: Record)
  {
    forall k | k in rec :: Blank(rec[k])
  }

  /** `row(r)`: the record, or nothing when every field of it is nil or "". */
  function RowAt(g: Grid, cols: seq<Column>, r: int): Result<Option<Record>>
  {
    match BuildRecord(g, cols, r)
    case Err(e) => Err(e)
    case Ok(m) => if AllBlank(m) then Ok(None) else Ok(Some(m))
  }

  /** The `id` field of a record; a record without one has a nil id. */
  function IdOf(rec: Record): Value
  {
    if "id" in rec then rec["id"] else VNil
  }

  /**
   * The loop of `rows` from row `i`, having seen `empty` absent rows in a
   * row and collected `acc`; `last` is the last row examined.
   */
  function ScanRows(g: Grid, cols: seq<Column>, lim: Limits, i: int, empty: nat, acc: RowMap): Scanned<RowMap>
    decreases lim.availableRows + 1 - i
  {
    if i > lim.availableRows then Scanned(Ok(acc), i - 1)
    else
      match RowAt(g, cols, i)
      case Err(e) => Scanned(Err(e), i)
      case Ok(None) =>
        if empty + 1 >= lim.quittingRows then Scanned(Ok(acc), i)
        else ScanRows(g, cols, lim, i + 1, empty + 1, acc)
      case Ok(Some(rec)) =>
        if IdOf(rec) == VNil then Scanned(Err(NilId), i)
        else if IdOf(rec) in acc then Scanned(Err(DuplicateId(IdOf(rec))), i)
        else ScanRows(g, cols, lim, i + 1, 0, acc[IdOf(rec) := rec])
  }

  /** `row(r)` as the sheet computes it, the column map included. */
  function SheetRow(g: Grid, lim: Limits, r: int): Result<Option<Record>>
  {
    match Columns(g, lim)
    case Err(e) => Err(e)
    case Ok(cols) => RowAt(g, cols, r)
  }

  /**
   * `rows`: the data start row is located first; the column map is first
   * needed by the first row examined, so a sheet whose data start lies past
   * the last available row has no rows and no column errors.
   */
  function ExtractRows(g: Grid, lim: Limits): Result<RowMap>
  {
    match TagRow(g, lim, DataStartTag)
    case Err(e) => Err(e)
    case Ok(start) =>
      if start > lim.availableRows then Ok(map[])
      else
        match Columns(g, lim)
        case Err(e) => Err(e)
        case Ok(cols) => ScanRows(g, cols, lim, start, 0, map[]).result
  }

  /** Every key is a non-nil id, and its record is a present row whose id is that key. */
  ghost predicate Keyed(m: RowMap)
  {
    forall k | k in m :: k != VNil && IdOf(m[k]) == k && !AllBlank(m[k])
  }

  /** Column `j` is the last column of its name, the one whose value the record keeps. */
  ghost predicate LastOfName(cols: seq<Column>, j: int)
    requires 0 <= j < |cols|
  {
    forall k :: j < k < |cols| ==> cols[k].name != cols[j].name
  }

  ghost predicate DistinctNames(cols: seq<Column>)
  {
    forall a, b :: 0 <= a < b < |cols| ==> cols[a].name != cols[b].name
  }

  /** Building a record succeeds exactly when every column converts. */
  lemma {:induction false} BuildRecordOk(g: Grid, cols: seq<Column>, r: int)
    ensures BuildRecord(g, cols, r).Ok? <==> forall j :: 0 <= j < |cols| ==> Field(g, cols[j], r).Ok?
    decreases |cols|
  {
    if cols != [] {
      var init := cols[..|cols| - 1];
      BuildRecordOk(g, init, r);
      assert forall j :: 0 <= j < |init| ==> init[j] == cols[j];
    }
  }

  /** A failed record reports the error of the first column that does not convert. */
  lemma {:induction false} BuildRecordFirstError(g: Grid, cols: seq<Column>, r: int)
    requires BuildRecord(g, cols, r).Err?
    ensures exists j :: 0 <= j < |cols| && Field(g, cols[j], r) == Err(BuildRecord(g, cols, r).error)
                     && (forall k :: 0 <= k < j ==> Field(g, cols[k], r).Ok?)
    decreases |cols|
  {
    var init := cols[..|cols| - 1];
    assert forall j :: 0 <= j < |init| ==> init[j] == cols[j];
    if BuildRecord(g, init, r).Err? {
      BuildRecordFirstError(g, init, r);
      var j :| 0 <= j < |init| && Field(g, init[j], r) == Err(BuildRecord(g, init, r).error)
        && forall k :: 0 <= k < j ==> Field(g, init[k], r).Ok?;
      assert Field(g, cols[j], r) == Err(BuildRecord(g, cols, r).error);
    } else {
      BuildRecordOk(g, init, r);
      assert Field(g, cols[|cols| - 1], r) == Err(BuildRecord(g, cols, r).error);
    }
  }

  function Names(cols: seq<Column>): set<string>
  {
    set c | c in cols :: c.name
  }

  /**
   * A built record has one field per distinct column name, holding the
   * value of the last column of that name.
   */
  lemma {:induction false} BuildRecordFields(g: Grid, cols: seq<Column>, r: int)
    requires BuildRecord(g, cols, r).Ok?
    ensures var m := BuildRecord(g, cols, r).value;
      && m.Keys == Names(cols)
      && forall j :: 0 <= j < |cols| && LastOfName(cols, j) ==> Field(g, cols[j], r) == Ok(m[cols[j].name])
    decreases |cols|
  {
    if cols != [] {
      var init := cols[..|cols| - 1];
      var c := cols[|cols| - 1];
      assert forall j :: 0 <= j < |init| ==> init[j] == cols[j];
      assert cols == init + [c];
      BuildRecordFields(g, init, r);
      var m0 := BuildRecord(g, init, r).value;
      var m := BuildRecord(g, cols, r).value;
      assert Field(g, c, r).Ok?;
      assert m == m0[c.name := Field(g, c, r).value];
      assert Names(cols) == Names(init) + {c.name};
      forall j | 0 <= j < |cols| && LastOfName(cols, j)
        ensures Field(g, cols[j], r) == Ok(m[cols[j].name])
      {
        if j < |init| {
          assert LastOfName(init, j);
          assert cols[j].name != c.name;
        }
      }
    }
  }

  /**
   * A row whose columns all convert is absent exactly when the value each
   * field keeps (that of the last column of its name) is nil or "".
   */
  lemma RowAbsentIff(g: Grid, cols: seq<Column>, r: int)
    requires forall j :: 0 <= j < |cols| ==> Field(g, cols[j], r).Ok?
    ensures RowAt(g, cols, r).Ok?
    ensures RowAt(g, cols, r) == Ok(None) <==>
      forall j :: 0 <= j < |cols| && LastOfName(cols, j) ==> Blank(Field(g, cols[j], r).value)
  {
    BuildRecordOk(g, cols, r);
    BuildRecordFields(g, cols, r);
    var m := BuildRecord(g, cols, r).value;
    if forall j :: 0 <= j < |cols| && LastOfName(cols, j) ==> Blank(Field(g, cols[j], r).value) {
      forall k | k in m
        ensures Blank(m[k])
      {
        assert k in Names(cols);
        var c :| c in cols && c.name == k;
        var j :| 0 <= j < |cols| && cols[j] == c;
        var jl := LastIndexOfName(cols, j);
        assert Blank(Field(g, cols[jl], r).value);
      }
    }
  }

  /** The last column carrying the name of column `j`. */
  lemma {:induction false} LastIndexOfName(cols: seq<Column>, j: int) returns (jl: int)
    requires 0 <= j < |cols|
    ensures j <= jl < |cols| && cols[jl].name == cols[j].name && LastOfName(cols, jl)
    decreases |cols| - j
  {
    if exists k :: j < k < |cols| && cols[k].name == cols[j].name {
      var k :| j < k < |cols| && cols[k].name == cols[j].name;
      jl := LastIndexOfName(cols, k);
    } else {
      jl := j;
    }
  }

  /** With distinct column names, a row is absent exactly when every column converts to nil or "". */
  lemma RowAbsentDistinct(g: Grid, cols: seq<Column>, r: int)
    requires DistinctNames(cols)
    requires forall j :: 0 <= j < |cols| ==> Field(g, cols[j], r).Ok?
    ensures RowAt(g, cols, r) == Ok(None) <==> forall j :: 0 <= j < |cols| ==> Blank(Field(g, cols[j], r).value)
  {
    RowAbsentIff(g, cols, r);
    assert forall j :: 0 <= j < |cols| ==> LastOfName(cols, j);
  }

  /** Without columns every row is absent. */
  lemma NoColumnsNoRows(g: Grid, r: int)
    ensures RowAt(g, [], r) == Ok(None)
  {
  }

  /**
   * Two columns of one name: the later one's nil hides the earlier one's
   * text, so the row counts as absent although a column holds data.
   */
  lemma DuplicateNameHidesData()
    ensures var cols := [Column(2, "x", "string"), Column(3, "x", "int")];
      var g: Grid := map[(5, 2) := Str("a")];
      && Field(g, cols[0], 5) == Ok(VStr("a"))
      && RowAt(g, cols, 5) == Ok(None)
  {
    var cols := [Column(2, "x", "string"), Column(3, "x", "int")];
    var g: Grid := map[(5, 2) := Str("a")];
    assert cols[..1] == [Column(2, "x", "string")] && cols[..1][..0] == [];
    assert Field(g, cols[0], 5) == Ok(VStr("a"));
    assert BuildRecord(g, cols[..1], 5) == Ok(map["x" := VStr("a")]);
    assert Field(g, cols[1], 5) == Ok(VNil);
    assert BuildRecord(g, cols, 5) == Ok(map["x" := VStr("a")]["x" := VNil]);
    assert map["x" := VStr("a")]["x" := VNil] == map["x" := VNil];
  }

  /** Reading a row looks at no other row. */
  lemma {:induction false} BuildRecordFrame(g: Grid, h: Grid, cols: seq<Column>, r: int)
    requires forall c :: CellAt(g, r, c) == CellAt(h, r, c)
    ensures BuildRecord(g, cols, r) == BuildRecord(h, cols, r)
    decreases |cols|
  {
    if cols != [] {
      BuildRecordFrame(g, h, cols[..|cols| - 1], r);
    }
  }

  /** Some present row from `i` up to but not including `j` has the id `id`. */
  ghost predicate TakenBetween(g: Grid, cols: seq<Column>, i: int, j: int, id: Value)
  {
    exists j' :: i <= j' < j && RowAt(g, cols, j').Ok? && RowAt(g, cols, j').value.Some?
                 && IdOf(RowAt(g, cols, j').value.value) == id
  }

  /**
   * Row `j` can end a scan begun at row `i` with `acc` with error `e`: its
   * own conversion error, a nil id, or an id already taken, in `acc` or by
   * an earlier examined row.
   */
  ghost predicate FailsAt(g: Grid, cols: seq<Column>, i: int, acc: RowMap, j: int, e: Error)
  {
    match RowAt(g, cols, j)
    case Err(e') => e == e'
    case Ok(None) => false
    case Ok(Some(rec)) =>
      if IdOf(rec) == VNil then e == NilId
      else e == DuplicateId(IdOf(rec)) && (IdOf(rec) in acc || TakenBetween(g, cols, i, j, IdOf(rec)))
  }

  /**
   * The last row a scan examines lies between `i - 1` and the last available
   * row. These are the first two conjuncts of `ScanRowsEnd`, kept as a
   * lighter lemma so that `ScanRowsOk` and `ScanRowsNewKeys` stay within
   * the solver's budget.
   */
  lemma {:induction false} ScanRowsLast(g: Grid, cols: seq<Column>, lim: Limits, i: int, empty: nat, acc: RowMap)
    ensures var s := ScanRows(g, cols, lim, i, empty, acc);
      && i - 1 <= s.last
      && (i <= lim.availableRows ==> i <= s.last <= lim.availableRows)
    decreases lim.availableRows + 1 - i
  {
    if i <= lim.availableRows {
      match RowAt(g, cols, i)
      case Err(e) =>
      case Ok(None) =>
        if empty + 1 < lim.quittingRows {
          ScanRowsLast(g, cols, lim, i + 1, empty + 1, acc);
        }
      case Ok(Some(rec)) =>
        var id := IdOf(rec);
        if id != VNil && id !in acc {
          ScanRowsLast(g, cols, lim, i + 1, 0, acc[id := rec]);
        }
    }
  }

  /** Where a row scan ends, and which error it reports when it fails. */
  lemma {:induction false} ScanRowsEnd(g: Grid, cols: seq<Column>, lim: Limits, i: int, empty: nat, acc: RowMap)
    ensures var s := ScanRows(g, cols, lim, i, empty, acc);
      && i - 1 <= s.last
      && (i <= lim.availableRows ==> i <= s.last <= lim.availableRows)
      && (s.result.Err? ==> i <= s.last && FailsAt(g, cols, i, acc, s.last, s.result.error))
      && (forall j :: i <= j < s.last ==> RowAt(g, cols, j).Ok?)
    decreases lim.availableRows + 1 - i
  {
    if i <= lim.availableRows {
      match RowAt(g, cols, i)
      case Err(e) =>
      case Ok(None) =>
        if empty + 1 < lim.quittingRows {
          ScanRowsEnd(g, cols, lim, i + 1, empty + 1, acc);
          var s := ScanRows(g, cols, lim, i + 1, empty + 1, acc);
          if s.result.Err? && s.last > i {
            match RowAt(g, cols, s.last)
            case Err(_) =>
            case Ok(None) =>
            case Ok(Some(r)) =>
              if IdOf(r) != VNil && IdOf(r) !in acc {
                var j' :| i + 1 <= j' < s.last && RowAt(g, cols, j').Ok? && RowAt(g, cols, j').value.Some?
                          && IdOf(RowAt(g, cols, j').value.value) == IdOf(r);
                assert i <= j' < s.last;
              }
          }
        }
      case Ok(Some(rec)) =>
        var id := IdOf(rec);
        if id != VNil && id !in acc {
          var acc' := acc[id := rec];
          ScanRowsEnd(g, cols, lim, i + 1, 0, acc');
          var s := ScanRows(g, cols, lim, i + 1, 0, acc');
          if s.result.Err? {
            match RowAt(g, cols, s.last)
            case Err(_) =>
            case Ok(None) =>
            case Ok(Some(r)) =>
              if IdOf(r) != VNil && IdOf(r) !in acc {
                if IdOf(r) == id {
                  assert i <= i < s.last && RowAt(g, cols, i) == Ok(Some(rec));
                } else {
                  var j' :| i + 1 <= j' < s.last && RowAt(g, cols, j').Ok? && RowAt(g, cols, j').value.Some?
                            && IdOf(RowAt(g, cols, j').value.value) == IdOf(r);
                  assert i <= j' < s.last;
                }
              }
          }
        }
    }
  }

  /**
   * Row `j` does not stop a scan begun at row `i` with `acc`: it converts,
   * and when present its id is non-nil and taken neither in `acc` nor by an
   * earlier examined row.
   */
  ghost predicate PassesAt(g: Grid, cols: seq<Column>, i: int, acc: RowMap, j: int)
  {
    match RowAt(g, cols, j)
    case Err(_) => false
    case Ok(None) => true
    case Ok(Some(rec)) =>
      IdOf(rec) != VNil && IdOf(rec) !in acc && !TakenBetween(g, cols, i, j, IdOf(rec))
  }

  /**
   * Every row a scan examines before its last one passes: a failing scan
   * reports the error of the first offending row.
   */
  lemma {:induction false} ScanRowsFirstOffender(g: Grid, cols: seq<Column>, lim: Limits, i: int, empty: nat, acc: RowMap)
    ensures var s := ScanRows(g, cols, lim, i, empty, acc);
      forall j :: i <= j < s.last ==> PassesAt(g, cols, i, acc, j)
    decreases lim.availableRows + 1 - i
  {
    if i <= lim.availableRows {
      match RowAt(g, cols, i)
      case Err(e) =>
      case Ok(None) =>
        if empty + 1 < lim.quittingRows {
          ScanRowsFirstOffender(g, cols, lim, i + 1, empty + 1, acc);
          var s := ScanRows(g, cols, lim, i + 1, empty + 1, acc);
          forall j | i <= j < s.last
            ensures PassesAt(g, cols, i, acc, j)
          {
            if j > i {
              assert PassesAt(g, cols, i + 1, acc, j);
              match RowAt(g, cols, j)
              case Err(_) =>
              case Ok(None) =>
              case Ok(Some(r)) =>
                if TakenBetween(g, cols, i, j, IdOf(r)) {
                  var j' :| i <= j' < j && RowAt(g, cols, j').Ok? && RowAt(g, cols, j').value.Some?
                            && IdOf(RowAt(g, cols, j').value.value) == IdOf(r);
                  assert j' != i;
                  assert TakenBetween(g, cols, i + 1, j, IdOf(r));
                }
            }
          }
        }
      case Ok(Some(rec)) =>
        var id := IdOf(rec);
        if id != VNil && id !in acc {
          var acc' := acc[id := rec];
          ScanRowsFirstOffender(g, cols, lim, i + 1, 0, acc');
          var s := ScanRows(g, cols, lim, i + 1, 0, acc');
          forall j | i <= j < s.last
            ensures PassesAt(g, cols, i, acc, j)
          {
            if j > i {
              assert PassesAt(g, cols, i + 1, acc', j);
              match RowAt(g, cols, j)
              case Err(_) =>
              case Ok(None) =>
              case Ok(Some(r)) =>
                assert IdOf(r) !in acc';
            }
          }
        }
    }
  }

  /**
   * A successful row scan keeps what it had, examined every row from `i`
   * to `last` without error, and put every present row it examined under
   * its id, which is non-nil and new.
   */
  lemma {:induction false} ScanRowsOk(g: Grid, cols: seq<Column>, lim: Limits, i: int, empty: nat, acc: RowMap)
    requires ScanRows(g, cols, lim, i, empty, acc).result.Ok?
    ensures var s := ScanRows(g, cols, lim, i, empty, acc);
      var m := s.result.value;
      && (forall k | k in acc :: k in m && m[k] == acc[k])
      && (forall j :: i <= j <= s.last ==> RowAt(g, cols, j).Ok?)
      && (forall j :: i <= j <= s.last && RowAt(g, cols, j).Ok? && RowAt(g, cols, j).value.Some? ==>
            var rec := RowAt(g, cols, j).value.value;
            IdOf(rec) != VNil && IdOf(rec) !in acc && IdOf(rec) in m && m[IdOf(rec)] == rec)
    decreases lim.availableRows + 1 - i
  {
    var s := ScanRows(g, cols, lim, i, empty, acc);
    var m := s.result.value;
    if i <= lim.availableRows {
      match RowAt(g, cols, i)
      case Ok(None) =>
        if empty + 1 < lim.quittingRows {
          ScanRowsOk(g, cols, lim, i + 1, empty + 1, acc);
        }
      case Ok(Some(rec)) =>
        var id := IdOf(rec);
        var acc' := acc[id := rec];
        ScanRowsOk(g, cols, lim, i + 1, 0, acc');
        ScanRowsLast(g, cols, lim, i + 1, 0, acc');
        assert m[id] == rec;
        forall j | i <= j <= s.last && RowAt(g, cols, j).Ok? && RowAt(g, cols, j).value.Some?
          ensures var r := RowAt(g, cols, j).value.value;
            IdOf(r) != VNil && IdOf(r) !in acc && IdOf(r) in m && m[IdOf(r)] == r
        {
          if j > i {
            var r := RowAt(g, cols, j).value.value;
            assert IdOf(r) !in acc';
          }
        }
    }
  }

  /** Every key a successful row scan adds comes from a present row it examined. */
  lemma {:induction false} ScanRowsNewKeys(g: Grid, cols: seq<Column>, lim: Limits, i: int, empty: nat, acc: RowMap)
    requires ScanRows(g, cols, lim, i, empty, acc).result.Ok?
    ensures var s := ScanRows(g, cols, lim, i, empty, acc);
      var m := s.result.value;
      forall k | k in m && k !in acc :: exists j :: i <= j <= s.last && RowAt(g, cols, j) == Ok(Some(m[k])) && IdOf(m[k]) == k
    decreases lim.availableRows + 1 - i
  {
    var s := ScanRows(g, cols, lim, i, empty, acc);
    var m := s.result.value;
    if i <= lim.availableRows {
      match RowAt(g, cols, i)
      case Ok(None) =>
        if empty + 1 < lim.quittingRows {
          ScanRowsNewKeys(g, cols, lim, i + 1, empty + 1, acc);
        }
      case Ok(Some(rec)) =>
        var id := IdOf(rec);
        var acc' := acc[id := rec];
        ScanRowsNewKeys(g, cols, lim, i + 1, 0, acc');
        ScanRowsOk(g, cols, lim, i + 1, 0, acc');
        ScanRowsLast(g, cols, lim, i + 1, 0, acc');
        forall k | k in m && k !in acc
          ensures exists j :: i <= j <= s.last && RowAt(g, cols, j) == Ok(Some(m[k])) && IdOf(m[k]) == k
        {
          if k == id {
            assert RowAt(g, cols, i) == Ok(Some(m[k]));
          } else {
            assert k !in acc';
          }
        }
    }
  }

  /** A scan that starts from a keyed collection ends with a keyed one. */
  lemma ScanRowsKeyed(g: Grid, cols: seq<Column>, lim: Limits, i: int, empty: nat, acc: RowMap)
    requires Keyed(acc)
    requires ScanRows(g, cols, lim, i, empty, acc).result.Ok?
    ensures Keyed(ScanRows(g, cols, lim, i, empty, acc).result.value)
  {
    ScanRowsOk(g, cols, lim, i, empty, acc);
    ScanRowsNewKeys(g, cols, lim, i, empty, acc);
    var s := ScanRows(g, cols, lim, i, empty, acc);
    var m := s.result.value;
    forall k | k in m
      ensures k != VNil && IdOf(m[k]) == k && !AllBlank(m[k])
    {
      if k !in acc {
        var j :| i <= j <= s.last && RowAt(g, cols, j) == Ok(Some(m[k])) && IdOf(m[k]) == k;
      }
    }
  }

  /** Once an id is taken, a later examined row with that id makes the scan fail. */
  lemma {:induction false} ScanRowsRejectsTaken(g: Grid, cols: seq<Column>, lim: Limits, i: int, empty: nat, acc: RowMap, j: int, rec: Record)
    requires IdOf(rec) in acc
    requires i <= j <= ScanRows(g, cols, lim, i, empty, acc).last
    requires RowAt(g, cols, j) == Ok(Some(rec))
    ensures ScanRows(g, cols, lim, i, empty, acc).result.Err?
    decreases lim.availableRows + 1 - i
  {
    if i <= lim.availableRows && j > i {
      match RowAt(g, cols, i)
      case Err(_) =>
      case Ok(None) =>
        if empty + 1 < lim.quittingRows {
          ScanRowsRejectsTaken(g, cols, lim, i + 1, empty + 1, acc, j, rec);
        }
      case Ok(Some(r)) =>
        if IdOf(r) != VNil && IdOf(r) !in acc {
          ScanRowsRejectsTaken(g, cols, lim, i + 1, 0, acc[IdOf(r) := r], j, rec);
        }
    }
  }

  /** Two examined present rows with the same id make the scan fail: no map is returned. */
  lemma {:induction false} ScanRowsRejectsDuplicate(g: Grid, cols: seq<Column>, lim: Limits, i: int, empty: nat, acc: RowMap,
                                                   j1: int, j2: int, r1: Record, r2: Record)
    requires i <= j1 < j2 <= ScanRows(g, cols, lim, i, empty, acc).last
    requires RowAt(g, cols, j1) == Ok(Some(r1)) && RowAt(g, cols, j2) == Ok(Some(r2))
    requires IdOf(r1) == IdOf(r2)
    ensures ScanRows(g, cols, lim, i, empty, acc).result.Err?
    decreases lim.availableRows + 1 - i
  {
    ScanRowsEnd(g, cols, lim, i, empty, acc);
    match RowAt(g, cols, i)
    case Err(_) =>
    case Ok(None) =>
      if empty + 1 < lim.quittingRows {
        ScanRowsRejectsDuplicate(g, cols, lim, i + 1, empty + 1, acc, j1, j2, r1, r2);
      }
    case Ok(Some(r)) =>
      if IdOf(r) != VNil && IdOf(r) !in acc {
        if j1 == i {
          ScanRowsRejectsTaken(g, cols, lim, i + 1, 0, acc[IdOf(r) := r], j2, r2);
        } else {
          ScanRowsRejectsDuplicate(g, cols, lim, i + 1, 0, acc[IdOf(r) := r], j1, j2, r1, r2);
        }
      }
  }

  /**
   * A scan meeting `quittingRows - empty` absent rows ends at the last of
   * them, adding nothing.
   */
  lemma {:induction false} RowBlankRun(g: Grid, cols: seq<Column>, lim: Limits, i: int, empty: nat, acc: RowMap)
    requires empty < lim.quittingRows
    requires i + (lim.quittingRows - 1 - empty) <= lim.availableRows
    requires forall j :: i <= j <= i + (lim.quittingRows - 1 - empty) ==> RowAt(g, cols, j) == Ok(None)
    ensures ScanRows(g, cols, lim, i, empty, acc) == Scanned(Ok(acc), i + (lim.quittingRows - 1 - empty))
    decreases lim.quittingRows - empty
  {
    assert RowAt(g, cols, i) == Ok(None);
    if empty + 1 < lim.quittingRows {
      RowBlankRun(g, cols, lim, i + 1, empty + 1, acc);
    }
  }

  /**
   * A present row `k` with a new id resets the counter; when the
   * `quittingRows` rows after it are absent, the scan keeps row `k` and its
   * last examined row is `k + quittingRows`.
   */
  lemma ScanRowsStops(g: Grid, cols: seq<Column>, lim: Limits, k: int, empty: nat, acc: RowMap, rec: Record)
    requires lim.quittingRows >= 1 && k + lim.quittingRows <= lim.availableRows
    requires RowAt(g, cols, k) == Ok(Some(rec)) && IdOf(rec) != VNil && IdOf(rec) !in acc
    requires forall j :: k < j <= k + lim.quittingRows ==> RowAt(g, cols, j) == Ok(None)
    ensures ScanRows(g, cols, lim, k, empty, acc) == Scanned(Ok(acc[IdOf(rec) := rec]), k + lim.quittingRows)
  {
    RowBlankRun(g, cols, lim, k + 1, 0, acc[IdOf(rec) := rec]);
  }

  /** Rows `a` to `a + n - 1` are all absent. */
  ghost predicate AbsentRun(g: Grid, cols: seq<Column>, a: int, n: int)
  {
    forall j :: a <= j < a + n ==> RowAt(g, cols, j) == Ok(None)
  }

  /**
   * A successful scan that stops before the last available row stops on a
   * run of absent rows: the `quittingRows` rows up to its last one, as far
   * as they lie in the scan, are absent, and if the run reaches back past
   * `i` the counter it started with makes up the difference.
   */
  lemma {:induction false} ScanRowsEndsOnRun(g: Grid, cols: seq<Column>, lim: Limits, i: int, empty: nat, acc: RowMap)
    requires empty < lim.quittingRows
    requires ScanRows(g, cols, lim, i, empty, acc).result.Ok?
    requires ScanRows(g, cols, lim, i, empty, acc).last < lim.availableRows
    ensures var s := ScanRows(g, cols, lim, i, empty, acc);
      var a := s.last - (lim.quittingRows - 1);
      && (forall j :: i <= j && a <= j <= s.last ==> RowAt(g, cols, j) == Ok(None))
      && (a < i ==> s.last - i + 1 + empty >= lim.quittingRows)
    decreases lim.availableRows + 1 - i
  {
    match RowAt(g, cols, i)
    case Err(_) =>
    case Ok(None) =>
      if empty + 1 < lim.quittingRows {
        ScanRowsEndsOnRun(g, cols, lim, i + 1, empty + 1, acc);
      }
    case Ok(Some(rec)) =>
      ScanRowsEndsOnRun(g, cols, lim, i + 1, 0, acc[IdOf(rec) := rec]);
  }

  /** No run of `quittingRows` absent rows lies wholly before the last row a scan examines. */
  lemma {:induction false} ScanRowsNoEarlierRun(g: Grid, cols: seq<Column>, lim: Limits, i: int, empty: nat, acc: RowMap)
    requires empty < lim.quittingRows
    ensures var s := ScanRows(g, cols, lim, i, empty, acc);
      forall k :: i <= k && k + (lim.quittingRows - 1) < s.last ==> !AbsentRun(g, cols, k, lim.quittingRows)
    decreases lim.availableRows + 1 - i
  {
    var s := ScanRows(g, cols, lim, i, empty, acc);
    if i <= lim.availableRows {
      match RowAt(g, cols, i)
      case Err(_) =>
      case Ok(None) =>
        if empty + 1 < lim.quittingRows {
          ScanRowsNoEarlierRun(g, cols, lim, i + 1, empty + 1, acc);
          ScanRowsEnd(g, cols, lim, i + 1, empty + 1, acc);
          if i + (lim.quittingRows - 1) < s.last && AbsentRun(g, cols, i, lim.quittingRows) {
            RowBlankRun(g, cols, lim, i + 1, empty + 1, acc);
            assert false;
          }
        }
      case Ok(Some(rec)) =>
        if IdOf(rec) != VNil && IdOf(rec) !in acc {
          ScanRowsNoEarlierRun(g, cols, lim, i + 1, 0, acc[IdOf(rec) := rec]);
          assert !AbsentRun(g, cols, i, lim.quittingRows) by {
            assert RowAt(g, cols, i) != Ok(None);
          }
        }
    }
  }

  /**
   * `rows` ends at the first run of `quittingRows` absent rows from the data
   * start row, or at the last available row: when it stops earlier, the
   * `quittingRows` rows up to its last row are absent and lie after the data
   * start row, and no such run lies wholly before its last row.
   */
  lemma ExtractRowsStopOnRun(g: Grid, lim: Limits, start: int, cols: seq<Column>)
    requires lim.quittingRows >= 1
    requires TagRow(g, lim, DataStartTag) == Ok(start) && start <= lim.availableRows
    requires Columns(g, lim) == Ok(cols)
    requires ExtractRows(g, lim).Ok?
    ensures var last := ScanRows(g, cols, lim, start, 0, map[]).last;
      && start <= last <= lim.availableRows
      && (last < lim.availableRows ==>
            start <= last - (lim.quittingRows - 1) && AbsentRun(g, cols, last - (lim.quittingRows - 1), lim.quittingRows))
      && (forall k :: start <= k && k + (lim.quittingRows - 1) < last ==> !AbsentRun(g, cols, k, lim.quittingRows))
  {
    var last := ScanRows(g, cols, lim, start, 0, map[]).last;
    ScanRowsEnd(g, cols, lim, start, 0, map[]);
    ScanRowsNoEarlierRun(g, cols, lim, start, 0, map[]);
    if last < lim.availableRows {
      ScanRowsEndsOnRun(g, cols, lim, start, 0, map[]);
    }
  }

  /**
   * When no run of absent rows precedes present row `k` and the
   * `quittingRows` rows after it are absent, `rows` stores row `k` and its
   * last examined row is `k + quittingRows`.
   */
  lemma RowsStopAfterLast(g: Grid, lim: Limits, start: int, cols: seq<Column>, k: int, rec: Record)
    requires lim.quittingRows >= 1
    requires TagRow(g, lim, DataStartTag) == Ok(start) && start <= k && k + lim.quittingRows <= lim.availableRows
    requires Columns(g, lim) == Ok(cols)
    requires ExtractRows(g, lim).Ok?
    requires forall a :: start <= a && a + (lim.quittingRows - 1) < k ==> !AbsentRun(g, cols, a, lim.quittingRows)
    requires RowAt(g, cols, k) == Ok(Some(rec)) && AbsentRun(g, cols, k + 1, lim.quittingRows)
    ensures ScanRows(g, cols, lim, start, 0, map[]).last == k + lim.quittingRows
    ensures IdOf(rec) in ExtractRows(g, lim).value && ExtractRows(g, lim).value[IdOf(rec)] == rec
  {
    var q := lim.quittingRows;
    var last := ScanRows(g, cols, lim, start, 0, map[]).last;
    ExtractRowsStopOnRun(g, lim, start, cols);
    assert k <= last;
    assert k + q <= last by {
      assert RowAt(g, cols, k) != Ok(None);
    }
    assert !(k + q < last) by {
      assert start <= k + 1;
    }
    ExtractRowsComplete(g, lim, start, cols);
    assert SheetRow(g, lim, k) == RowAt(g, cols, k);
  }

  /**
   * With the default bounds and data starting at or before row 20, data
   * ending at row 20 makes row 70 the last one examined and row 20 is stored.
   */
  lemma DefaultScanStopsAt70(g: Grid, start: int, cols: seq<Column>, rec: Record)
    requires TagRow(g, DefaultLimits, DataStartTag) == Ok(start) && start <= 20
    requires Columns(g, DefaultLimits) == Ok(cols)
    requires ExtractRows(g, DefaultLimits).Ok?
    requires RowAt(g, cols, 20) == Ok(Some(rec))
    requires forall j :: 20 < j <= 70 ==> RowAt(g, cols, j) == Ok(None)
    ensures ScanRows(g, cols, DefaultLimits, start, 0, map[]).last == 70
    ensures IdOf(rec) in ExtractRows(g, DefaultLimits).value && ExtractRows(g, DefaultLimits).value[IdOf(rec)] == rec
  {
    RowsStopAfterLast(g, DefaultLimits, start, cols, 20, rec);
  }

  /**
   * The row scan reads no row after the last one it examined: a sheet that
   * agrees on the rows up to it gives the same scan.
   */
  lemma {:induction false} ScanRowsFrame(g: Grid, h: Grid, cols: seq<Column>, lim: Limits, i: int, empty: nat, acc: RowMap)
    requires AgreeOnRows(g, h, ScanRows(g, cols, lim, i, empty, acc).last)
    ensures ScanRows(g, cols, lim, i, empty, acc) == ScanRows(h, cols, lim, i, empty, acc)
    decreases lim.availableRows + 1 - i
  {
    if i <= lim.availableRows {
      ScanRowsEnd(g, cols, lim, i, empty, acc);
      assert i <= ScanRows(g, cols, lim, i, empty, acc).last by {
        match RowAt(g, cols, i)
        case Err(_) =>
        case Ok(None) =>
          ScanRowsEnd(g, cols, lim, i + 1, empty + 1, acc);
        case Ok(Some(r)) =>
          ScanRowsEnd(g, cols, lim, i + 1, 0, acc[IdOf(r) := r]);
      }
      BuildRecordFrame(g, h, cols, i);
      match RowAt(g, cols, i)
      case Err(_) =>
      case Ok(None) =>
        if empty + 1 < lim.quittingRows {
          ScanRowsFrame(g, h, cols, lim, i + 1, empty + 1, acc);
        }
      case Ok(Some(r)) =>
        if IdOf(r) != VNil && IdOf(r) !in acc {
          ScanRowsFrame(g, h, cols, lim, i + 1, 0, acc[IdOf(r) := r]);
        }
    }
  }

  /** Every successful `rows` result is keyed by the non-nil ids of present rows. */
  lemma ExtractRowsKeyed(g: Grid, lim: Limits)
    requires ExtractRows(g, lim).Ok?
    ensures Keyed(ExtractRows(g, lim).value)
  {
    match TagRow(g, lim, DataStartTag)
    case Ok(start) =>
      if start <= lim.availableRows {
        ScanRowsKeyed(g, Columns(g, lim).value, lim, start, 0, map[]);
      }
  }

  /**
   * A successful `rows` result holds exactly the present rows from the data
   * start row to the last row examined, each under its own id.
   */
  lemma ExtractRowsComplete(g: Grid, lim: Limits, start: int, cols: seq<Column>)
    requires TagRow(g, lim, DataStartTag) == Ok(start) && start <= lim.availableRows
    requires Columns(g, lim) == Ok(cols)
    requires ExtractRows(g, lim).Ok?
    ensures var m := ExtractRows(g, lim).value;
      var last := ScanRows(g, cols, lim, start, 0, map[]).last;
      && (forall j :: start <= j <= last ==> SheetRow(g, lim, j).Ok?)
      && (forall j :: start <= j <= last && SheetRow(g, lim, j).Ok? && SheetRow(g, lim, j).value.Some? ==>
            var rec := SheetRow(g, lim, j).value.value;
            IdOf(rec) in m && m[IdOf(rec)] == rec)
      && (forall k | k in m :: exists j :: start <= j <= last && SheetRow(g, lim, j) == Ok(Some(m[k])))
  {
    ScanRowsOk(g, cols, lim, start, 0, map[]);
    ScanRowsNewKeys(g, cols, lim, start, 0, map[]);
    var s := ScanRows(g, cols, lim, start, 0, map[]);
    var m := s.result.value;
    forall k | k in m
      ensures exists j :: start <= j <= s.last && SheetRow(g, lim, j) == Ok(Some(m[k]))
    {
      var j :| start <= j <= s.last && RowAt(g, cols, j) == Ok(Some(m[k])) && IdOf(m[k]) == k;
      assert SheetRow(g, lim, j) == RowAt(g, cols, j);
    }
  }

  /** A present row with a nil id, once examined, makes `rows` fail. */
  lemma ExtractRowsRejectNilId(g: Grid, lim: Limits, start: int, cols: seq<Column>, j: int, rec: Record)
    requires TagRow(g, lim, DataStartTag) == Ok(start) && start <= lim.availableRows
    requires Columns(g, lim) == Ok(cols)
    requires start <= j <= ScanRows(g, cols, lim, start, 0, map[]).last
    requires RowAt(g, cols, j) == Ok(Some(rec)) && IdOf(rec) == VNil
    ensures ExtractRows(g, lim).Err?
  {
    if ExtractRows(g, lim).Ok? {
      ScanRowsOk(g, cols, lim, start, 0, map[]);
    }
  }

  /** Two present rows with one id, both examined, make `rows` fail with no map returned. */
  lemma ExtractRowsRejectDuplicate(g: Grid, lim: Limits, start: int, cols: seq<Column>,
                                   j1: int, j2: int, r1: Record, r2: Record)
    requires TagRow(g, lim, DataStartTag) == Ok(start) && start <= lim.availableRows
    requires Columns(g, lim) == Ok(cols)
    requires start <= j1 < j2 <= ScanRows(g, cols, lim, start, 0, map[]).last
    requires RowAt(g, cols, j1) == Ok(Some(r1)) && RowAt(g, cols, j2) == Ok(Some(r2))
    requires IdOf(r1) == IdOf(r2)
    ensures ExtractRows(g, lim).Err?
  {
    ScanRowsRejectsDuplicate(g, cols, lim, start, 0, map[], j1, j2, r1, r2);
  }

  /**
   * A failed `rows`, once the data start row and the column map are found,
   * reports the error of the first offending row: the last row examined
   * fails with that error, and every row examined before it passes.
   */
  lemma ExtractRowsFailsFirst(g: Grid, lim: Limits, start: int, cols: seq<Column>)
    requires TagRow(g, lim, DataStartTag) == Ok(start) && start <= lim.availableRows
    requires Columns(g, lim) == Ok(cols)
    requires ExtractRows(g, lim).Err?
    ensures var last := ScanRows(g, cols, lim, start, 0, map[]).last;
      && start <= last <= lim.availableRows
      && FailsAt(g, cols, start, map[], last, ExtractRows(g, lim).error)
      && (forall j :: start <= j < last ==> PassesAt(g, cols, start, map[], j))
  {
    assert ExtractRows(g, lim) == ScanRows(g, cols, lim, start, 0, map[]).result;
    ScanRowsEnd(g, cols, lim, start, 0, map[]);
    ScanRowsFirstOffender(g, cols, lim, start, 0, map[]);
  }

  /** A row fails only by a failed conversion: an unsupported type tag, or a value its tag refuses. */
  lemma RowAtError(g: Grid, cols: seq<Column>, r: int)
    requires RowAt(g, cols, r).Err?
    ensures RowAt(g, cols, r).error.UnsupportedType? || RowAt(g, cols, r).error.InvalidValue?
  {
    BuildRecordFirstError(g, cols, r);
  }

  /** The present rows among rows `a` to `b` have pairwise different ids. */
  ghost predicate DistinctIds(g: Grid, cols: seq<Column>, a: int, b: int)
  {
    forall j1, j2 :: a <= j1 < j2 <= b && RowAt(g, cols, j1).Ok? && RowAt(g, cols, j1).value.Some?
                     && RowAt(g, cols, j2).Ok? && RowAt(g, cols, j2).value.Some? ==>
      IdOf(RowAt(g, cols, j1).value.value) != IdOf(RowAt(g, cols, j2).value.value)
  }

  /**
   * A DuplicateId failure of `rows` is one of a row whose id an earlier
   * examined row has: when the examined rows have distinct ids, `rows` never
   * reports one.
   */
  lemma ExtractRowsUniqueIds(g: Grid, lim: Limits, start: int, cols: seq<Column>)
    requires TagRow(g, lim, DataStartTag) == Ok(start) && start <= lim.availableRows
    requires Columns(g, lim) == Ok(cols)
    requires DistinctIds(g, cols, start, ScanRows(g, cols, lim, start, 0, map[]).last)
    ensures ExtractRows(g, lim).Err? ==> !ExtractRows(g, lim).error.DuplicateId?
  {
    var s := ScanRows(g, cols, lim, start, 0, map[]);
    assert ExtractRows(g, lim) == s.result;
    ScanRowsEnd(g, cols, lim, start, 0, map[]);
    if s.result.Err? {
      match RowAt(g, cols, s.last)
      case Err(_) =>
        RowAtError(g, cols, s.last);
      case Ok(None) =>
      case Ok(Some(rec)) =>
    }
  }
}
