/**
 * The workbook side: `Excel#each_data_sheets` hands over only the sheets
 * whose name has a line made of letters, digits and underscores (for a
 * one-line name: the whole name), in workbook order;
 * each such sheet is converted on its own, and the failure of one sheet
 * leaves the results of the others untouched.
 */
module Workbook {
  import opened Cells
  import opened Extract

  predicate IsWordChar(c: char)
  {
    'A' <= c <= 'Z' || 'a' <= c <= 'z' || '0' <= c <= '9' || c == '_'
  }

  /** A non-empty run of letters, digits and underscores. */
  predicate IsWordName(s: string)
  {
    |s| > 0 && forall k :: 0 <= k < |s| ==> IsWordChar(s[k])
  }

  /** `s =~ /^[A-Za-z0-9_]+$/`: some line of the name is a word name. */
  predicate IsDataSheetName(s: string)
  {
    exists a, b :: 0 <= a < b <= |s| && IsLine(s, a, b) && IsWordName(s[a..b])
  }

  /** A name without line feeds is selected exactly when it is a word name as a whole. */
  lemma DataSheetNameOneLine(s: string)
    requires '\n' !in s
    ensures IsDataSheetName(s) <==> IsWordName(s)
  {
    if IsWordName(s) {
      assert s[0..|s|] == s;
      assert IsLine(s, 0, |s|);
    }
    if IsDataSheetName(s) {
      var a, b :| 0 <= a < b <= |s| && IsLine(s, a, b) && IsWordName(s[a..b]);
      SingleLine(s, a, b);
      assert s[a..b] == s;
    }
  }

  /** The `select` over the workbook's sheet names. */
  function DataSheetNames(names: seq<string>): seq<string>
  {
    if names == [] then []
    else (if IsDataSheetName(names[0]) then [names[0]] else []) + DataSheetNames(names[1..])
  }

  /** A name is selected exactly when it is a sheet of the workbook and matches the pattern. */
  lemma {:induction false} DataSheetNamesMembers(names: seq<string>)
    ensures forall s :: s in DataSheetNames(names) <==> s in names && IsDataSheetName(s)
  {
    if names != [] {
      DataSheetNamesMembers(names[1..]);
      assert forall s :: s in names <==> s == names[0] || s in names[1..];
    }
  }

  /** Selection keeps every matching name as often as it occurs, and no other. */
  lemma {:induction false} DataSheetNamesCount(names: seq<string>, s: string)
    ensures multiset(DataSheetNames(names))[s] == if IsDataSheetName(s) then multiset(names)[s] else 0
  {
    if names != [] {
      DataSheetNamesCount(names[1..], s);
      assert names == [names[0]] + names[1..];
    }
  }

  /** Selection preserves order: it commutes with concatenation. */
  lemma {:induction false} DataSheetNamesConcat(a: seq<string>, b: seq<string>)
    ensures DataSheetNames(a + b) == DataSheetNames(a) + DataSheetNames(b)
  {
    if a != [] {
      assert (a + b)[1..] == a[1..] + b;
      DataSheetNamesConcat(a[1..], b);
    } else {
      assert a + b == b;
    }
  }

  /** One-line names are kept when they are word names, in order. */
  lemma DataSheetNamesExample()
    ensures DataSheetNames(["Items", "Notes!", "shop_2", "", "a b"]) == ["Items", "shop_2"]
  {
    DataSheetNameOneLine("Items");
    DataSheetNameOneLine("Notes!");
    DataSheetNameOneLine("shop_2");
    DataSheetNameOneLine("a b");
    assert !IsWordName("Notes!") by { assert !IsWordChar("Notes!"[5]); }
    assert !IsWordName("a b") by { assert !IsWordChar("a b"[1]); }
    var names := ["Items", "Notes!", "shop_2", "", "a b"];
    assert names[1..][1..][1..][1..][1..] == [];
  }

  /** A name with a line feed is kept when one of its lines is a word name. */
  lemma DataSheetNamesMultiLine()
    ensures DataSheetNames(["Notes!\nItems", "Items\n", "a b\nc d"]) == ["Notes!\nItems", "Items\n"]
  {
    var s1 := "Notes!\nItems";
    assert |s1| == 12 && s1[6] == '\n';
    assert s1[7..12] == "Items";
    assert IsLine(s1, 7, 12);
    var s2 := "Items\n";
    assert s2[0..5] == "Items" && IsLine(s2, 0, 5);
    var s3 := "a b\nc d";
    assert !IsDataSheetName(s3) by {
      forall a, b | 0 <= a < b <= |s3| && IsLine(s3, a, b)
        ensures !IsWordName(s3[a..b])
      {
        assert a == 0 || a == 4;
        assert b == 3 || b == 7;
        assert s3[a..b][1] == ' ';
      }
    }
    var more := [s1, s2, s3];
    assert more[1..][1..][1..] == [];
  }

  /** A workbook: its sheet names in order and the cells of each sheet. */
  datatype Book = Book(sheetNames: seq<string>, sheets: map<string, Grid>)

  function SheetGrid(book: Book, name: string): Grid
  {
    if name in book.sheets then book.sheets[name] else map[]
  }

  /** Each selected sheet with the outcome of converting it. */
  function ConvertBook(book: Book, lim: Limits): seq<(string, Result<RowMap>)>
  {
    var selected := DataSheetNames(book.sheetNames);
    seq(|selected|, k requires 0 <= k < |selected| => (selected[k], ExtractRows(SheetGrid(book, selected[k]), lim)))
  }

  /**
   * One outcome per selected sheet, in order, each that of the sheet alone:
   * replacing the cells of one sheet changes no other sheet's outcome.
   */
  lemma SheetIsolation(book: Book, lim: Limits, name: string, cells: Grid, k: int)
    requires 0 <= k < |DataSheetNames(book.sheetNames)|
    requires DataSheetNames(book.sheetNames)[k] != name
    ensures var other := Book(book.sheetNames, book.sheets[name := cells]);
      && |ConvertBook(other, lim)| == |ConvertBook(book, lim)|
      && ConvertBook(other, lim)[k] == ConvertBook(book, lim)[k]
      && ConvertBook(book, lim)[k].0 == DataSheetNames(book.sheetNames)[k]
  {
  }
}
