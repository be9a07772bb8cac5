/**
 * Cell coercion: `DataSheet#convert` maps a raw cell and the column's type
 * tag to a typed field value, over the closed vocabulary `string`,
 * `intstring`, `int`, `float`, `bool` and `datetime`.
 */
module Coerce {
  import opened Cells
  import opened Numbers

  const KnownTypes: set<string> := {"intstring", "string", "int", "float", "bool", "datetime"}

  /** One position of an anchored, fixed-length character pattern. */
  datatype CharClass = Exactly(c: char) | Between(lo: char, hi: char)

  predicate Admits(k: CharClass, c: char)
  {
    match k
    case Exactly(d) => c == d
    case Between(lo, hi) => lo <= c <= hi
  }

  /** `s` matches the pattern from its first to its last character. */
  predicate MatchesWhole(p: seq<CharClass>, s: string)
  {
    |p| == |s| && forall k :: 0 <= k < |s| ==> Admits(p[k], s[k])
  }

  /** Line `s[a..a + |p|]` matches the pattern from its first to its last character. */
  predicate MatchesLineAt(p: seq<CharClass>, s: string, a: int)
  {
    0 <= a && a + |p| <= |s| && IsLine(s, a, a + |p|) && MatchesWhole(p, s[a..a + |p|])
  }

  /** `s =~ /^p$/`: some line of `s` matches the pattern in full. */
  predicate MatchesSomeLine(p: seq<CharClass>, s: string)
  {
    exists a :: 0 <= a <= |s| - |p| && MatchesLineAt(p, s, a)
  }

  const Digit: CharClass := Between('0', '9')

  /** The pattern `20dd-[01]d-[0-3]d [0-2]d:[0-5]d:[0-5]d`, position by position. */
  const DateTimePattern: seq<CharClass> := [
    Exactly('2'), Exactly('0'), Digit, Digit, Exactly('-'),
    Between('0', '1'), Digit, Exactly('-'),
    Between('0', '3'), Digit, Exactly(' '),
    Between('0', '2'), Digit, Exactly(':'),
    Between('0', '5'), Digit, Exactly(':'),
    Between('0', '5'), Digit]

  predicate IsNumeric(v: Cell)
  {
    v.Int? || v.Flt?
  }

  /** `to_i` of a non-empty cell. */
  function ToI(v: Cell): int
    requires !v.Nil?
  {
    match v
    case Str(s) => LeadingInt(s)
    case Int(i) => i
    case Flt(f) => Trunc(f)
  }

  /**
   * `convert(value, type)`. An empty cell never fails, whatever the tag; a
   * non-empty one is checked against the tag, and a tag outside the
   * vocabulary is refused.
   */
  function Convert(v: Cell, t: string): Result<Value>
  {
    if v.Nil? then
      if t == "string" then Ok(VStr("")) else Ok(VNil)
    else if t == "intstring" then
      Ok(VStr(IntToDecimal(ToI(v))))
    else if t == "string" then
      if v.Str? then Ok(VStr(v.s)) else Err(InvalidValue(v, t))
    else if t == "int" then
      if IsNumeric(v) then Ok(VInt(ToI(v))) else Err(InvalidValue(v, t))
    else if t == "float" then
      if v.Flt? then Ok(VFlt(v.f)) else Err(InvalidValue(v, t))
    else if t == "bool" then
      if IsNumeric(v) then Ok(VBool(ToI(v) != 0)) else Err(InvalidValue(v, t))
    else if t == "datetime" then
      if v.Str? && MatchesSomeLine(DateTimePattern, v.s) then Ok(VStr(v.s)) else Err(InvalidValue(v, t))
    else
      Err(UnsupportedType(t))
  }

  /** The cell shapes each known tag accepts, as a table of its own. */
  predicate Accepts(t: string, v: Cell)
  {
    match t
    case "intstring" => true
    case "string" => v.Str?
    case "int" => v.Int? || v.Flt?
    case "float" => v.Flt?
    case "bool" => v.Int? || v.Flt?
    case "datetime" => v.Str? && exists a :: 0 <= a <= |v.s| - 19 && DateTimeLineAt(v.s, a)
    case _ => false
  }

  /** A line of `s` starting at `a` is a timestamp of the shape spelt out below. */
  predicate DateTimeLineAt(s: string, a: int)
  {
    0 <= a && a + 19 <= |s| && IsLine(s, a, a + 19) && IsDateTime(s[a..a + 19])
  }

  predicate IsDateTime(t: string)
  {
    |t| == 19 && t[..2] == "20" && IsDateTimeText(t)
  }

  /** The datetime shape spelt out: digits where digits go, and the bounded leading digits. */
  predicate IsDateTimeText(s: string)
    requires |s| == 19
  {
    && IsDigit(s[2]) && IsDigit(s[3]) && s[4] == '-'
    && '0' <= s[5] <= '1' && IsDigit(s[6]) && s[7] == '-'
    && '0' <= s[8] <= '3' && IsDigit(s[9]) && s[10] == ' '
    && '0' <= s[11] <= '2' && IsDigit(s[12]) && s[13] == ':'
    && '0' <= s[14] <= '5' && IsDigit(s[15]) && s[16] == ':'
    && '0' <= s[17] <= '5' && IsDigit(s[18])
  }

  /** An empty cell converts to "" under `string` and to nil under every other tag, known or not. */
  lemma NilNeverFails(t: string)
    ensures Convert(Nil, t) == Ok(if t == "string" then VStr("") else VNil)
  {
  }

  /** The datetime pattern accepts exactly the strings the spelt-out shape describes. */
  lemma {:induction false} DateTimePatternShape(s: string)
    ensures MatchesWhole(DateTimePattern, s) <==> IsDateTime(s)
  {
    if MatchesWhole(DateTimePattern, s) {
      assert Admits(DateTimePattern[0], s[0]) && Admits(DateTimePattern[1], s[1]);
      assert forall k :: 2 <= k < 19 ==> Admits(DateTimePattern[k], s[k]);
    }
    if |s| == 19 && s[..2] == "20" && IsDateTimeText(s) {
      assert s[0] == s[..2][0] && s[1] == s[..2][1];
      forall k | 0 <= k < 19
        ensures Admits(DateTimePattern[k], s[k])
      {
      }
    }
  }

  /** Some line of `s` matches the datetime pattern exactly when some line of it is a timestamp. */
  lemma DateTimeLines(s: string)
    ensures MatchesSomeLine(DateTimePattern, s) <==> exists a :: 0 <= a <= |s| - 19 && DateTimeLineAt(s, a)
  {
    forall a | 0 <= a <= |s| - 19
      ensures MatchesLineAt(DateTimePattern, s, a) <==> DateTimeLineAt(s, a)
    {
      DateTimePatternShape(s[a..a + 19]);
    }
  }

  /**
   * A non-empty cell fails exactly when its tag is unknown (UnsupportedType)
   * or the tag refuses the cell's shape (InvalidValue); otherwise it converts.
   */
  lemma ConvertFailure(v: Cell, t: string)
    requires !v.Nil?
    ensures Convert(v, t) == Err(UnsupportedType(t)) <==> t !in KnownTypes
    ensures Convert(v, t) == Err(InvalidValue(v, t)) <==> t in KnownTypes && !Accepts(t, v)
    ensures Convert(v, t).Ok? <==> t in KnownTypes && Accepts(t, v)
  {
    if v.Str? {
      DateTimeLines(v.s);
    }
  }

  /**
   * Under `intstring` an integer cell becomes its canonical decimal
   * rendering, which reads back as that integer.
   */
  lemma IntstringOfInt(i: int)
    ensures Convert(Int(i), "intstring").Ok?
    ensures var r := Convert(Int(i), "intstring").value;
      r.VStr? && r.s == IntToDecimal(i) && LeadingInt(r.s) == i
  {
    LeadingIntOfDecimal(i);
  }

  /**
   * Under `intstring` a float cell becomes the canonical decimal rendering
   * of its truncation toward zero.
   */
  lemma IntstringOfFloat(f: real)
    ensures Convert(Flt(f), "intstring").Ok?
    ensures var r := Convert(Flt(f), "intstring").value;
      r.VStr? && r.s == IntToDecimal(Trunc(f)) && LeadingInt(r.s) == Trunc(f)
      && (f >= 0.0 ==> 0.0 <= f - LeadingInt(r.s) as real < 1.0)
      && (f < 0.0 ==> 0.0 <= LeadingInt(r.s) as real - f < 1.0)
  {
    LeadingIntOfDecimal(Trunc(f));
  }

  /** Under `int` a numeric cell becomes its truncation, under `bool` whether that is non-zero. */
  lemma NumericTags(v: Cell)
    requires IsNumeric(v)
    ensures Convert(v, "int") == Ok(VInt(if v.Int? then v.i else Trunc(v.f)))
    ensures Convert(v, "bool") == Ok(VBool(if v.Int? then v.i != 0 else Trunc(v.f) != 0))
  {
  }

  /** `string` returns a String cell and `float` a Float cell unchanged. */
  lemma UnchangedTags(s: string, f: real, i: int)
    ensures Convert(Str(s), "string") == Ok(VStr(s))
    ensures Convert(Flt(f), "float") == Ok(VFlt(f))
    ensures Convert(Int(i), "float") == Err(InvalidValue(Int(i), "float"))
  {
  }

  /** `intstring` of a few characteristic cells. */
  lemma ConvertExamples()
    ensures Convert(Flt(3.0), "intstring") == Ok(VStr("3"))
    ensures Convert(Flt(-42.9), "intstring") == Ok(VStr("-42"))
    ensures Convert(Str("abc"), "intstring") == Ok(VStr("0"))
    ensures Convert(Str("12ab"), "intstring") == Ok(VStr("12"))
  {
    assert Trunc(-42.9) == -42;
    assert NatToDecimal(42) == "42" by {
      assert NatToDecimal(42) == NatToDecimal(4) + [DigitChar(2)];
    }
    assert IntToDecimal(-42) == "-" + "42" == "-42";
    assert DigitPrefix("12ab") == "12" by {
      assert "12ab"[1..] == "2ab";
      assert "2ab"[1..] == "ab";
    }
    assert DigitsValue("12") == 12 by {
      assert "12"[..1] == "1";
      assert "1"[..0] == "";
    }
    assert NatToDecimal(12) == NatToDecimal(1) + [DigitChar(2)];
  }

  /** Coercions of nil cells, an unknown tag and cells of the wrong kind. */
  lemma OtherTagExamples()
    ensures Convert(Nil, "string") == Ok(VStr(""))
    ensures Convert(Nil, "int") == Ok(VNil)
    ensures Convert(Nil, "money") == Ok(VNil)
    ensures Convert(Int(5), "money") == Err(UnsupportedType("money"))
    ensures Convert(Str("7"), "int") == Err(InvalidValue(Str("7"), "int"))
    ensures Convert(Flt(0.5), "bool") == Ok(VBool(false))
  {
  }

  /** The pattern accepts a well-formed timestamp, and a cell with one on a line of its own. */
  lemma DateTimeAccepted()
    ensures Convert(Str("2023-02-01 10:00:00"), "datetime") == Ok(VStr("2023-02-01 10:00:00"))
    ensures Convert(Str("note\n2023-02-01 10:00:00"), "datetime") == Ok(VStr("note\n2023-02-01 10:00:00"))
  {
    var s := "2023-02-01 10:00:00";
    assert s[0..19] == s;
    forall k | 0 <= k < 19
      ensures Admits(DateTimePattern[k], s[k])
    {
    }
    assert MatchesLineAt(DateTimePattern, s, 0);
    var t := "note\n" + s;
    assert t == "note\n2023-02-01 10:00:00";
    assert t[5..24] == s by { assert t[5..] == s; }
    assert MatchesLineAt(DateTimePattern, t, 5);
  }

  /**
   * The pattern refuses an out-of-range day, a year outside 20xx, a line
   * with text after the timestamp and a non-String cell.
   */
  lemma DateTimeRefused()
    ensures Convert(Str("2023-13-99 99:99:99"), "datetime") == Err(InvalidValue(Str("2023-13-99 99:99:99"), "datetime"))
    ensures Convert(Str("1999-02-01 10:00:00"), "datetime") == Err(InvalidValue(Str("1999-02-01 10:00:00"), "datetime"))
    ensures Convert(Str("2023-02-01 10:00:00 UTC"), "datetime") == Err(InvalidValue(Str("2023-02-01 10:00:00 UTC"), "datetime"))
    ensures Convert(Int(20230201), "datetime") == Err(InvalidValue(Int(20230201), "datetime"))
  {
    var s1 := "2023-13-99 99:99:99";
    assert s1[0..19] == s1;
    assert !Admits(DateTimePattern[8], s1[8]);
    var s2 := "1999-02-01 10:00:00";
    assert s2[0..19] == s2;
    assert !Admits(DateTimePattern[0], s2[0]);
    var s3 := "2023-02-01 10:00:00 UTC";
    forall a | 0 <= a <= |s3| - 19
      ensures !MatchesLineAt(DateTimePattern, s3, a)
    {
      if IsLine(s3, a, a + 19) {
        SingleLine(s3, a, a + 19);
      }
    }
  }

  /**
   * The check is a shape check only: month 19, day 39 and hour 29 pass,
   * since each leading digit is bounded but not the pair.
   */
  lemma DateTimeIsShapeOnly()
    ensures Convert(Str("2023-19-39 29:59:59"), "datetime") == Ok(VStr("2023-19-39 29:59:59"))
  {
    var s := "2023-19-39 29:59:59";
    assert s[0..19] == s;
    forall k | 0 <= k < 19
      ensures Admits(DateTimePattern[k], s[k])
    {
    }
    assert MatchesLineAt(DateTimePattern, s, 0);
  }
}
