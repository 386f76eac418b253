/** The encoder of COPY text rows and a decoder that follows PostgreSQL's description of the text
    format (COPY, section "File Formats", "Text Format"). */
module CopyCodec {
  import opened Wrappers

  type Row = seq<Option<string>>

  // ---------- encoder ----------

  /** str.replace for a one-character pattern. */
  function Replaced(s: string, c: char, repl: string): string
  {
    if s == "" then "" else (if s[0] == c then repl else [s[0]]) + Replaced(s[1..], c, repl)
  }

  /** Backslash first, then tab, newline and carriage return. */
  function Escaped(s: string): string
  {
    Replaced(Replaced(Replaced(Replaced(s, '\\', "\\\\"), '\t', "\\t"), '\n', "\\n"), '\r', "\\r")
  }

  function EncodeField(v: Option<string>): string
  {
    match v
    case None => "\\N"
    case Some(s) => Escaped(s)
  }

  function Joined(row: Row): string
  {
    if row == [] then ""
    else if |row| == 1 then EncodeField(row[0])
    else EncodeField(row[0]) + ("\t" + Joined(row[1..]))
  }

  function EncodeRow(row: Row): string
  {
    Joined(row) + "\n"
  }

  function EncodeFile(rows: seq<Row>): string
  {
    if rows == [] then "" else EncodeRow(rows[0]) + EncodeFile(rows[1..])
  }

  method EncodeCopyRow(row: Row) returns (text: string)
    ensures text == EncodeRow(row)
  {
    var parts: seq<string> := [];
    for i := 0 to |row|
      invariant |parts| == i && forall k | 0 <= k < i :: parts[k] == EncodeField(row[k])
    {
      var val := row[i];
      if val.None? {
        parts := parts + ["\\N"];
      } else {
        var s := Replaced(val.value, '\\', "\\\\");
        s := Replaced(s, '\t', "\\t");
        s := Replaced(s, '\n', "\\n");
        s := Replaced(s, '\r', "\\r");
        parts := parts + [s];
      }
    }
    var joined := "";
    var k := |parts|;
    while k > 0
      invariant 0 <= k <= |parts| && joined == Joined(row[k..])
    {
      k := k - 1;
      assert row[k..][1..] == row[k + 1..];
      joined := if k == |parts| - 1 then parts[k] else parts[k] + ("\t" + joined);
    }
    text := joined + "\n";
  }

  // ---------- decoder ----------

  /** One input line and what follows it. A backslash takes the next character with it; a bare
      carriage return is an error. */
  function TakeLine(s: string): Option<(string, string)>
  {
    if s == "" then Some(("", ""))
    else if s[0] == '\n' then Some(("", s[1..]))
    else if s[0] == '\r' then None
    else
      var n := if s[0] == '\\' && |s| >= 2 then 2 else 1;
      Before(s[..n], TakeLine(s[n..]))
  }

  function Before(t: string, line: Option<(string, string)>): Option<(string, string)>
  {
    match line
    case None => None
    case Some((text, rest)) => Some((t + text, rest))
  }

  /** The raw text of the first field, and the rest of the line if a delimiter follows. */
  function TakeField(s: string): (string, Option<string>)
  {
    if s == "" then ("", None)
    else if s[0] == '\t' then ("", Some(s[1..]))
    else
      var n := if s[0] == '\\' && |s| >= 2 then 2 else 1;
      var (raw, rest) := TakeField(s[n..]);
      (s[..n] + raw, rest)
  }

  lemma {:induction false} TakeFieldShrinks(s: string)
    ensures TakeField(s).1.Some? ==> |TakeField(s).1.value| < |s|
  {
    if s != "" && s[0] != '\t' {
      TakeFieldShrinks(s[if s[0] == '\\' && |s| >= 2 then 2 else 1..]);
    }
  }

  lemma {:induction false} TakeLineShrinks(s: string)
    ensures s != "" && TakeLine(s).Some? ==> |TakeLine(s).value.1| < |s|
    ensures TakeLine(s).Some? ==> |TakeLine(s).value.1| <= |s|
  {
    if s != "" && s[0] != '\n' && s[0] != '\r' {
      TakeLineShrinks(s[if s[0] == '\\' && |s| >= 2 then 2 else 1..]);
    }
  }

  predicate IsOctal(c: char)
  {
    '0' <= c <= '7'
  }

  function HexValue(c: char): Option<nat>
  {
    if '0' <= c <= '9' then Some((c - '0') as nat)
    else if 'a' <= c <= 'f' then Some((c - 'a') as nat + 10)
    else if 'A' <= c <= 'F' then Some((c - 'A') as nat + 10)
    else None
  }

  /** The character a backslash sequence stands for and the number of characters it takes, the
      backslash included: control letters, one to three octal digits, `x` with one or two hex
      digits, and any other character for itself. */
  function Unit(s: string): (char, nat)
    requires |s| >= 1 && s[0] == '\\'
    ensures 1 <= Unit(s).1 <= |s|
  {
    if |s| == 1 then ('\\', 1)
    else
      var c := s[1];
      if c == 'b' then (8 as char, 2)
      else if c == 'f' then (12 as char, 2)
      else if c == 'n' then ('\n', 2)
      else if c == 'r' then ('\r', 2)
      else if c == 't' then ('\t', 2)
      else if c == 'v' then (11 as char, 2)
      else if IsOctal(c) then
        var a := (c - '0') as nat;
        if |s| == 2 || !IsOctal(s[2]) then (a as char, 2)
        else
          var b := 8 * a + (s[2] - '0') as nat;
          if |s| == 3 || !IsOctal(s[3]) then (b as char, 3)
          else (((8 * b + (s[3] - '0') as nat) % 256) as char, 4)
      else if c == 'x' && |s| > 2 && HexValue(s[2]).Some? then
        var a := HexValue(s[2]).value;
        if |s| == 3 || HexValue(s[3]).None? then (a as char, 3)
        else ((16 * a + HexValue(s[3]).value) as char, 4)
      else (c, 2)
  }

  function Unescaped(s: string): string
  {
    if s == "" then ""
    else if s[0] == '\\' then [Unit(s).0] + Unescaped(s[Unit(s).1..])
    else [s[0]] + Unescaped(s[1..])
  }

  /** The null marker is compared with the raw field, before backslash sequences are read. */
  function DecodeField(raw: string): Option<string>
  {
    if raw == "\\N" then None else Some(Unescaped(raw))
  }

  function DecodeLine(line: string): Row
    decreases |line|
  {
    TakeFieldShrinks(line);
    var (raw, rest) := TakeField(line);
    match rest
    case None => [DecodeField(raw)]
    case Some(more) => [DecodeField(raw)] + DecodeLine(more)
  }

  const END_MARKER := "\\."

  /** None is an error; a line that is just backslash-period ends the data. */
  function DecodeFile(s: string): Option<seq<Row>>
    decreases |s|
  {
    TakeLineShrinks(s);
    if s == "" then Some([])
    else
      match TakeLine(s)
      case None => None
      case Some((line, rest)) =>
        if line == END_MARKER then Some([])
        else
          match DecodeFile(rest)
          case None => None
          case Some(rows) => Some([DecodeLine(line)] + rows)
  }

  // ---------- the encoder, character by character ----------

  function EscapedChar(c: char): string
  {
    if c == '\\' then "\\\\" else if c == '\t' then "\\t" else if c == '\n' then "\\n"
    else if c == '\r' then "\\r" else [c]
  }

  lemma ReplacedStep(a: char, s: string, c: char, repl: string)
    ensures Replaced([a] + s, c, repl) == (if a == c then repl else [a]) + Replaced(s, c, repl)
  {
    assert ([a] + s)[1..] == s;
  }

  lemma {:induction false} ReplacedConcat(s: string, t: string, c: char, repl: string)
    ensures Replaced(s + t, c, repl) == Replaced(s, c, repl) + Replaced(t, c, repl)
  {
    if s == "" {
      assert s + t == t;
    } else {
      hide Replaced;
      var a, rest := s[0], s[1..];
      assert s == [a] + rest && s + t == [a] + (rest + t);
      ReplacedStep(a, rest, c, repl);
      ReplacedStep(a, rest + t, c, repl);
      ReplacedConcat(rest, t, c, repl);
    }
  }

  lemma EscapedConcat(s: string, t: string)
    ensures Escaped(s + t) == Escaped(s) + Escaped(t)
  {
    ReplacedConcat(s, t, '\\', "\\\\");
    var s1, t1 := Replaced(s, '\\', "\\\\"), Replaced(t, '\\', "\\\\");
    ReplacedConcat(s1, t1, '\t', "\\t");
    var s2, t2 := Replaced(s1, '\t', "\\t"), Replaced(t1, '\t', "\\t");
    ReplacedConcat(s2, t2, '\n', "\\n");
    ReplacedConcat(Replaced(s2, '\n', "\\n"), Replaced(t2, '\n', "\\n"), '\r', "\\r");
  }

  lemma ReplacedOne(a: char, c: char, repl: string)
    ensures Replaced([a], c, repl) == if a == c then repl else [a]
  {
    assert [a][1..] == "";
  }

  lemma ReplacedTwo(a: char, b: char, c: char, repl: string)
    requires a != c && b != c
    ensures Replaced([a, b], c, repl) == [a, b]
  {
    assert [a, b][1..] == [b];
    ReplacedOne(b, c, repl);
  }

  /** The four replacements together act on each character by itself: none of them touches what an
      earlier one wrote. */
  lemma EscapedOne(a: char)
    ensures Escaped([a]) == EscapedChar(a)
  {
    ReplacedOne(a, '\\', "\\\\");
    if a == '\\' {
      ReplacedTwo('\\', '\\', '\t', "\\t"); ReplacedTwo('\\', '\\', '\n', "\\n"); ReplacedTwo('\\', '\\', '\r', "\\r");
    } else {
      ReplacedOne(a, '\t', "\\t");
      if a == '\t' {
        ReplacedTwo('\\', 't', '\n', "\\n"); ReplacedTwo('\\', 't', '\r', "\\r");
      } else {
        ReplacedOne(a, '\n', "\\n");
        if a == '\n' { ReplacedTwo('\\', 'n', '\r', "\\r"); } else { ReplacedOne(a, '\r', "\\r"); }
      }
    }
  }

  lemma EscapedEmpty()
    ensures Escaped("") == ""
  {
  }

  lemma EscapedStep(s: string)
    requires s != ""
    ensures Escaped(s) == EscapedChar(s[0]) + Escaped(s[1..])
  {
    assert s == [s[0]] + s[1..];
    EscapedConcat([s[0]], s[1..]);
    EscapedOne(s[0]);
  }

  // ---------- encoded text is read back piece by piece ----------

  lemma BeforeNothing(line: Option<(string, string)>)
    ensures Before("", line) == line
  {
    if line.Some? {
      assert "" + line.value.0 == line.value.0;
    }
  }

  lemma BeforeTwice(a: string, b: string, line: Option<(string, string)>)
    ensures Before(a, Before(b, line)) == Before(a + b, line)
  {
    if line.Some? {
      assert a + (b + line.value.0) == (a + b) + line.value.0;
    }
  }

  lemma LineOfTab(s: string)
    ensures TakeLine("\t" + s) == Before("\t", TakeLine(s))
  {
    assert ("\t" + s)[..1] == "\t" && ("\t" + s)[1..] == s;
  }

  lemma LineOfChar(c: char, s: string)
    ensures TakeLine(EscapedChar(c) + s) == Before(EscapedChar(c), TakeLine(s))
  {
    var e := EscapedChar(c);
    assert (e + s)[..|e|] == e && (e + s)[|e|..] == s;
  }

  lemma {:induction false} LineOfText(t: string, s: string)
    ensures TakeLine(Escaped(t) + s) == Before(Escaped(t), TakeLine(s))
  {
    hide TakeLine, Before, Escaped, EscapedChar;
    if t == "" {
      EscapedEmpty();
      assert Escaped(t) + s == s;
      BeforeNothing(TakeLine(s));
    } else {
      EscapedStep(t);
      var e, u := EscapedChar(t[0]), Escaped(t[1..]);
      LineOfText(t[1..], s);
      LineOfChar(t[0], u + s);
      assert Escaped(t) + s == e + (u + s);
      BeforeTwice(e, u, TakeLine(s));
    }
  }

  lemma LineOfField(v: Option<string>, s: string)
    ensures TakeLine(EncodeField(v) + s) == Before(EncodeField(v), TakeLine(s))
  {
    match v
    case None =>
      assert ("\\N" + s)[..2] == "\\N" && ("\\N" + s)[2..] == s;
    case Some(t) => LineOfText(t, s);
  }

  lemma {:induction false} LineOfJoined(row: Row, s: string)
    ensures TakeLine(Joined(row) + s) == Before(Joined(row), TakeLine(s))
  {
    if row == [] {
      assert "" + s == s;
      BeforeNothing(TakeLine(s));
    } else if |row| == 1 {
      LineOfField(row[0], s);
    } else {
      LineOfJoined(row[1..], s);
      LineOfFieldAndTab(row[0], Joined(row[1..]), s);
    }
  }

  lemma LineOfFieldAndTab(v: Option<string>, u: string, s: string)
    requires TakeLine(u + s) == Before(u, TakeLine(s))
    ensures TakeLine((EncodeField(v) + ("\t" + u)) + s) == Before(EncodeField(v) + ("\t" + u), TakeLine(s))
  {
    LineOfTab(u + s);
    LineOfField(v, "\t" + (u + s));
    hide Before, TakeLine, EncodeField;
    var e := EncodeField(v);
    assert (e + ("\t" + u)) + s == e + ("\t" + (u + s));
    BeforeTwice("\t", u, TakeLine(s));
    BeforeTwice(e, "\t" + u, TakeLine(s));
  }

  lemma LineOfRow(row: Row, rest: string)
    ensures TakeLine(EncodeRow(row) + rest) == Some((Joined(row), rest))
  {
    LineOfJoined(row, "\n" + rest);
    assert EncodeRow(row) + rest == Joined(row) + ("\n" + rest);
    assert ("\n" + rest)[1..] == rest;
    assert Joined(row) + "" == Joined(row);
  }

  lemma FieldOfChar(c: char, s: string)
    ensures TakeField(EscapedChar(c) + s) == (EscapedChar(c) + TakeField(s).0, TakeField(s).1)
  {
    var e := EscapedChar(c);
    assert (e + s)[..|e|] == e && (e + s)[|e|..] == s;
  }

  lemma {:induction false} FieldOfText(t: string, s: string)
    ensures TakeField(Escaped(t) + s) == (Escaped(t) + TakeField(s).0, TakeField(s).1)
  {
    hide TakeField, Escaped, EscapedChar;
    if t == "" {
      EscapedEmpty();
      assert Escaped(t) + s == s && "" + TakeField(s).0 == TakeField(s).0;
    } else {
      EscapedStep(t);
      var e, u := EscapedChar(t[0]), Escaped(t[1..]);
      FieldOfText(t[1..], s);
      FieldOfChar(t[0], u + s);
      assert Escaped(t) + s == e + (u + s);
      assert e + (u + TakeField(s).0) == (e + u) + TakeField(s).0;
    }
  }

  lemma FieldOfField(v: Option<string>, s: string)
    ensures TakeField(EncodeField(v) + s) == (EncodeField(v) + TakeField(s).0, TakeField(s).1)
  {
    match v
    case None =>
      assert ("\\N" + s)[..2] == "\\N" && ("\\N" + s)[2..] == s;
    case Some(t) => FieldOfText(t, s);
  }

  lemma UnescapedChar(c: char, s: string)
    ensures Unescaped(EscapedChar(c) + s) == [c] + Unescaped(s)
  {
    var e := EscapedChar(c);
    assert (e + s)[|e|..] == s;
  }

  lemma {:induction false} UnescapedEscaped(t: string)
    ensures Unescaped(Escaped(t)) == t
  {
    hide Unescaped, Escaped, EscapedChar;
    if t == "" {
      EscapedEmpty();
      UnescapedEmpty();
    } else {
      EscapedStep(t);
      UnescapedChar(t[0], Escaped(t[1..]));
      UnescapedEscaped(t[1..]);
      assert t == [t[0]] + t[1..];
    }
  }

  lemma UnescapedEmpty()
    ensures Unescaped("") == ""
  {
  }

  /** A value is never written as the null marker, not even the two characters backslash and N. */
  lemma DecodeEncodedField(v: Option<string>)
    ensures DecodeField(EncodeField(v)) == v
  {
    match v
    case None =>
    case Some(t) =>
      UnescapedEscaped(t);
      if t != "" {
        EscapedStep(t);
      }
  }

  /** A row without columns reads back as one empty column. */
  function Normal(row: Row): Row
  {
    if row == [] then [Some("")] else row
  }

  lemma {:induction false} DecodeJoined(row: Row)
    ensures DecodeLine(Joined(row)) == Normal(row)
  {
    if row == [] {
    } else {
      var e := EncodeField(row[0]);
      DecodeEncodedField(row[0]);
      if |row| == 1 {
        FieldOfField(row[0], "");
        assert e + "" == e;
      } else {
        var u := Joined(row[1..]);
        FieldOfField(row[0], "\t" + u);
        assert ("\t" + u)[1..] == u && e + "" == e;
        DecodeJoined(row[1..]);
        assert row == [row[0]] + row[1..];
      }
    }
  }

  /** Data never produces the end-of-data marker. */
  lemma NoEndMarker(row: Row)
    ensures Joined(row) != END_MARKER
  {
    if row != [] {
      var e := EncodeField(row[0]);
      assert e <= Joined(row);
      match row[0]
      case None =>
        assert e[1] == 'N';
      case Some(t) =>
        if t == "" {
          assert Joined(row) == "" || Joined(row)[0] == '\t';
        } else {
          EscapedStep(t);
          assert EscapedChar(t[0]) <= e;
          assert EscapedChar(t[0])[0] != '\\' || EscapedChar(t[0])[1] != '.';
        }
    }
  }

  function NormalRows(rows: seq<Row>): seq<Row>
  {
    if rows == [] then [] else [Normal(rows[0])] + NormalRows(rows[1..])
  }

  predicate HaveColumns(rows: seq<Row>)
  {
    forall i | 0 <= i < |rows| :: rows[i] != []
  }

  lemma {:induction false} NormalRowsSame(rows: seq<Row>)
    ensures NormalRows(rows) == rows <==> HaveColumns(rows)
  {
    if rows != [] {
      var rest := rows[1..];
      NormalRowsSame(rest);
      assert rows == [rows[0]] + rest;
      assert NormalRows(rows)[0] == Normal(rows[0]) && NormalRows(rows)[1..] == NormalRows(rest);
      assert HaveColumns(rows) <==> rows[0] != [] && HaveColumns(rest) by {
        if HaveColumns(rows) {
          forall i | 0 <= i < |rest| ensures rest[i] != [] {
            assert rest[i] == rows[i + 1];
          }
        }
      }
    }
  }

  lemma {:induction false} DecodeEncoded(rows: seq<Row>)
    ensures DecodeFile(EncodeFile(rows)) == Some(NormalRows(rows))
  {
    if rows != [] {
      var rest := EncodeFile(rows[1..]);
      LineOfRow(rows[0], rest);
      NoEndMarker(rows[0]);
      DecodeJoined(rows[0]);
      DecodeEncoded(rows[1..]);
      assert EncodeFile(rows) == EncodeRow(rows[0]) + rest && EncodeFile(rows) != "";
      hide TakeLine, Joined, DecodeLine, Normal, EncodeFile;
    }
  }

  /** The round trip returns the rows themselves exactly when every row has a column. */
  lemma RoundTrip(rows: seq<Row>)
    ensures DecodeFile(EncodeFile(rows)) == Some(rows) <==> HaveColumns(rows)
  {
    DecodeEncoded(rows);
    NormalRowsSame(rows);
  }

  /** Different rows are never encoded alike; in particular null and backslash-N differ. */
  lemma EncodingIsInjective(a: seq<Row>, b: seq<Row>)
    requires HaveColumns(a) && HaveColumns(b)
    requires EncodeFile(a) == EncodeFile(b)
    ensures a == b
  {
    RoundTrip(a);
    RoundTrip(b);
  }

  // ---------- one raw newline per row ----------

  predicate OneLine(t: string)
  {
    forall i | 0 <= i < |t| :: t[i] != '\n' && t[i] != '\r'
  }

  lemma {:induction false} EscapedIsOneLine(t: string)
    ensures OneLine(Escaped(t)) && '\t' !in Escaped(t)
  {
    if t != "" {
      EscapedStep(t);
      EscapedIsOneLine(t[1..]);
    }
  }

  lemma {:induction false} JoinedIsOneLine(row: Row)
    ensures OneLine(Joined(row))
  {
    if row != [] {
      if row[0].Some? {
        EscapedIsOneLine(row[0].value);
      }
      if |row| > 1 {
        JoinedIsOneLine(row[1..]);
      }
    }
  }

  /** An encoded row holds one raw newline, at its end, and no raw carriage return. */
  lemma RowEndsLine(row: Row)
    ensures var e := EncodeRow(row);
            && e != "" && e[|e| - 1] == '\n'
            && forall i | 0 <= i < |e| - 1 :: e[i] != '\n' && e[i] != '\r'
  {
    JoinedIsOneLine(row);
  }
}
