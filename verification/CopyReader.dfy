/** The text stream that encodes rows on demand for COPY. It is proved against a plain stream that
    holds the whole encoding from the start. */
module CopyReader {
  import opened CopyCodec

  // ---------- the plain stream ----------

  datatype Call = Read(size: int) | ReadLine

  function FirstLine(left: string): string
  {
    if left == "" then "" else if left[0] == '\n' then "\n" else [left[0]] + FirstLine(left[1..])
  }

  /** What a stream with `left` still to come answers. */
  function Answer(left: string, call: Call): string
  {
    match call
    case Read(size) => if 0 <= size < |left| then left[..size] else left
    case ReadLine => FirstLine(left)
  }

  function LeftAfter(left: string, calls: seq<Call>): string
    decreases |calls|
  {
    if calls == [] then left
    else
      AnswerIsPrefix(left, calls[0]);
      LeftAfter(left[|Answer(left, calls[0])|..], calls[1..])
  }

  /** The concatenated answers to a list of calls. */
  function Answers(left: string, calls: seq<Call>): string
    decreases |calls|
  {
    if calls == [] then ""
    else
      AnswerIsPrefix(left, calls[0]);
      var a := Answer(left, calls[0]);
      a + Answers(left[|a|..], calls[1..])
  }

  lemma {:induction false} FirstLineIsPrefix(left: string)
    ensures FirstLine(left) <= left
    ensures left != "" ==> FirstLine(left) != ""
  {
    if left != "" && left[0] != '\n' {
      FirstLineIsPrefix(left[1..]);
    }
  }

  lemma AnswerIsPrefix(left: string, call: Call)
    ensures Answer(left, call) <= left
  {
    FirstLineIsPrefix(left);
  }

  /** Under any mix of calls nothing is lost, repeated or reordered. */
  lemma {:induction false} AnswersArePrefix(left: string, calls: seq<Call>)
    ensures Answers(left, calls) + LeftAfter(left, calls) == left
    decreases |calls|
  {
    if calls != [] {
      AnswerIsPrefix(left, calls[0]);
      var a := Answer(left, calls[0]);
      AnswersArePrefix(left[|a|..], calls[1..]);
      assert left == a + left[|a|..];
    }
  }

  /** A read of n characters returns all of them as long as they are there, so an empty answer to a
      positive read, or to any readline, means the end. */
  lemma EmptyMeansEnd(left: string, call: Call)
    ensures call.Read? && call.size >= 0 ==>
              |Answer(left, call)| == if call.size < |left| then call.size else |left|
    ensures Answer(left, call) == "" ==> left == "" || call == Read(0)
  {
    FirstLineIsPrefix(left);
  }

  // ---------- the reader ----------

  lemma {:induction false} FirstLineOf(t: string, rest: string)
    requires t != "" && t[|t| - 1] == '\n'
    requires forall i | 0 <= i < |t| - 1 :: t[i] != '\n'
    ensures FirstLine(t + rest) == t
  {
    assert (t + rest)[0] == t[0] && (t + rest)[1..] == t[1..] + rest;
    if |t| > 1 {
      FirstLineOf(t[1..], rest);
    }
  }

  /** str.find for one character: its first position, or -1. */
  function Find(s: string, c: char): (n: int)
    ensures -1 <= n < |s|
    ensures n >= 0 ==> s[n] == c && forall i | 0 <= i < n :: s[i] != c
    ensures n == -1 ==> c !in s
  {
    if s == "" then -1
    else if s[0] == c then 0
    else
      var n := Find(s[1..], c);
      assert s == [s[0]] + s[1..];
      if n == -1 then -1 else n + 1
  }

  /** `carry` is what remains of one encoded row of which something was already returned. */
  predicate IsTail(carry: string, row: Row)
  {
    var e := EncodeRow(row);
    0 < |carry| < |e| && carry == e[|e| - |carry|..]
  }

  lemma TailIsOneLine(carry: string, row: Row)
    requires IsTail(carry, row)
    ensures carry[|carry| - 1] == '\n' && forall i | 0 <= i < |carry| - 1 :: carry[i] != '\n'
  {
    RowEndsLine(row);
    var e := EncodeRow(row);
    forall i | 0 <= i < |carry| - 1 ensures carry[i] != '\n' {
      assert carry[i] == e[|e| - |carry| + i];
    }
  }

  lemma EncodeNothing()
    ensures EncodeFile([]) == "" && FirstLine("") == ""
  {
  }

  lemma WholeSlice(s: string, n: nat)
    requires n == |s|
    ensures s[..n] == s && s[n..] == ""
  {
  }

  lemma CutInTwo(buf: string, size: nat, rest: string)
    requires size <= |buf|
    ensures buf[..size] + (buf[size..] + rest) == buf + rest
    ensures size < |buf + rest| ==> (buf + rest)[..size] == buf[..size]
  {
  }

  class RowCopyReader {
    var rows: seq<Row>  // what the row iterator has still to yield
    var carry: string
    ghost var taken: seq<Row>  // what it has yielded

    ghost predicate Valid()
      reads this
    {
      carry == "" || (taken != [] && IsTail(carry, taken[|taken| - 1]))
    }

    /** The characters still to come. */
    ghost function Left(): string
      reads this
    {
      carry + EncodeFile(rows)
    }

    constructor (rows: seq<Row>)
      ensures Valid() && Left() == EncodeFile(rows) && this.rows == rows && taken == []
    {
      this.rows := rows;
      carry := "";
      taken := [];
    }

    method Next() returns (text: string)
      requires rows != []
      modifies this`rows, this`taken
      ensures taken + rows == old(taken + rows) && rows == old(rows)[1..]
      ensures taken == old(taken) + [old(rows)[0]]
      ensures text == EncodeRow(taken[|taken| - 1]) && text + EncodeFile(rows) == old(EncodeFile(rows))
    {
      text := EncodeCopyRow(rows[0]);
      taken := taken + [rows[0]];
      rows := rows[1..];
    }

    method ReadAll() returns (text: string)
      modifies this
      ensures Valid() && text == old(Left()) && Left() == ""
      ensures taken + rows == old(taken + rows)
    {
      text, carry := carry, "";
      while rows != []
        invariant carry == "" && text + EncodeFile(rows) == old(Left())
        invariant taken + rows == old(taken + rows)
        decreases |rows|
      {
        var enc := Next();
        text := text + enc;
      }
      assert EncodeFile(rows) == "";
    }

    /** The text gathered by read(size): either the old carry alone, or fewer than size characters
        and then one whole row. */
    ghost predicate Held(before: string, last: string, size: int, carry0: string, taken0: seq<Row>)
      reads this`taken
    {
      || (before == "" && last == carry0 && taken == taken0)
      || (|before| < size && taken != [] && last == EncodeRow(taken[|taken| - 1]))
    }

    lemma KeptIsTail(before: string, last: string, size: nat, carry0: string, taken0: seq<Row>)
      requires Held(before, last, size, carry0, taken0) && size < |before + last|
      requires carry0 == "" || (taken0 != [] && IsTail(carry0, taken0[|taken0| - 1]))
      ensures taken != [] && IsTail((before + last)[size..], taken[|taken| - 1])
    {
      var e := EncodeRow(taken[|taken| - 1]);
      if before == "" && last == carry0 && taken == taken0 {
        assert (before + last)[size..] == e[|e| - |carry0| + size..];
      } else {
        assert (before + last)[size..] == e[size - |before|..];
      }
    }

    method Read(size: int) returns (text: string)
      requires Valid()
      modifies this
      ensures Valid() && text == Answer(old(Left()), Call.Read(size)) && text + Left() == old(Left())
      ensures taken + rows == old(taken + rows)
    {
      hide EncodeFile, EncodeRow, IsTail, FirstLine;
      if size < 0 {
        text := ReadAll();
        return;
      }
      EncodeNothing();
      var buf := carry;
      var have := |buf|;
      ghost var before, last := "", carry;
      carry := "";
      while have < size && rows != []
        invariant buf + EncodeFile(rows) == old(Left()) && taken + rows == old(taken + rows)
        invariant have == |buf| && buf == before + last && carry == ""
        invariant Held(before, last, size, old(carry), old(taken))
        decreases |rows|
      {
        var enc := Next();
        assert (buf + enc) + EncodeFile(rows) == buf + (enc + EncodeFile(rows));
        before, last := buf, enc;
        buf := buf + enc;
        have := have + |enc|;
      }
      if |buf| > size {
        carry, text := buf[size..], buf[..size];
        KeptIsTail(before, last, size, old(carry), old(taken));
        CutInTwo(buf, size, EncodeFile(rows));
      } else {
        text := buf;
        assert "" + EncodeFile(rows) == EncodeFile(rows);
      }
    }

    method ReadLine() returns (text: string)
      requires Valid()
      modifies this
      ensures Valid() && text == Answer(old(Left()), Call.ReadLine) && text + Left() == old(Left())
      ensures taken + rows == old(taken + rows)
    {
      hide EncodeFile, EncodeRow, IsTail, FirstLine;
      EncodeNothing();
      if carry != "" {
        TailIsOneLine(carry, taken[|taken| - 1]);
        var nl := Find(carry, '\n');
        assert nl == |carry| - 1;
        if nl >= 0 {
          FirstLineOf(carry, EncodeFile(rows));
          WholeSlice(carry, nl + 1);
          text := carry[..nl + 1];
          carry := carry[nl + 1..];
          return;
        }
      }
      assert carry == "";
      if rows == [] {
        assert Left() == "";
        text := carry;
        carry := "";
      } else {
        var enc := Next();
        RowEndsLine(taken[|taken| - 1]);
        FirstLineOf(enc, EncodeFile(rows));
        text := carry + enc;
        carry := "";
        assert text == enc && old(Left()) == enc + EncodeFile(rows);
      }
    }
  }
}
