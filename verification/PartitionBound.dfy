/** LIST partition bounds of the `features` table: how the catalog prints them, how they are
    parsed back, and how the resolver compares them after deleting every space. */
module PartitionBound {
  import opened Wrappers

  type CollectionId = string
  type TableName = string

  /** A string literal's body in SQL: each quote is doubled. */
  function Doubled(s: string): string
  {
    if s == "" then ""
    else (if s[0] == '\'' then "''" else [s[0]]) + Doubled(s[1..])
  }

  function Undoubled(s: string): string
  {
    if s == "" then ""
    else if |s| >= 2 && s[0] == '\'' && s[1] == '\'' then "'" + Undoubled(s[2..])
    else [s[0]] + Undoubled(s[1..])
  }

  function WithoutSpaces(s: string): string
  {
    if s == "" then ""
    else (if s[0] == ' ' then "" else [s[0]]) + WithoutSpaces(s[1..])
  }

  const BOUND_HEAD := "FOR VALUES "
  const BOUND_OPEN := "IN ('"
  const BOUND_CLOSE := "')"

  /** What PostgreSQL prints for a partition created FOR VALUES IN (cid). */
  function BoundText(cid: CollectionId): string
  {
    BOUND_HEAD + (BOUND_OPEN + (Doubled(cid) + BOUND_CLOSE))
  }

  /** The text the resolver looks for. */
  function BoundLiteral(cid: CollectionId): string
  {
    WithoutSpaces(BoundText(cid))
  }

  predicate IsWhitespace(c: char)
  {
    c == ' ' || c == '\t' || c == '\n' || c == '\r' || c == 11 as char || c == 12 as char
  }

  function SkipWhitespace(s: string): string
  {
    if s != "" && IsWhitespace(s[0]) then SkipWhitespace(s[1..]) else s
  }

  /** The longest run of non-quotes and doubled quotes that is followed by a quote and a
      closing parenthesis; a shorter run is never followed by them. */
  function QuotedBody(s: string): Option<string>
  {
    if |s| < 2 then None
    else if s[0] != '\'' then
      match QuotedBody(s[1..])
      case None => None
      case Some(body) => Some([s[0]] + body)
    else if s[1] == '\'' then
      match QuotedBody(s[2..])
      case None => None
      case Some(body) => Some("''" + body)
    else if s[1] == ')' then Some("")
    else None
  }

  /** The pattern anchored at the start of `s`. */
  function MatchHere(s: string): Option<string>
  {
    if |s| >= 2 && (s[0] == 'I' || s[0] == 'i') && (s[1] == 'N' || s[1] == 'n') then
      var t := SkipWhitespace(s[2..]);
      if |t| >= 2 && t[0] == '(' && t[1] == '\'' then QuotedBody(t[2..]) else None
    else None
  }

  /** The leftmost match anywhere in `s`. */
  function Search(s: string): Option<string>
  {
    match MatchHere(s)
    case Some(body) => Some(body)
    case None => if s == "" then None else Search(s[1..])
  }

  function ParseBound(bound: string): Option<CollectionId>
  {
    match Search(bound)
    case None => None
    case Some(body) => Some(Undoubled(body))
  }

  // ---------- print and parse ----------

  lemma {:induction false} UndoubledDoubled(s: string)
    ensures Undoubled(Doubled(s)) == s
  {
    if s != "" {
      UndoubledDoubled(s[1..]);
      var d := Doubled(s);
      if s[0] == '\'' {
        assert d[2..] == Doubled(s[1..]);
        assert Undoubled(d) == "'" + Undoubled(d[2..]);
      } else {
        assert d[1..] == Doubled(s[1..]);
        assert Undoubled(d) == [d[0]] + Undoubled(d[1..]);
      }
      assert s == [s[0]] + s[1..];
    }
  }

  lemma {:induction false} QuotedBodyOfDoubled(s: string)
    ensures QuotedBody(Doubled(s) + BOUND_CLOSE) == Some(Doubled(s))
  {
    var t := Doubled(s) + BOUND_CLOSE;
    if s == "" {
      assert t == BOUND_CLOSE;
    } else {
      QuotedBodyOfDoubled(s[1..]);
      var rest := Doubled(s[1..]) + BOUND_CLOSE;
      if s[0] == '\'' {
        assert t == "''" + rest;
        assert t[2..] == rest;
      } else {
        assert t == [s[0]] + rest;
        assert t[1..] == rest;
      }
    }
  }

  /** The search passes over text in which the pattern cannot start. */
  lemma {:induction false} SearchSkips(prefix: string, s: string)
    requires forall i | 0 <= i < |prefix| :: prefix[i] != 'I' && prefix[i] != 'i'
    ensures Search(prefix + s) == Search(s)
  {
    if prefix == "" {
      assert prefix + s == s;
    } else {
      SearchSkips(prefix[1..], s);
      assert (prefix + s)[1..] == prefix[1..] + s;
    }
  }

  /** Parsing what the catalog prints gives the collection id back, whatever quotes, brackets,
      spaces or copies of the pattern itself the id contains. */
  lemma ParsePrinted(cid: CollectionId)
    ensures ParseBound(BoundText(cid)) == Some(cid)
  {
    var tail := Doubled(cid) + BOUND_CLOSE;
    var s := BOUND_OPEN + tail;
    SearchSkips(BOUND_HEAD, s);
    QuotedBodyOfDoubled(cid);
    assert s[2..] == " ('" + tail;
    assert s[2..][1..] == "('" + tail;
    assert SkipWhitespace(s[2..][1..]) == "('" + tail;
    assert SkipWhitespace(s[2..]) == "('" + tail;
    assert ("('" + tail)[2..] == tail;
    assert MatchHere(s) == Some(Doubled(cid));
    UndoubledDoubled(cid);
  }

  lemma PrintedBoundsDiffer(a: CollectionId, b: CollectionId)
    ensures BoundText(a) == BoundText(b) <==> a == b
  {
    ParsePrinted(a);
    ParsePrinted(b);
  }

  // ---------- the space-stripped comparison ----------

  lemma WithoutSpacesStep(c: char, s: string)
    ensures WithoutSpaces([c] + s) == (if c == ' ' then "" else [c]) + WithoutSpaces(s)
  {
    assert ([c] + s)[1..] == s;
  }

  lemma {:induction false} WithoutSpacesConcat(s: string, t: string)
    ensures WithoutSpaces(s + t) == WithoutSpaces(s) + WithoutSpaces(t)
  {
    if s == "" {
      assert s + t == t;
    } else {
      hide WithoutSpaces;
      var c, rest := s[0], s[1..];
      assert s == [c] + rest && s + t == [c] + (rest + t);
      WithoutSpacesStep(c, rest);
      WithoutSpacesStep(c, rest + t);
      WithoutSpacesConcat(rest, t);
    }
  }

  lemma {:induction false} StripCommutesWithDoubling(s: string)
    ensures WithoutSpaces(Doubled(s)) == Doubled(WithoutSpaces(s))
  {
    if s != "" {
      StripCommutesWithDoubling(s[1..]);
      var first := if s[0] == '\'' then "''" else [s[0]];
      WithoutSpacesConcat(first, Doubled(s[1..]));
      if s[0] == '\'' {
        assert WithoutSpaces("''") == "''" by { assert "''"[1..] == "'"; assert "'"[1..] == ""; }
        assert WithoutSpaces(s) == "'" + WithoutSpaces(s[1..]);
        assert Doubled(WithoutSpaces(s)) == "''" + Doubled(WithoutSpaces(s[1..])) by {
          assert WithoutSpaces(s)[1..] == WithoutSpaces(s[1..]);
        }
      } else if s[0] == ' ' {
        assert WithoutSpaces(first) == "" by { assert first[1..] == ""; }
        assert WithoutSpaces(s) == WithoutSpaces(s[1..]);
      } else {
        assert WithoutSpaces(first) == first by { assert first[1..] == ""; }
        assert WithoutSpaces(s)[1..] == WithoutSpaces(s[1..]);
      }
    }
  }

  /** Two ids look the same to the resolver exactly when they differ in spaces only. */
  lemma LiteralsCollapse(a: CollectionId, b: CollectionId)
    ensures BoundLiteral(a) == BoundLiteral(b) <==> WithoutSpaces(a) == WithoutSpaces(b)
  {
    forall c: CollectionId | c == a || c == b
      ensures BoundLiteral(c)
          == WithoutSpaces(BOUND_HEAD)
             + (WithoutSpaces(BOUND_OPEN) + (Doubled(WithoutSpaces(c)) + WithoutSpaces(BOUND_CLOSE)))
      ensures Undoubled(Doubled(WithoutSpaces(c))) == WithoutSpaces(c)
    {
      WithoutSpacesConcat(BOUND_HEAD, BOUND_OPEN + (Doubled(c) + BOUND_CLOSE));
      WithoutSpacesConcat(BOUND_OPEN, Doubled(c) + BOUND_CLOSE);
      WithoutSpacesConcat(Doubled(c), BOUND_CLOSE);
      StripCommutesWithDoubling(c);
      UndoubledDoubled(WithoutSpaces(c));
    }
    if BoundLiteral(a) == BoundLiteral(b) {
      CancelBoth(WithoutSpaces(BOUND_HEAD), Doubled(WithoutSpaces(a)), Doubled(WithoutSpaces(b)),
                 WithoutSpaces(BOUND_OPEN), WithoutSpaces(BOUND_CLOSE));
    }
  }

  lemma CancelBoth(p: string, a: string, b: string, q: string, r: string)
    requires p + (q + (a + r)) == p + (q + (b + r))
    ensures a == b
  {
    var x, y := p + (q + (a + r)), p + (q + (b + r));
    assert |x| == |p| + |q| + |a| + |r| && |y| == |p| + |q| + |b| + |r|;
    assert x[|p| + |q|..|p| + |q| + |a|] == a;
    assert y[|p| + |q|..|p| + |q| + |b|] == b;
  }

  /** What one pass of the resolver over the catalog may answer: some partition whose stripped
      bound is the stripped literal, or none when there is no such partition. */
  ghost predicate ResolvesTo(attached: map<TableName, CollectionId>, cid: CollectionId, answer: Option<TableName>)
  {
    match answer
    case Some(name) => name in attached && BoundLiteral(attached[name]) == BoundLiteral(cid)
    case None => forall name | name in attached :: BoundLiteral(attached[name]) != BoundLiteral(cid)
  }

  /** The right answer: the collection's own partition, or none when it has no partition. */
  ghost predicate Exact(attached: map<TableName, CollectionId>, cid: CollectionId, answer: Option<TableName>)
  {
    match answer
    case Some(name) => name in attached && attached[name] == cid
    case None => cid !in attached.Values
  }

  /** No other attached id becomes equal to `cid` once spaces are deleted. */
  ghost predicate NoCollapse(attached: map<TableName, CollectionId>, cid: CollectionId)
  {
    forall name | name in attached && WithoutSpaces(attached[name]) == WithoutSpaces(cid) :: attached[name] == cid
  }

  /** The resolver is right, whatever order the catalog lists partitions in, exactly when no
      other attached id collapses onto the one asked for. */
  lemma ResolverExactness(attached: map<TableName, CollectionId>, cid: CollectionId)
    ensures (forall answer :: ResolvesTo(attached, cid, answer) ==> Exact(attached, cid, answer))
       <==> NoCollapse(attached, cid)
  {
    forall name | name in attached
      ensures BoundLiteral(attached[name]) == BoundLiteral(cid) <==> WithoutSpaces(attached[name]) == WithoutSpaces(cid)
    {
      LiteralsCollapse(attached[name], cid);
    }
    if !NoCollapse(attached, cid) {
      var name :| name in attached && WithoutSpaces(attached[name]) == WithoutSpaces(cid) && attached[name] != cid;
      assert ResolvesTo(attached, cid, Some(name)) && !Exact(attached, cid, Some(name));
    }
  }
}
