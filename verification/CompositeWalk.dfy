/** Listing a composite collection page by page: the walk over its members that skips whole members
    by their cached feature counts. Elements are members' features, tagged with the member. */
module CompositeWalk {
  import opened Paging

  type Tagged = (string, string)  // member id, feature id

  /** A member: its features in id order, and the count cached on its collection record. */
  datatype Member = Member(id: string, features: seq<string>, count: nat)

  function Tag(id: string, features: seq<string>): (r: seq<Tagged>)
    ensures |r| == |features| && forall i | 0 <= i < |r| :: r[i] == (id, features[i])
  {
    seq(|features|, i requires 0 <= i < |features| => (id, features[i]))
  }

  /** All members' features, one member after the other. */
  function Listing(ms: seq<Member>): seq<Tagged>
  {
    if ms == [] then [] else Tag(ms[0].id, ms[0].features) + Listing(ms[1..])
  }

  /** The walk from a given point on. */
  function Walk(ms: seq<Member>, offset: nat, limit: nat): seq<Tagged>
  {
    if ms == [] || limit == 0 then []
    else if offset >= ms[0].count then Walk(ms[1..], offset - ms[0].count, limit)
    else
      var page := Slice(Tag(ms[0].id, ms[0].features), offset, limit);
      page + Walk(ms[1..], 0, limit - |page|)
  }

  lemma SliceTag(id: string, features: seq<string>, offset: nat, limit: nat)
    ensures Tag(id, Slice(features, offset, limit)) == Slice(Tag(id, features), offset, limit)
  {
  }

  lemma WalkStep(ms: seq<Member>, i: nat, offset: nat, limit: nat)
    requires i < |ms| && limit > 0
    ensures var page := Slice(ms[i].features, offset, limit);
            Walk(ms[i..], offset, limit) ==
            if offset >= ms[i].count then Walk(ms[i + 1..], offset - ms[i].count, limit)
            else Tag(ms[i].id, page) + Walk(ms[i + 1..], 0, limit - |page|)
  {
    assert ms[i..][0] == ms[i] && ms[i..][1..] == ms[i + 1..];
    SliceTag(ms[i].id, ms[i].features, offset, limit);
  }

  lemma WalkEnds(ms: seq<Member>, offset: nat, limit: nat)
    requires ms == [] || limit == 0
    ensures Walk(ms, offset, limit) == []
  {
  }

  method ListPage(ms: seq<Member>, offset: nat, limit: nat) returns (out: seq<Tagged>)
    ensures out == Walk(ms, offset, limit)
  {
    hide Walk, Slice, Tag;
    var remainingOffset: nat, remainingLimit: nat := offset, limit;
    out := [];
    ghost var all := Walk(ms, offset, limit);
    assert ms[0..] == ms;
    for i := 0 to |ms|
      invariant out + Walk(ms[i..], remainingOffset, remainingLimit) == all
    {
      if remainingLimit <= 0 {
        WalkEnds(ms[i..], remainingOffset, remainingLimit);
        return;
      }
      WalkStep(ms, i, remainingOffset, remainingLimit);
      if remainingOffset >= ms[i].count {
        remainingOffset := remainingOffset - ms[i].count;
        continue;
      }
      var page := Slice(ms[i].features, remainingOffset, remainingLimit);
      ghost var rest := Walk(ms[i + 1..], 0, remainingLimit - |page|);
      assert out + (Tag(ms[i].id, page) + rest) == (out + Tag(ms[i].id, page)) + rest;
      out := out + Tag(ms[i].id, page);
      remainingLimit := remainingLimit - |page|;
      remainingOffset := 0;
    }
    WalkEnds(ms[|ms|..], remainingOffset, remainingLimit);
  }

  // ---------- when the pages are right ----------

  /** Every page is the slice of the whole listing. */
  ghost predicate PagesExact(ms: seq<Member>)
  {
    forall offset: nat, limit: nat :: Walk(ms, offset, limit) == Slice(Listing(ms), offset, limit)
  }

  /** Every cached count is the true one, or too large with nothing listed after that member. */
  predicate CountsFit(ms: seq<Member>)
  {
    ms == []
    || ((ms[0].count == |ms[0].features| || (ms[0].count > |ms[0].features| && Listing(ms[1..]) == []))
        && CountsFit(ms[1..]))
  }

  predicate Distinct<T(==)>(s: seq<T>)
  {
    forall i, j | 0 <= i < j < |s| :: s[i] != s[j]
  }

  lemma SlicePast<T>(a: seq<T>, b: seq<T>, offset: nat, limit: nat)
    ensures offset >= |a| ==> Slice(a + b, offset, limit) == Slice(b, offset - |a|, limit)
    ensures offset <= |a| ==> Slice(a + b, offset, limit) ==
                              Slice(a, offset, limit) + Slice(b, 0, limit - |Slice(a, offset, limit)|)
  {
  }

  lemma {:induction false} FitMeansExact(ms: seq<Member>, offset: nat, limit: nat)
    requires CountsFit(ms)
    ensures Walk(ms, offset, limit) == Slice(Listing(ms), offset, limit)
    decreases |ms|
  {
    if ms != [] && limit > 0 {
      var first, rest := Tag(ms[0].id, ms[0].features), Listing(ms[1..]);
      SlicePast(first, rest, offset, limit);
      if offset >= ms[0].count {
        FitMeansExact(ms[1..], offset - ms[0].count, limit);
      } else {
        FitMeansExact(ms[1..], 0, limit - |Slice(first, offset, limit)|);
      }
    }
  }

  /** The element at one position, read as a page of length one. */
  lemma OneElement(ms: seq<Member>, k: nat)
    requires PagesExact(ms)
    ensures Walk(ms, k, 1) == if k < |Listing(ms)| then [Listing(ms)[k]] else []
  {
    assert Walk(ms, k, 1) == Slice(Listing(ms), k, 1);
  }

  lemma {:induction false} WalkIsListed(ms: seq<Member>, offset: nat, limit: nat, x: Tagged)
    requires x in Walk(ms, offset, limit)
    ensures x in Listing(ms)
    decreases |ms|
  {
    if ms != [] && limit > 0 {
      var first := Tag(ms[0].id, ms[0].features);
      if offset >= ms[0].count {
        WalkIsListed(ms[1..], offset - ms[0].count, limit, x);
      } else if x in Slice(first, offset, limit) {
        assert x in first;
      } else {
        WalkIsListed(ms[1..], 0, limit - |Slice(first, offset, limit)|, x);
      }
    }
  }

  lemma DistinctParts(a: seq<Tagged>, b: seq<Tagged>)
    requires Distinct(a + b)
    ensures Distinct(b)
    ensures forall x | x in a :: x !in b
  {
    forall i, j | 0 <= i < j < |b| ensures b[i] != b[j] {
      assert (a + b)[|a| + i] == b[i] && (a + b)[|a| + j] == b[j];
    }
    forall i, j | 0 <= i < |a| && 0 <= j < |b| ensures a[i] != b[j] {
      assert (a + b)[i] == a[i] && (a + b)[|a| + j] == b[j];
    }
  }

  /** With too small a count, the walk shows an element of the first list among what follows. */
  lemma ShownAmongRest(ms: seq<Member>)
    requires ms != [] && PagesExact(ms) && ms[0].count < |ms[0].features|
    ensures (ms[0].id, ms[0].features[ms[0].count]) in Listing(ms[1..])
  {
    var first, c := Tag(ms[0].id, ms[0].features), ms[0].count;
    OneElement(ms, c);
    hide PagesExact;
    assert Walk(ms[1..], 0, 1) == [first[c]];
    WalkIsListed(ms[1..], 0, 1, first[c]);
  }

  /** With exact pages the first member's count is not too small. */
  lemma CountNotSmall(ms: seq<Member>)
    requires ms != [] && PagesExact(ms) && Distinct(Listing(ms))
    ensures ms[0].count >= |ms[0].features|
  {
    hide PagesExact, Walk;
    if ms[0].count < |ms[0].features| {
      var first := Tag(ms[0].id, ms[0].features);
      DistinctParts(first, Listing(ms[1..]));
      assert first[ms[0].count] in first;
      ShownAmongRest(ms);
    }
  }

  /** Two positions cannot show the same element, or the second one nothing. */
  lemma NotTwice(first: seq<Tagged>, rest: seq<Tagged>, c: nat)
    requires Distinct(first + rest) && rest != [] && c > |first|
    ensures (if c < |first + rest| then [(first + rest)[c]] else []) != [rest[0]]
  {
    DistinctParts(first, rest);
    if c < |first + rest| {
      assert (first + rest)[c] == rest[c - |first|] && rest[0] != rest[c - |first|];
    }
  }

  /** Offsets past the first list but not past its count show the start of what follows. */
  lemma ShownAt(ms: seq<Member>, k: nat)
    requires ms != [] && PagesExact(ms) && |ms[0].features| <= k <= ms[0].count
    ensures Walk(ms[1..], 0, 1) == if k < |Listing(ms)| then [Listing(ms)[k]] else []
  {
    OneElement(ms, k);
    WalkStep(ms, 0, k, 1);
    hide PagesExact, Walk, Listing;
    var page := Slice(ms[0].features, k, 1);
    assert page == [] && Tag(ms[0].id, page) == [] && ms[0..] == ms;
    assert [] + Walk(ms[1..], 0, 1) == Walk(ms[1..], 0, 1);
  }

  /** Nor too large, unless nothing follows. */
  lemma CountNotLarge(ms: seq<Member>)
    requires ms != [] && PagesExact(ms) && Distinct(Listing(ms))
    ensures ms[0].count <= |ms[0].features| || Listing(ms[1..]) == []
  {
    hide PagesExact, Walk;
    if ms[0].count > |ms[0].features| && Listing(ms[1..]) != [] {
      NotTwice(Tag(ms[0].id, ms[0].features), Listing(ms[1..]), ms[0].count);
      ShownAt(ms, |ms[0].features|);
      ShownAt(ms, ms[0].count);
    }
  }

  lemma RestPage(ms: seq<Member>, offset: nat, limit: nat)
    requires ms != [] && PagesExact(ms) && ms[0].count == |ms[0].features|
    ensures Walk(ms[1..], offset, limit) == Slice(Listing(ms[1..]), offset, limit)
  {
    var first, rest := Tag(ms[0].id, ms[0].features), Listing(ms[1..]);
    var k := offset + |first|;
    SlicePast(first, rest, k, limit);
    assert Walk(ms, k, limit) == Slice(Listing(ms), k, limit);
    hide PagesExact, Slice;
    if limit == 0 {
      WalkEnds(ms[1..], offset, limit);
      SliceOfNone(rest, offset);
    }
  }

  lemma SliceOfNone<T>(s: seq<T>, offset: nat)
    ensures Slice(s, offset, 0) == []
  {
  }

  lemma RestExact(ms: seq<Member>)
    requires ms != [] && PagesExact(ms) && ms[0].count == |ms[0].features|
    ensures PagesExact(ms[1..])
  {
    forall offset: nat, limit: nat
      ensures Walk(ms[1..], offset, limit) == Slice(Listing(ms[1..]), offset, limit)
    {
      RestPage(ms, offset, limit);
    }
  }

  lemma {:induction false} NothingFits(ms: seq<Member>)
    requires Listing(ms) == []
    ensures CountsFit(ms)
  {
    if ms != [] {
      NothingFits(ms[1..]);
    }
  }

  lemma {:induction false} ExactMeansFit(ms: seq<Member>)
    requires PagesExact(ms) && Distinct(Listing(ms))
    ensures CountsFit(ms)
  {
    if ms != [] {
      CountNotSmall(ms);
      CountNotLarge(ms);
      if ms[0].count == |ms[0].features| {
        RestExact(ms);
        DistinctParts(Tag(ms[0].id, ms[0].features), Listing(ms[1..]));
        ExactMeansFit(ms[1..]);
      } else {
        NothingFits(ms[1..]);
      }
    }
  }

  /** The pages are right, for all offsets and limits, exactly when the cached counts fit. */
  lemma PagesExactIffCountsFit(ms: seq<Member>)
    requires Distinct(Listing(ms))
    ensures PagesExact(ms) <==> CountsFit(ms)
  {
    if CountsFit(ms) {
      forall offset: nat, limit: nat ensures Walk(ms, offset, limit) == Slice(Listing(ms), offset, limit) {
        FitMeansExact(ms, offset, limit);
      }
    }
    if PagesExact(ms) {
      ExactMeansFit(ms);
    }
  }

  /** A count that was true before a filter emptied the list: the second member's only feature is
      shown on the first page of length one, and again on the second. */
  lemma FilteredListMisses()
    ensures var ms := [Member("a", [], 1), Member("b", ["x"], 1)];
            && !PagesExact(ms)
            && Walk(ms, 0, 1) == Walk(ms, 1, 1) == Listing(ms) == [("b", "x")]
  {
    var a, b := Member("a", [], 1), Member("b", ["x"], 1);
    var ms := [a, b];
    assert ms[1..] == [b] && ms[2..] == [] && ms[0..] == ms;
    var shown := [("b", "x")];
    assert Tag("b", ["x"]) == shown && Tag("a", []) == [];
    WalkStep(ms, 1, 0, 1);
    WalkEnds([], 0, 0);
    assert Walk(ms[1..], 0, 1) == shown;
    WalkStep(ms, 0, 0, 1);
    WalkStep(ms, 0, 1, 1);
    assert Listing([b]) == shown + Listing([b][1..]) && [b][1..] == [];
    assert Listing(ms) == [] + Listing(ms[1..]);
    assert Walk(ms, 1, 1) != Slice(Listing(ms), 1, 1);
  }

  // ---------- following the pages ----------

  /** A client that asks for page after page until one is empty. */
  function Crawl(ms: seq<Member>, offset: nat, size: nat): seq<Tagged>
    requires CountsFit(ms) && size > 0
    decreases |Listing(ms)| - offset
  {
    FitMeansExact(ms, offset, size);
    var page := Walk(ms, offset, size);
    if page == [] then [] else page + Crawl(ms, offset + size, size)
  }

  lemma CrawlStep(ms: seq<Member>, offset: nat, size: nat)
    requires CountsFit(ms) && size > 0
    ensures var all := Listing(ms);
            Crawl(ms, offset, size) ==
            if offset >= |all| then [] else Slice(all, offset, size) + Crawl(ms, offset + size, size)
  {
    FitMeansExact(ms, offset, size);
    hide Walk, CountsFit, Listing;
  }

  lemma SliceThenRest<T>(s: seq<T>, offset: nat, size: nat)
    requires offset <= |s|
    ensures Slice(s, offset, size) + (if offset + size <= |s| then s[offset + size..] else []) == s[offset..]
  {
  }

  /** It sees the whole listing: no gap, no repeat, the same order. */
  lemma {:induction false} CrawlSeesAll(ms: seq<Member>, offset: nat, size: nat)
    requires CountsFit(ms) && size > 0
    ensures Crawl(ms, offset, size) == if offset <= |Listing(ms)| then Listing(ms)[offset..] else []
    decreases |Listing(ms)| - offset
  {
    hide Walk, CountsFit, Listing, Crawl, Slice;
    CrawlStep(ms, offset, size);
    if offset < |Listing(ms)| {
      CrawlSeesAll(ms, offset + size, size);
      SliceThenRest(Listing(ms), offset, size);
    }
  }
}
