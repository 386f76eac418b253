/** The merged page of a composite collection: every member gives a bounded prefix of its sorted
    list, the prefixes are sorted together by composite id, and the page is cut out. */
module CompositeMerge {
  import opened Wrappers
  import Lexicographic
  import opened CompositeWalk
  import opened Paging

  // ---------- composite ids ----------

  const SEP := ':'

  function FormatId(member: string, feature: string): string
  {
    member + [SEP] + feature
  }

  /** str.partition: what stands before and after the first separator. */
  function Partition(s: string): Option<(string, string)>
  {
    if s == "" then None
    else if s[0] == SEP then Some(("", s[1..]))
    else
      match Partition(s[1..])
      case None => None
      case Some((before, after)) => Some(([s[0]] + before, after))
  }

  function ParseId(item: string): Option<(string, string)>
  {
    match Partition(item)
    case None => None
    case Some((member, feature)) => if member == "" || feature == "" then None else Some((member, feature))
  }

  lemma {:induction false} PartitionOf(m: string, f: string)
    ensures SEP !in m ==> Partition(FormatId(m, f)) == Some((m, f))
    ensures SEP in m ==> Partition(FormatId(m, f)).Some? && Partition(FormatId(m, f)).value.0 != m
  {
    if m == "" {
      assert FormatId(m, f)[1..] == f;
    } else {
      assert m == [m[0]] + m[1..];
      assert FormatId(m, f)[0] == m[0] && FormatId(m, f)[1..] == FormatId(m[1..], f);
      PartitionOf(m[1..], f);
    }
  }

  /** A composite id gives back its parts exactly when the member id has no separator and neither
      part is empty. */
  lemma FormatThenParse(m: string, f: string)
    ensures ParseId(FormatId(m, f)) == Some((m, f)) <==> m != "" && f != "" && SEP !in m
  {
    PartitionOf(m, f);
  }

  // ---------- the order of a page ----------

  /** `a` comes strictly before `b`; with equal keys neither does, also in descending order. */
  predicate Before(a: Tagged, b: Tagged, desc: bool)
  {
    if desc then Lexicographic.Less(FormatId(b.0, b.1), FormatId(a.0, a.1))
    else Lexicographic.Less(FormatId(a.0, a.1), FormatId(b.0, b.1))
  }

  lemma BeforeLaws(a: Tagged, b: Tagged, c: Tagged, desc: bool)
    ensures !Before(a, a, desc)
    ensures Before(a, b, desc) ==> !Before(b, a, desc)
    ensures Before(a, b, desc) && Before(b, c, desc) ==> Before(a, c, desc)
    ensures Before(a, c, desc) ==> Before(a, b, desc) || Before(b, c, desc)
  {
    var x, y, z := FormatId(a.0, a.1), FormatId(b.0, b.1), FormatId(c.0, c.1);
    Lexicographic.LessIrreflexive(x);
    Lexicographic.LessTotal(x, y);
    Lexicographic.LessTotal(y, z);
    if Lexicographic.Less(x, y) { Lexicographic.LessAsymmetric(x, y); }
    if Lexicographic.Less(y, x) { Lexicographic.LessAsymmetric(y, x); }
    if Lexicographic.Less(x, z) { Lexicographic.LessAsymmetric(x, z); }
    if Lexicographic.Less(z, x) { Lexicographic.LessAsymmetric(z, x); }
    if Lexicographic.Less(x, y) && Lexicographic.Less(y, z) { Lexicographic.LessTransitive(x, y, z); }
    if Lexicographic.Less(z, y) && Lexicographic.Less(y, x) { Lexicographic.LessTransitive(z, y, x); }
  }

  predicate Ordered(s: seq<Tagged>, desc: bool)
  {
    forall i, j | 0 <= i < j < |s| :: !Before(s[j], s[i], desc)
  }

  /** By composite id, ascending or descending. */
  predicate InOrder(s: seq<Tagged>, desc: bool)
  {
    forall i, j | 0 <= i < j < |s| ::
      var x, y := FormatId(s[i].0, s[i].1), FormatId(s[j].0, s[j].1);
      if desc then !Lexicographic.Less(x, y) else !Lexicographic.Less(y, x)
  }

  lemma OrderedMeans(s: seq<Tagged>, desc: bool)
    ensures Ordered(s, desc) <==> InOrder(s, desc)
  {
    if InOrder(s, desc) {
      forall i, j | 0 <= i < j < |s| ensures !Before(s[j], s[i], desc) {
        var x, y := FormatId(s[i].0, s[i].1), FormatId(s[j].0, s[j].1);
        assert if desc then !Lexicographic.Less(x, y) else !Lexicographic.Less(y, x);
      }
    }
  }

  /** The page stands between `before` and `after` in an arrangement of all elements by composite
      id; offset elements are before it, and it is short only when nothing comes after it. */
  ghost predicate CutAt(page: seq<Tagged>, before: seq<Tagged>, after: seq<Tagged>, all: seq<Tagged>,
                        offset: nat, limit: nat, desc: bool)
  {
    && multiset(before + page + after) == multiset(all) && InOrder(before + page + after, desc)
    && |before| <= offset && (page + after != [] ==> |before| == offset)
    && |page| <= limit && (after != [] ==> |page| == limit)
  }

  ghost predicate CutOf(page: seq<Tagged>, all: seq<Tagged>, offset: nat, limit: nat, desc: bool)
  {
    exists before: seq<Tagged>, after: seq<Tagged> :: CutAt(page, before, after, all, offset, limit, desc)
  }

  // ---------- a stable sort ----------

  /** The leftmost of the elements that nothing comes before. */
  function Best(s: seq<Tagged>, desc: bool): (k: nat)
    requires s != []
    ensures k < |s|
  {
    if |s| == 1 then 0
    else
      var k := Best(s[1..], desc) + 1;
      if Before(s[k], s[0], desc) then k else 0
  }

  function Removed<T>(s: seq<T>, k: nat): (r: seq<T>)
    requires k < |s|
    ensures |r| == |s| - 1
  {
    s[..k] + s[k + 1..]
  }

  /** list.sort, with or without reverse: the leftmost best first. */
  function Sorted(s: seq<Tagged>, desc: bool): (r: seq<Tagged>)
    ensures |r| == |s|
    decreases |s|
  {
    if s == [] then [] else [s[Best(s, desc)]] + Sorted(Removed(s, Best(s, desc)), desc)
  }

  function WithKey(s: seq<Tagged>, x: Tagged, desc: bool): seq<Tagged>
  {
    if s == [] then []
    else (if !Before(s[0], x, desc) && !Before(x, s[0], desc) then [s[0]] else []) + WithKey(s[1..], x, desc)
  }

  lemma {:induction false} BestIsBest(s: seq<Tagged>, desc: bool)
    requires s != []
    ensures forall j | 0 <= j < |s| :: !Before(s[j], s[Best(s, desc)], desc)
    ensures forall j | 0 <= j < Best(s, desc) :: Before(s[Best(s, desc)], s[j], desc)
  {
    if |s| > 1 {
      var rest := s[1..];
      BestIsBest(rest, desc);
      var k, b := Best(rest, desc), Best(s, desc);
      forall j | 0 <= j < |s| ensures !Before(s[j], s[b], desc) && (j < b ==> Before(s[b], s[j], desc)) {
        BeforeLaws(s[0], s[0], s[0], desc);
        BeforeLaws(s[k + 1], s[0], s[k + 1], desc);
        if j > 0 {
          assert rest[j - 1] == s[j];
          BeforeLaws(s[j], s[k + 1], s[0], desc);
        }
      }
    } else {
      BeforeLaws(s[0], s[0], s[0], desc);
    }
  }

  lemma {:induction false} WithKeyConcat(a: seq<Tagged>, b: seq<Tagged>, x: Tagged, desc: bool)
    ensures WithKey(a + b, x, desc) == WithKey(a, x, desc) + WithKey(b, x, desc)
  {
    if a == [] {
      assert a + b == b;
    } else {
      assert (a + b)[0] == a[0] && (a + b)[1..] == a[1..] + b;
      WithKeyConcat(a[1..], b, x, desc);
    }
  }

  lemma {:induction false} NoneWithKey(s: seq<Tagged>, x: Tagged, desc: bool)
    requires forall j | 0 <= j < |s| :: Before(x, s[j], desc)
    ensures WithKey(s, x, desc) == []
  {
    if s != [] {
      NoneWithKey(s[1..], x, desc);
    }
  }

  lemma WithKeyMoved(left: seq<Tagged>, y: Tagged, right: seq<Tagged>, x: Tagged, desc: bool)
    requires WithKey([y], x, desc) == [] || WithKey(left, x, desc) == []
    ensures WithKey([y] + (left + right), x, desc) == WithKey(left + ([y] + right), x, desc)
  {
    WithKeyConcat(left, [y] + right, x, desc);
    WithKeyConcat([y], right, x, desc);
    WithKeyConcat([y], left + right, x, desc);
    WithKeyConcat(left, right, x, desc);
    hide WithKey;
  }

  lemma WithKeyOne(y: Tagged, x: Tagged, desc: bool)
    ensures WithKey([y], x, desc) == if !Before(y, x, desc) && !Before(x, y, desc) then [y] else []
  {
    assert WithKey([y][1..], x, desc) == [];
  }

  lemma RemovedKeepsKeys(s: seq<Tagged>, x: Tagged, desc: bool)
    requires s != []
    ensures WithKey([s[Best(s, desc)]] + Removed(s, Best(s, desc)), x, desc) == WithKey(s, x, desc)
  {
    var b := Best(s, desc);
    BestIsBest(s, desc);
    hide Best, Before;
    var left, y, right := s[..b], s[b], s[b + 1..];
    assert s == left + ([y] + right);
    if WithKey([y], x, desc) != [] {
      WithKeyOne(y, x, desc);
      forall j | 0 <= j < |left| ensures Before(x, left[j], desc) {
        assert left[j] == s[j] && Before(y, s[j], desc);
        BeforeLaws(y, x, left[j], desc);
      }
      NoneWithKey(left, x, desc);
    }
    WithKeyMoved(left, y, right, x, desc);
  }

  lemma {:induction false} SortedKeepsKeys(s: seq<Tagged>, x: Tagged, desc: bool)
    ensures WithKey(Sorted(s, desc), x, desc) == WithKey(s, x, desc)
    decreases |s|
  {
    if s != [] {
      var b := Best(s, desc);
      SortedKeepsKeys(Removed(s, b), x, desc);
      RemovedKeepsKeys(s, x, desc);
      WithKeyConcat([s[b]], Sorted(Removed(s, b), desc), x, desc);
      WithKeyConcat([s[b]], Removed(s, b), x, desc);
      hide Best, Removed, WithKey;
    }
  }

  lemma RemovedElements(s: seq<Tagged>, k: nat)
    requires k < |s|
    ensures multiset([s[k]] + Removed(s, k)) == multiset(s)
  {
    assert s == s[..k] + ([s[k]] + s[k + 1..]);
  }

  lemma OrderedFrom(x: Tagged, r: seq<Tagged>, desc: bool)
    requires Ordered(r, desc) && forall y | y in multiset(r) :: !Before(y, x, desc)
    ensures Ordered([x] + r, desc)
  {
    forall i, j | 0 <= i < j < |[x] + r| ensures !Before(([x] + r)[j], ([x] + r)[i], desc) {
      assert r[j - 1] in multiset(r);
    }
  }

  lemma {:induction false} SortedIsOrdered(s: seq<Tagged>, desc: bool)
    ensures Ordered(Sorted(s, desc), desc) && multiset(Sorted(s, desc)) == multiset(s)
    decreases |s|
  {
    if s != [] {
      var b := Best(s, desc);
      var rest := Removed(s, b);
      SortedIsOrdered(rest, desc);
      BestIsBest(s, desc);
      RemovedElements(s, b);
      hide Before, Best, Removed, Ordered;
      forall y | y in multiset(rest) ensures !Before(y, s[b], desc) {
        assert y in multiset([s[b]] + rest);
        assert y in s;
      }
      OrderedFrom(s[b], Sorted(rest, desc), desc);
    }
  }

  /** The result is in order, and the elements with any one key are the same ones in the same order
      as before: a stable permutation. */
  lemma SortedIsStableSort(s: seq<Tagged>, desc: bool)
    ensures Ordered(Sorted(s, desc), desc) && multiset(Sorted(s, desc)) == multiset(s)
    ensures forall x :: WithKey(Sorted(s, desc), x, desc) == WithKey(s, x, desc)
  {
    SortedIsOrdered(s, desc);
    forall x ensures WithKey(Sorted(s, desc), x, desc) == WithKey(s, x, desc) {
      SortedKeepsKeys(s, x, desc);
    }
  }

  // ---------- sorting sorted lists together is merging ----------

  function Flat(lists: seq<seq<Tagged>>): seq<Tagged>
  {
    if lists == [] then [] else lists[0] + Flat(lists[1..])
  }

  predicate AllOrdered(lists: seq<seq<Tagged>>, desc: bool)
  {
    forall i | 0 <= i < |lists| :: Ordered(lists[i], desc)
  }

  /** The list whose head is the leftmost best of all heads; None when all are empty. */
  function Pick(lists: seq<seq<Tagged>>, desc: bool): (p: Option<nat>)
    ensures p.Some? ==> p.value < |lists| && lists[p.value] != []
    ensures p.None? ==> forall i | 0 <= i < |lists| :: lists[i] == []
  {
    if lists == [] then None
    else
      var p := Pick(lists[1..], desc);
      if lists[0] == [] then (if p.None? then None else Some(p.value + 1))
      else if p.Some? && Before(lists[p.value + 1][0], lists[0][0], desc) then Some(p.value + 1)
      else Some(0)
  }

  function Popped(lists: seq<seq<Tagged>>, p: nat): seq<seq<Tagged>>
    requires p < |lists| && lists[p] != []
  {
    lists[p := lists[p][1..]]
  }

  /** The first k elements of the merge. */
  function Merge(lists: seq<seq<Tagged>>, desc: bool, k: nat): (r: seq<Tagged>)
    ensures |r| <= k
    decreases k
  {
    if k == 0 || Pick(lists, desc).None? then []
    else
      var p := Pick(lists, desc).value;
      [lists[p][0]] + Merge(Popped(lists, p), desc, k - 1)
  }

  lemma BestUnique(s: seq<Tagged>, k: nat, desc: bool)
    requires k < |s|
    requires forall j | 0 <= j < |s| :: !Before(s[j], s[k], desc)
    requires forall j | 0 <= j < k :: Before(s[k], s[j], desc)
    ensures Best(s, desc) == k
  {
    BestIsBest(s, desc);
    var b := Best(s, desc);
    assert !Before(s[k], s[b], desc) && !Before(s[b], s[k], desc);
  }

  lemma BestOfOrdered(s: seq<Tagged>, desc: bool)
    requires Ordered(s, desc) && s != []
    ensures Best(s, desc) == 0
  {
    forall j | 0 <= j < |s| ensures !Before(s[j], s[0], desc) {
      BeforeLaws(s[0], s[0], s[0], desc);
    }
    BestUnique(s, 0, desc);
  }

  /** The best of a concatenation is the best of one part, the first on a tie. */
  lemma BestOfConcat(a: seq<Tagged>, b: seq<Tagged>, desc: bool)
    requires a != [] && b != []
    ensures Best(a + b, desc) ==
            if Before(b[Best(b, desc)], a[Best(a, desc)], desc) then |a| + Best(b, desc) else Best(a, desc)
  {
    BestIsBest(a, desc);
    BestIsBest(b, desc);
    var x, y := a[Best(a, desc)], b[Best(b, desc)];
    var k := if Before(y, x, desc) then |a| + Best(b, desc) else Best(a, desc);
    var s := a + b;
    hide Before, Best;
    assert s[k] == if Before(y, x, desc) then y else x;
    forall j | 0 <= j < |s| ensures !Before(s[j], s[k], desc) && (j < k ==> Before(s[k], s[j], desc)) {
      assert s[j] == if j < |a| then a[j] else b[j - |a|];
      BeforeLaws(s[j], x, y, desc);
      BeforeLaws(s[j], y, x, desc);
      BeforeLaws(y, x, s[j], desc);
      BeforeLaws(y, s[j], x, desc);
    }
    BestUnique(s, k, desc);
  }

  lemma FlatPopFirst(lists: seq<seq<Tagged>>)
    requires lists != [] && lists[0] != []
    ensures Flat(Popped(lists, 0)) == Removed(Flat(lists), 0)
  {
    assert Popped(lists, 0)[0] == lists[0][1..] && Popped(lists, 0)[1..] == lists[1..];
  }

  lemma FlatPopLater(lists: seq<seq<Tagged>>, p: nat)
    requires p + 1 < |lists| && lists[p + 1] != []
    ensures Flat(Popped(lists, p + 1)) == lists[0] + Flat(Popped(lists[1..], p))
  {
    assert Popped(lists, p + 1)[0] == lists[0] && Popped(lists, p + 1)[1..] == Popped(lists[1..], p);
  }

  lemma RemovedLater<T>(a: seq<T>, b: seq<T>, k: nat)
    requires k < |b|
    ensures (a + b)[|a| + k] == b[k] && Removed(a + b, |a| + k) == a + Removed(b, k)
  {
  }

  /** Where the best of the flat list stands, from where the best of its tail stands. */
  lemma BestStep(first: seq<Tagged>, all: seq<Tagged>, desc: bool)
    requires Ordered(first, desc) && (first != [] || all != [])
    ensures Best(first + all, desc) == if Later(first, all, desc) then |first| + Best(all, desc) else 0
  {
    if first == [] {
      assert first + all == all;
    } else if all == [] {
      assert first + all == first;
      BestOfOrdered(first, desc);
    } else {
      BestOfOrdered(first, desc);
      BestOfConcat(first, all, desc);
    }
  }

  /** The picked head is the best of the flat list, and popping it removes it there. */
  predicate PickOk(lists: seq<seq<Tagged>>, desc: bool)
  {
    var flat, p := Flat(lists), Pick(lists, desc);
    && (flat == [] <==> p.None?)
    && (flat != [] ==> flat[Best(flat, desc)] == lists[p.value][0]
                       && Removed(flat, Best(flat, desc)) == Flat(Popped(lists, p.value)))
  }

  /** The best of the flat list is not in the first list. */
  predicate Later(first: seq<Tagged>, all: seq<Tagged>, desc: bool)
  {
    all != [] && (first == [] || Before(all[Best(all, desc)], first[0], desc))
  }

  lemma PickStep(lists: seq<seq<Tagged>>, desc: bool)
    requires lists != [] && PickOk(lists[1..], desc)
    ensures var q := Pick(lists[1..], desc);
            Pick(lists, desc) ==
            if Later(lists[0], Flat(lists[1..]), desc) then Some(q.value + 1)
            else if lists[0] == [] then None else Some(0)
  {
    hide Before, Best, Removed, Popped;
  }

  lemma PickFirst(lists: seq<seq<Tagged>>, desc: bool)
    requires lists != [] && lists[0] != [] && Ordered(lists[0], desc)
    requires !Later(lists[0], Flat(lists[1..]), desc) && Pick(lists, desc) == Some(0)
    ensures PickOk(lists, desc)
  {
    hide Before, Ordered, Best, Removed, Pick, Popped;
    BestStep(lists[0], Flat(lists[1..]), desc);
    FlatPopFirst(lists);
  }

  lemma PickLater(lists: seq<seq<Tagged>>, all: seq<Tagged>, b: nat, q: nat, desc: bool)
    requires lists != [] && Ordered(lists[0], desc) && PickOk(lists[1..], desc)
    requires all == Flat(lists[1..]) && Later(lists[0], all, desc) && b == Best(all, desc)
    requires Pick(lists[1..], desc) == Some(q) && Pick(lists, desc) == Some(q + 1)
    ensures PickOk(lists, desc)
  {
    hide Before, Ordered, Best, Removed, Pick, Popped;
    BestStep(lists[0], all, desc);
    FlatPopLater(lists, q);
    RemovedLater(lists[0], all, b);
  }

  lemma PickCases(lists: seq<seq<Tagged>>, desc: bool)
    requires lists != [] && Ordered(lists[0], desc) && PickOk(lists[1..], desc)
    ensures PickOk(lists, desc)
  {
    hide Before, Best, Ordered, Removed, Popped, Pick;
    var first, all := lists[0], Flat(lists[1..]);
    PickStep(lists, desc);
    if Later(first, all, desc) {
      PickLater(lists, all, Best(all, desc), Pick(lists[1..], desc).value, desc);
    } else if first != [] {
      PickFirst(lists, desc);
    }
  }

  lemma {:induction false} PickIsBest(lists: seq<seq<Tagged>>, desc: bool)
    requires AllOrdered(lists, desc)
    ensures PickOk(lists, desc)
  {
    if lists != [] {
      hide PickOk, Ordered;
      PickIsBest(lists[1..], desc);
      PickCases(lists, desc);
    }
  }

  lemma PoppedOrdered(lists: seq<seq<Tagged>>, p: nat, desc: bool)
    requires AllOrdered(lists, desc) && p < |lists| && lists[p] != []
    ensures AllOrdered(Popped(lists, p), desc)
  {
    var t := lists[p][1..];
    forall i, j | 0 <= i < j < |t| ensures !Before(t[j], t[i], desc) {
      assert t[i] == lists[p][i + 1] && t[j] == lists[p][j + 1];
    }
  }

  /** The stable sort of sorted lists put one after the other is their merge, to any length. */
  lemma {:induction false} SortIsMerge(lists: seq<seq<Tagged>>, desc: bool, k: nat)
    requires AllOrdered(lists, desc)
    ensures Merge(lists, desc, k) == Slice(Sorted(Flat(lists), desc), 0, k)
    decreases k
  {
    hide Before, Best, Removed, Popped, Pick, Ordered, Flat, AllOrdered, Slice;
    PickIsBest(lists, desc);
    SliceEnds(Sorted(Flat(lists), desc), k);
    if k > 0 && Flat(lists) != [] {
      var p := Pick(lists, desc).value;
      PoppedOrdered(lists, p, desc);
      SortIsMerge(Popped(lists, p), desc, k - 1);
      SliceFirst(lists[p][0], Sorted(Flat(Popped(lists, p)), desc), k);
    }
  }

  lemma SliceLength<T>(s: seq<T>, offset: nat, limit: nat)
    ensures |Slice(s, offset, limit)|
        == if offset >= |s| then 0 else if offset + limit >= |s| then |s| - offset else limit
  {
  }

  lemma SliceEnds<T>(s: seq<T>, k: nat)
    ensures s == [] || k == 0 ==> Slice(s, 0, k) == []
  {
  }

  lemma SliceFirst<T>(x: T, s: seq<T>, k: nat)
    requires k > 0
    ensures Slice([x] + s, 0, k) == [x] + Slice(s, 0, k - 1)
  {
  }

  // ---------- prefixes are enough ----------

  /** Each list of `ps` is a prefix of the one in `lists`: all of it, or at least k elements. */
  predicate Covers(ps: seq<seq<Tagged>>, lists: seq<seq<Tagged>>, k: nat)
  {
    && |ps| == |lists|
    && forall i | 0 <= i < |lists| :: ps[i] <= lists[i] && (ps[i] == lists[i] || |ps[i]| >= k)
  }

  lemma {:induction false} SamePick(ps: seq<seq<Tagged>>, lists: seq<seq<Tagged>>, desc: bool, k: nat)
    requires Covers(ps, lists, k) && k > 0
    ensures Pick(ps, desc) == Pick(lists, desc)
    ensures Pick(ps, desc).Some? ==> var p := Pick(ps, desc).value; ps[p][0] == lists[p][0]
  {
    if lists != [] {
      assert Covers(ps[1..], lists[1..], k);
      SamePick(ps[1..], lists[1..], desc, k);
      assert ps[0] != [] <==> lists[0] != [];
    }
  }

  lemma PoppedCovers(ps: seq<seq<Tagged>>, lists: seq<seq<Tagged>>, p: nat, k: nat)
    requires Covers(ps, lists, k) && k > 0 && p < |lists| && ps[p] != [] && lists[p] != []
    ensures Covers(Popped(ps, p), Popped(lists, p), k - 1)
  {
  }

  lemma {:induction false} PrefixesSuffice(ps: seq<seq<Tagged>>, lists: seq<seq<Tagged>>, desc: bool, k: nat)
    requires Covers(ps, lists, k)
    ensures Merge(ps, desc, k) == Merge(lists, desc, k)
    decreases k
  {
    if k > 0 {
      SamePick(ps, lists, desc, k);
      if Pick(ps, desc).Some? {
        var p := Pick(ps, desc).value;
        PoppedCovers(ps, lists, p, k);
        PrefixesSuffice(Popped(ps, p), Popped(lists, p), desc, k - 1);
      }
    }
  }

  // ---------- the page ----------

  function FetchLimit(limit: nat, offset: nat, mergeCap: nat, itemsMax: nat): (n: nat)
    ensures n <= itemsMax && (n < itemsMax ==> n >= limit + offset && n >= mergeCap)
    ensures n <= limit + offset || n <= mergeCap
  {
    var cap := if limit + offset > mergeCap then limit + offset else mergeCap;
    if cap < itemsMax then cap else itemsMax
  }

  function Prefixes(lists: seq<seq<Tagged>>, n: nat): seq<seq<Tagged>>
  {
    if lists == [] then [] else [Slice(lists[0], 0, n)] + Prefixes(lists[1..], n)
  }

  /** The page as it would be with every member's whole list. */
  function FullPage(lists: seq<seq<Tagged>>, offset: nat, limit: nat, desc: bool): seq<Tagged>
  {
    Slice(Sorted(Flat(lists), desc), offset, limit)
  }

  lemma {:induction false} FlatConcat(a: seq<seq<Tagged>>, x: seq<Tagged>)
    ensures Flat(a + [x]) == Flat(a) + x
  {
    if a == [] {
      assert a + [x] == [x] && [x][1..] == [];
    } else {
      assert (a + [x])[0] == a[0] && (a + [x])[1..] == a[1..] + [x];
      FlatConcat(a[1..], x);
    }
  }

  lemma {:induction false} PrefixAt(lists: seq<seq<Tagged>>, n: nat)
    ensures |Prefixes(lists, n)| == |lists|
    ensures forall i | 0 <= i < |lists| :: Prefixes(lists, n)[i] == Slice(lists[i], 0, n)
  {
    if lists != [] {
      PrefixAt(lists[1..], n);
    }
  }

  method MergedPage(lists: seq<seq<Tagged>>, offset: nat, limit: nat, desc: bool, mergeCap: nat, itemsMax: nat)
    returns (page: seq<Tagged>)
    ensures page == FullPage(Prefixes(lists, FetchLimit(limit, offset, mergeCap, itemsMax)), offset, limit, desc)
    ensures forall i, j | 0 <= i < j < |page| ::
              var x, y := FormatId(page[i].0, page[i].1), FormatId(page[j].0, page[j].1);
              if desc then !Lexicographic.Less(x, y) else !Lexicographic.Less(y, x)
    ensures (forall l | l in lists :: InOrder(l, desc)) && (limit == 0 || offset + limit <= itemsMax) ==>
              CutOf(page, Flat(lists), offset, limit, desc)
  {
    PageIsInOrder(lists, offset, limit, desc, mergeCap, itemsMax);
    var n := FetchLimit(limit, offset, mergeCap, itemsMax);
    var merged: seq<Tagged> := [];
    ghost var ps := Prefixes(lists, n);
    PrefixAt(lists, n);
    for i := 0 to |lists|
      invariant merged == Flat(ps[..i])
    {
      merged := merged + Slice(lists[i], 0, n);
      FlatConcat(ps[..i], ps[i]);
      assert ps[..i + 1] == ps[..i] + [ps[i]];
    }
    assert ps[..|lists|] == ps;
    page := Slice(Sorted(merged, desc), offset, limit);
  }

  lemma SliceOfSlice<T>(s: seq<T>, offset: nat, limit: nat)
    ensures Slice(Slice(s, 0, offset + limit), offset, limit) == Slice(s, offset, limit)
  {
  }

  lemma PrefixesCover(lists: seq<seq<Tagged>>, desc: bool, n: nat, k: nat)
    requires AllOrdered(lists, desc) && k <= n
    ensures AllOrdered(Prefixes(lists, n), desc) && Covers(Prefixes(lists, n), lists, k)
  {
    PrefixAt(lists, n);
    hide Before;
  }

  lemma PageOfMerge(lists: seq<seq<Tagged>>, offset: nat, limit: nat, desc: bool)
    requires AllOrdered(lists, desc)
    ensures FullPage(lists, offset, limit, desc) == Slice(Merge(lists, desc, offset + limit), offset, limit)
  {
    hide AllOrdered, Merge, Sorted, Flat, Slice;
    SortIsMerge(lists, desc, offset + limit);
    SliceOfSlice(Sorted(Flat(lists), desc), offset, limit);
  }

  /** Sorting the prefixes gives the page of sorting everything, ascending or descending. */
  lemma PrefixPageIsFullPage(lists: seq<seq<Tagged>>, offset: nat, limit: nat, desc: bool, n: nat)
    requires AllOrdered(lists, desc) && offset + limit <= n
    ensures FullPage(Prefixes(lists, n), offset, limit, desc) == FullPage(lists, offset, limit, desc)
  {
    hide *;
    PrefixesCover(lists, desc, n, offset + limit);
    PrefixesSuffice(Prefixes(lists, n), lists, desc, offset + limit);
    PageOfMerge(Prefixes(lists, n), offset, limit, desc);
    PageOfMerge(lists, offset, limit, desc);
  }

  /** The page of everything is a cut of everything in order. */
  lemma FullPageIsCut(lists: seq<seq<Tagged>>, offset: nat, limit: nat, desc: bool)
    ensures CutOf(FullPage(lists, offset, limit, desc), Flat(lists), offset, limit, desc)
  {
    hide Ordered, InOrder, Sorted, Flat;
    var all := Sorted(Flat(lists), desc);
    SortedIsOrdered(Flat(lists), desc);
    OrderedMeans(all, desc);
    SliceIsCut(all, Flat(lists), offset, limit, desc);
  }

  lemma SliceIsCut(s: seq<Tagged>, all: seq<Tagged>, offset: nat, limit: nat, desc: bool)
    requires InOrder(s, desc) && multiset(s) == multiset(all)
    ensures CutOf(Slice(s, offset, limit), all, offset, limit, desc)
  {
    hide InOrder, CutOf;
    var o := if offset <= |s| then offset else |s|;
    var e := if offset + limit <= |s| then offset + limit else |s|;
    var page := Slice(s, offset, limit);
    assert page == s[o..e];
    assert s[..o] + page + s[e..] == s;
    hide Slice;
    assert CutAt(page, s[..o], s[e..], all, offset, limit, desc);
    CutByParts(page, s[..o], s[e..], all, offset, limit, desc);
  }

  lemma CutByParts(page: seq<Tagged>, before: seq<Tagged>, after: seq<Tagged>, all: seq<Tagged>,
                   offset: nat, limit: nat, desc: bool)
    requires CutAt(page, before, after, all, offset, limit, desc)
    ensures CutOf(page, all, offset, limit, desc)
  {
    hide CutAt;
  }

  lemma CutInOrder(before: seq<Tagged>, page: seq<Tagged>, after: seq<Tagged>, desc: bool)
    requires InOrder(before + page + after, desc)
    ensures InOrder(page, desc)
  {
    var s := before + page + after;
    forall i, j | 0 <= i < j < |page|
      ensures var x, y := FormatId(page[i].0, page[i].1), FormatId(page[j].0, page[j].1);
              if desc then !Lexicographic.Less(x, y) else !Lexicographic.Less(y, x)
    {
      assert s[|before| + i] == page[i] && s[|before| + j] == page[j];
    }
  }

  lemma CutIsInOrder(page: seq<Tagged>, all: seq<Tagged>, offset: nat, limit: nat, desc: bool)
    requires CutOf(page, all, offset, limit, desc)
    ensures InOrder(page, desc)
  {
    var before, after :| CutAt(page, before, after, all, offset, limit, desc);
    hide InOrder;
    CutInOrder(before, page, after, desc);
  }

  /** What the merged page is, in terms of composite ids. */
  lemma PageIsInOrder(lists: seq<seq<Tagged>>, offset: nat, limit: nat, desc: bool, mergeCap: nat, itemsMax: nat)
    ensures var page := FullPage(Prefixes(lists, FetchLimit(limit, offset, mergeCap, itemsMax)), offset, limit, desc);
            && InOrder(page, desc)
            && ((forall l | l in lists :: InOrder(l, desc)) && (limit == 0 || offset + limit <= itemsMax) ==>
                  CutOf(page, Flat(lists), offset, limit, desc))
  {
    var n := FetchLimit(limit, offset, mergeCap, itemsMax);
    var ps := Prefixes(lists, n);
    FullPageIsCut(ps, offset, limit, desc);
    CutIsInOrder(FullPage(ps, offset, limit, desc), Flat(ps), offset, limit, desc);
    if (forall l | l in lists :: InOrder(l, desc)) && (limit == 0 || offset + limit <= itemsMax) {
      FullPageIsCut(lists, offset, limit, desc);
      hide Ordered, InOrder, Sorted, Flat, CutOf;
      forall i | 0 <= i < |lists| ensures Ordered(lists[i], desc) {
        OrderedMeans(lists[i], desc);
      }
      if limit > 0 {
        PrefixPageIsFullPage(lists, offset, limit, desc, n);
      }
    }
  }

  // ---------- exactly when the page is right ----------

  /** Feature ids are unique in a collection. */
  predicate IdOrdered(features: seq<string>, desc: bool)
  {
    forall i, j | 0 <= i < j < |features| ::
      if desc then Lexicographic.Less(features[j], features[i]) else Lexicographic.Less(features[i], features[j])
  }

  /** Each member lists its features by id in the direction of the sort. */
  predicate AllIdOrdered(ms: seq<Member>, desc: bool)
  {
    forall i | 0 <= i < |ms| :: IdOrdered(ms[i].features, desc)
  }

  function TagAll(ms: seq<Member>): (lists: seq<seq<Tagged>>)
    ensures |lists| == |ms| && forall i | 0 <= i < |ms| :: lists[i] == Tag(ms[i].id, ms[i].features)
  {
    if ms == [] then [] else [Tag(ms[0].id, ms[0].features)] + TagAll(ms[1..])
  }

  /** For all members, the page made from bounded prefixes is the page made from everything. */
  ghost predicate PagesAgree(offset: nat, limit: nat, desc: bool, mergeCap: nat, itemsMax: nat)
  {
    forall ms: seq<Member> | AllIdOrdered(ms, desc) ::
      FullPage(Prefixes(TagAll(ms), FetchLimit(limit, offset, mergeCap, itemsMax)), offset, limit, desc)
      == FullPage(TagAll(ms), offset, limit, desc)
  }

  /** Within a member the composite ids are ordered as the feature ids are. */
  lemma TagBefore(id: string, features: seq<string>, desc: bool, i: nat, j: nat)
    requires IdOrdered(features, desc) && i < j < |features|
    ensures Before(Tag(id, features)[i], Tag(id, features)[j], desc)
  {
    Lexicographic.LessAfterPrefix(id + [SEP], features[i], features[j]);
    Lexicographic.LessAfterPrefix(id + [SEP], features[j], features[i]);
  }

  lemma TagOrdered(id: string, features: seq<string>, desc: bool)
    requires IdOrdered(features, desc)
    ensures Ordered(Tag(id, features), desc)
  {
    var t := Tag(id, features);
    forall i, j | 0 <= i < j < |t| ensures !Before(t[j], t[i], desc) {
      TagBefore(id, features, desc, i, j);
      BeforeLaws(t[i], t[j], t[i], desc);
    }
  }

  lemma EnoughAgrees(offset: nat, limit: nat, desc: bool, mergeCap: nat, itemsMax: nat)
    requires limit == 0 || offset + limit <= itemsMax
    ensures PagesAgree(offset, limit, desc, mergeCap, itemsMax)
  {
    var n := FetchLimit(limit, offset, mergeCap, itemsMax);
    forall ms: seq<Member> | AllIdOrdered(ms, desc)
      ensures FullPage(Prefixes(TagAll(ms), n), offset, limit, desc) == FullPage(TagAll(ms), offset, limit, desc)
    {
      if limit > 0 {
        forall i | 0 <= i < |ms| ensures Ordered(TagAll(ms)[i], desc) {
          TagOrdered(ms[i].id, ms[i].features, desc);
        }
        PrefixPageIsFullPage(TagAll(ms), offset, limit, desc, n);
      }
    }
  }

  // ---------- members on which it is wrong otherwise ----------

  function Run(n: nat): string
  {
    if n == 0 then "" else ['a'] + Run(n - 1)
  }

  lemma {:induction false} RunGrows(i: nat, j: nat)
    requires i < j
    ensures Lexicographic.Less(Run(i), Run(j))
  {
    if i > 0 {
      RunGrows(i - 1, j - 1);
      assert Run(i)[1..] == Run(i - 1) && Run(j)[1..] == Run(j - 1);
    }
  }

  function Runs(n: nat, desc: bool): (r: seq<string>)
    ensures |r| == n
  {
    seq(n, i requires 0 <= i < n => Run(if desc then n - 1 - i else i))
  }

  lemma RunsOrdered(n: nat, desc: bool)
    ensures IdOrdered(Runs(n, desc), desc)
  {
    var r := Runs(n, desc);
    hide Run, Runs;
    forall i, j | 0 <= i < j < n
      ensures if desc then Lexicographic.Less(r[j], r[i]) else Lexicographic.Less(r[i], r[j])
    {
      RunsAt(n, desc, i);
      RunsAt(n, desc, j);
      if desc { RunGrows(n - 1 - j, n - 1 - i); } else { RunGrows(i, j); }
    }
  }

  lemma RunsAt(n: nat, desc: bool, i: nat)
    requires i < n
    ensures Runs(n, desc)[i] == Run(if desc then n - 1 - i else i)
  {
  }

  lemma FlatOfOne(x: seq<Tagged>, n: nat)
    ensures Flat([x]) == x && Flat(Prefixes([x], n)) == Slice(x, 0, n)
  {
    assert [x][1..] == [];
    assert Prefixes([x], n)[0] == Slice(x, 0, n) && Prefixes([x], n)[1..] == [];
  }

  /** One member is enough to show a disagreement. */
  lemma OneMember(features: seq<string>, offset: nat, limit: nat, desc: bool, mergeCap: nat, itemsMax: nat)
    requires IdOrdered(features, desc)
    requires var x := Tag("m", features);
             Slice(Sorted(Slice(x, 0, FetchLimit(limit, offset, mergeCap, itemsMax)), desc), offset, limit)
             != Slice(Sorted(x, desc), offset, limit)
    ensures !PagesAgree(offset, limit, desc, mergeCap, itemsMax)
  {
    hide Sorted, IdOrdered, Slice, FetchLimit, Flat, Prefixes;
    var ms, x := [Member("m", features, 0)], Tag("m", features);
    assert AllIdOrdered(ms, desc);
    assert TagAll(ms) == [x];
    FlatOfOne(x, FetchLimit(limit, offset, mergeCap, itemsMax));
  }

  lemma TooFew(x: seq<Tagged>, n: nat, offset: nat, limit: nat, desc: bool)
    requires |x| == offset + limit && n < offset + limit && limit > 0
    ensures Slice(Sorted(Slice(x, 0, n), desc), offset, limit) != Slice(Sorted(x, desc), offset, limit)
  {
    hide *;
    SliceLength(x, 0, n);
    SliceLength(Sorted(x, desc), offset, limit);
    SliceLength(Sorted(Slice(x, 0, n), desc), offset, limit);
  }

  lemma FetchLimitAtMost(limit: nat, offset: nat, mergeCap: nat, itemsMax: nat)
    ensures FetchLimit(limit, offset, mergeCap, itemsMax) <= itemsMax
  {
  }

  /** Beyond the item limit, a single member with offset + limit features gets too short a page. */
  lemma TooFewFetched(offset: nat, limit: nat, desc: bool, mergeCap: nat, itemsMax: nat)
    requires limit > 0 && offset + limit > itemsMax
    ensures !PagesAgree(offset, limit, desc, mergeCap, itemsMax)
  {
    hide *;
    var n := FetchLimit(limit, offset, mergeCap, itemsMax);
    FetchLimitAtMost(limit, offset, mergeCap, itemsMax);
    var features := Runs(offset + limit, desc);
    RunsOrdered(offset + limit, desc);
    TooFew(Tag("m", features), n, offset, limit, desc);
    OneMember(features, offset, limit, desc, mergeCap, itemsMax);
  }

  /** The merged page is right for all members, ascending and descending, exactly when the request
      stays within the item limit. */
  lemma PagesAgreeIff(offset: nat, limit: nat, desc: bool, mergeCap: nat, itemsMax: nat)
    ensures PagesAgree(offset, limit, desc, mergeCap, itemsMax) <==> limit == 0 || offset + limit <= itemsMax
  {
    if limit == 0 || offset + limit <= itemsMax {
      EnoughAgrees(offset, limit, desc, mergeCap, itemsMax);
    } else {
      TooFewFetched(offset, limit, desc, mergeCap, itemsMax);
    }
  }

  /** The same in terms of composite ids: for all members the page is a cut of everything in order
      exactly when the request stays within the item limit. */
  lemma PagesAreCutsIff(offset: nat, limit: nat, desc: bool, mergeCap: nat, itemsMax: nat)
    ensures (forall ms: seq<Member> | AllIdOrdered(ms, desc) ::
               CutOf(FullPage(Prefixes(TagAll(ms), FetchLimit(limit, offset, mergeCap, itemsMax)), offset, limit, desc),
                     Flat(TagAll(ms)), offset, limit, desc))
            <==> limit == 0 || offset + limit <= itemsMax
  {
    var n := FetchLimit(limit, offset, mergeCap, itemsMax);
    if limit == 0 || offset + limit <= itemsMax {
      PagesAgreeIff(offset, limit, desc, mergeCap, itemsMax);
      hide CutOf, FullPage, AllIdOrdered, FetchLimit;
      forall ms: seq<Member> | AllIdOrdered(ms, desc)
        ensures CutOf(FullPage(Prefixes(TagAll(ms), n), offset, limit, desc), Flat(TagAll(ms)), offset, limit, desc)
      {
        FullPageIsCut(TagAll(ms), offset, limit, desc);
      }
    } else {
      hide *;
      FetchLimitAtMost(limit, offset, mergeCap, itemsMax);
      ShortIsNoCut(offset, limit, desc, n);
    }
  }

  /** A single member of which too little was fetched. */
  lemma ShortIsNoCut(offset: nat, limit: nat, desc: bool, n: nat)
    requires limit > 0 && n < offset + limit
    ensures exists ms: seq<Member> :: AllIdOrdered(ms, desc)
              && !CutOf(FullPage(Prefixes(TagAll(ms), n), offset, limit, desc), Flat(TagAll(ms)), offset, limit, desc)
  {
    hide Sorted, Slice, Flat, Prefixes, Runs, CutOf, IdOrdered;
    var features := Runs(offset + limit, desc);
    RunsOrdered(offset + limit, desc);
    var ms, x := [Member("m", features, 0)], Tag("m", features);
    assert AllIdOrdered(ms, desc);
    assert TagAll(ms) == [x];
    FlatOfOne(x, n);
    ShortPage(x, offset, limit, desc, n);
  }

  lemma ShortPage(x: seq<Tagged>, offset: nat, limit: nat, desc: bool, n: nat)
    requires limit > 0 && n < offset + limit == |x|
    ensures !CutOf(Slice(Sorted(Slice(x, 0, n), desc), offset, limit), x, offset, limit, desc)
  {
    hide Sorted, Slice, CutAt;
    SliceLength(x, 0, n);
    SliceLength(Sorted(Slice(x, 0, n), desc), offset, limit);
    var page := Slice(Sorted(Slice(x, 0, n), desc), offset, limit);
    forall before, after ensures !CutAt(page, before, after, x, offset, limit, desc) {
      ShortIsNoCutAt(page, before, after, x, offset, limit, desc);
    }
  }

  lemma ShortIsNoCutAt(page: seq<Tagged>, before: seq<Tagged>, after: seq<Tagged>, all: seq<Tagged>,
                       offset: nat, limit: nat, desc: bool)
    requires |page| < limit && |all| >= offset + limit
    ensures !CutAt(page, before, after, all, offset, limit, desc)
  {
    hide InOrder;
    assert |multiset(all)| == |all|;
    assert |multiset(before + page + after)| == |before| + |page| + |after|;
  }
}
