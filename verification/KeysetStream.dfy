/** Streaming a collection's features in batches by keyset pagination. A table is the sequence of the
    collection's rows in primary-key order, and it does not change during the stream. */
module KeysetStream {
  import opened Wrappers
  import Lexicographic
  import opened Paging

  datatype Row = Row(id: string, part: nat, payload: string)

  /** The keyset condition: the row (id, part_index) on the right comes after the one on the left. */
  predicate KeyLess(aId: string, aPart: nat, bId: string, bPart: nat)
  {
    Lexicographic.Less(aId, bId) || (aId == bId && aPart < bPart)
  }

  predicate KeyOrdered(rows: seq<Row>)
  {
    forall i, j | 0 <= i < j < |rows| ::
      Lexicographic.Less(rows[i].id, rows[j].id) || (rows[i].id == rows[j].id && rows[i].part < rows[j].part)
  }

  predicate IdOrdered(ids: seq<string>)
  {
    forall i, j | 0 <= i < j < |ids| :: Lexicographic.Less(ids[i], ids[j])
  }

  function Where<T>(s: seq<T>, keep: T -> bool): (r: seq<T>)
    ensures |r| <= |s|
  {
    if s == [] then [] else (if keep(s[0]) then [s[0]] else []) + Where(s[1..], keep)
  }

  function BatchSize(requested: int): (n: nat)
    ensures 1 <= n <= 2000 && (1 <= requested <= 2000 ==> n == requested)
  {
    if requested < 1 then 1 else if requested > 2000 then 2000 else requested
  }

  // ---------- queries ----------

  lemma {:induction false} WhereMembers<T>(s: seq<T>, keep: T -> bool)
    ensures forall x :: x in Where(s, keep) <==> x in s && keep(x)
  {
    if s != [] {
      WhereMembers(s[1..], keep);
      assert s == [s[0]] + s[1..];
    }
  }

  lemma {:induction false} WhereOrdered(s: seq<Row>, keep: Row -> bool)
    requires KeyOrdered(s)
    ensures KeyOrdered(Where(s, keep))
  {
    if s != [] {
      var rest := s[1..];
      assert KeyOrdered(rest);
      WhereOrdered(rest, keep);
      WhereMembers(rest, keep);
      var w := Where(rest, keep);
      forall j | 0 <= j < |w| ensures KeyLess(s[0].id, s[0].part, w[j].id, w[j].part) {
        assert w[j] in rest;
        var k :| 0 <= k < |rest| && rest[k] == w[j];
        assert s[k + 1] == w[j];
      }
    }
  }

  /** A condition that holds from position k on, and not before, selects the rest of the sequence. */
  lemma {:induction false} WhereSuffix<T>(s: seq<T>, keep: T -> bool, k: nat)
    requires k <= |s|
    requires forall i | 0 <= i < k :: !keep(s[i])
    requires forall i | k <= i < |s| :: keep(s[i])
    ensures Where(s, keep) == s[k..]
  {
    if s != [] {
      var rest, n := s[1..], if k == 0 then 0 else k - 1;
      forall i | 0 <= i < |rest| ensures rest[i] == s[i + 1] {
      }
      WhereSuffix(rest, keep, n);
    }
  }

  lemma KeyLaws(aId: string, aPart: nat, bId: string, bPart: nat)
    ensures !KeyLess(aId, aPart, aId, aPart)
    ensures KeyLess(aId, aPart, bId, bPart) ==> !KeyLess(bId, bPart, aId, aPart)
  {
    Lexicographic.LessIrreflexive(aId);
    if Lexicographic.Less(aId, bId) {
      Lexicographic.LessAsymmetric(aId, bId);
    }
    if Lexicographic.Less(bId, aId) {
      Lexicographic.LessAsymmetric(bId, aId);
    }
  }

  /** The rows of `base` after the last key, as the keyset condition selects them. */
  function RowsAfter(base: seq<Row>, last: Option<Row>): seq<Row>
  {
    match last
    case None => base
    case Some(l) => Where(base, (r: Row) => KeyLess(l.id, l.part, r.id, r.part))
  }

  function IdsAfter(ids: seq<string>, last: Option<string>): seq<string>
  {
    match last
    case None => ids
    case Some(l) => Where(ids, (id: string) => Lexicographic.Less(l, id))
  }

  predicate AtRow(base: seq<Row>, last: Option<Row>, p: nat)
  {
    p <= |base| && last == if p == 0 then None else Some(base[p - 1])
  }

  predicate AtId(ids: seq<string>, last: Option<string>, p: nat)
  {
    p <= |ids| && last == if p == 0 then None else Some(ids[p - 1])
  }

  lemma RowsAfterIsSuffix(base: seq<Row>, last: Option<Row>, p: nat)
    requires KeyOrdered(base) && AtRow(base, last, p)
    ensures RowsAfter(base, last) == base[p..]
  {
    if p > 0 {
      var l := base[p - 1];
      forall i | 0 <= i < p ensures !KeyLess(l.id, l.part, base[i].id, base[i].part) {
        KeyLaws(base[i].id, base[i].part, l.id, l.part);
      }
      WhereSuffix(base, (r: Row) => KeyLess(l.id, l.part, r.id, r.part), p);
    }
  }

  lemma IdsAfterIsSuffix(ids: seq<string>, last: Option<string>, p: nat)
    requires IdOrdered(ids) && AtId(ids, last, p)
    ensures IdsAfter(ids, last) == ids[p..]
  {
    if p > 0 {
      var l := ids[p - 1];
      forall i | 0 <= i < p ensures !Lexicographic.Less(l, ids[i]) {
        KeyLaws(ids[i], 0, l, 0);
      }
      WhereSuffix(ids, (id: string) => Lexicographic.Less(l, id), p);
    }
  }

  lemma SliceOfRest<T>(s: seq<T>, p: nat, n: nat)
    requires p <= |s| && n >= 1
    ensures var rows := Slice(s[p..], 0, n);
            && rows <= s[p..] && s[..p] + rows == s[..p + |rows|] && (rows == [] <==> p == |s|)
            && (rows != [] ==> rows[|rows| - 1] == s[p + |rows| - 1])
  {
  }

  // ---------- rows one by one ----------

  /** Every matching row once, in key order, whatever the batch size. */
  method StreamRows(table: seq<Row>, matches: Row -> bool, requested: int) returns (out: seq<Row>)
    requires KeyOrdered(table)
    ensures out == Where(table, matches)
  {
    hide Where, KeyOrdered, RowsAfter, Slice;
    var base := Where(table, matches);
    WhereOrdered(table, matches);
    var batchSize := BatchSize(requested);
    var last: Option<Row> := None;
    ghost var p: nat := 0;
    out := [];
    while true
      invariant AtRow(base, last, p) && out == base[..p]
      decreases |base| - p
    {
      RowsAfterIsSuffix(base, last, p);
      SliceOfRest(base, p, batchSize);
      var rows := Slice(RowsAfter(base, last), 0, batchSize);
      if rows == [] {
        break;
      }
      out := out + rows;
      last := Some(rows[|rows| - 1]);
      p := p + |rows|;
    }
  }

  /** Nothing is missing, foreign, repeated or out of order. */
  lemma StreamedExactly(table: seq<Row>, matches: Row -> bool)
    requires KeyOrdered(table)
    ensures var out := Where(table, matches);
            && KeyOrdered(out)
            && (forall r :: r in out <==> r in table && matches(r))
            && (forall i, j | 0 <= i < j < |out| :: out[i] != out[j])
  {
    WhereOrdered(table, matches);
    WhereMembers(table, matches);
    var out := Where(table, matches);
    forall i, j | 0 <= i < j < |out| ensures out[i] != out[j] {
      KeyLaws(out[i].id, out[i].part, out[j].id, out[j].part);
    }
  }

  // ---------- whole features for a bounding box ----------

  /** SELECT DISTINCT id ... ORDER BY id. */
  function DistinctIds(rows: seq<Row>): seq<string>
  {
    if rows == [] then []
    else if |rows| > 1 && rows[1].id == rows[0].id then DistinctIds(rows[1..])
    else [rows[0].id] + DistinctIds(rows[1..])
  }

  /** WHERE id = ... ORDER BY part_index. */
  function PartsOf(table: seq<Row>, id: string): seq<Row>
  {
    if table == [] then [] else (if table[0].id == id then [table[0]] else []) + PartsOf(table[1..], id)
  }

  /** WHERE id IN (...). */
  function RowsIn(table: seq<Row>, ids: seq<string>): seq<Row>
  {
    if table == [] then [] else (if table[0].id in ids then [table[0]] else []) + RowsIn(table[1..], ids)
  }

  lemma PartsExactly(table: seq<Row>, id: string)
    requires KeyOrdered(table)
    ensures KeyOrdered(PartsOf(table, id))
    ensures forall r :: r in PartsOf(table, id) <==> r in table && r.id == id
  {
    PartsAreWhere(table, id);
    WhereOrdered(table, (r: Row) => r.id == id);
    WhereMembers(table, (r: Row) => r.id == id);
  }

  lemma {:induction false} PartsAreWhere(table: seq<Row>, id: string)
    ensures PartsOf(table, id) == Where(table, (r: Row) => r.id == id)
  {
    if table != [] {
      PartsAreWhere(table[1..], id);
    }
  }

  /** The features of the given ids, each with all its parts. */
  function Features(table: seq<Row>, ids: seq<string>): seq<(string, seq<Row>)>
  {
    if ids == [] then [] else [(ids[0], PartsOf(table, ids[0]))] + Features(table, ids[1..])
  }

  lemma {:induction false} DistinctIdsOrdered(rows: seq<Row>)
    requires KeyOrdered(rows)
    ensures IdOrdered(DistinctIds(rows))
    ensures forall id :: id in DistinctIds(rows) <==> exists i :: 0 <= i < |rows| && rows[i].id == id
  {
    if rows != [] {
      var rest := rows[1..];
      assert forall i | 0 <= i < |rest| :: rest[i] == rows[i + 1];
      DistinctIdsOrdered(rest);
      var tail := DistinctIds(rest);
      forall id ensures id in DistinctIds(rows) <==> exists i :: 0 <= i < |rows| && rows[i].id == id {
        if i :| 0 <= i < |rows| && rows[i].id == id {
          if i > 0 {
            assert rest[i - 1].id == id;
          } else if |rows| > 1 && rows[1].id == rows[0].id {
            assert rest[0].id == id;
          }
        }
        if id in tail {
          var i :| 0 <= i < |rest| && rest[i].id == id;
          assert rows[i + 1].id == id;
        }
      }
      if !(|rows| > 1 && rows[1].id == rows[0].id) {
        forall j | 0 <= j < |tail| ensures Lexicographic.Less(rows[0].id, tail[j]) {
          assert tail[j] in tail;
          FirstIdIsLeast(rows, tail[j]);
        }
      }
    }
  }

  lemma FirstIdIsLeast(rows: seq<Row>, id: string)
    requires KeyOrdered(rows) && rows != [] && (|rows| > 1 ==> rows[1].id != rows[0].id)
    requires exists i :: 0 <= i < |rows[1..]| && rows[1..][i].id == id
    ensures Lexicographic.Less(rows[0].id, id)
  {
    var i :| 0 <= i < |rows[1..]| && rows[1..][i].id == id;
    assert KeyLess(rows[0].id, rows[0].part, rows[1].id, rows[1].part);
    if i > 0 {
      assert KeyLess(rows[1].id, rows[1].part, rows[i + 1].id, rows[i + 1].part);
      if rows[1].id != id {
        Lexicographic.LessTransitive(rows[0].id, rows[1].id, id);
      }
    }
  }

  lemma {:induction false} FeaturesConcat(table: seq<Row>, a: seq<string>, b: seq<string>)
    ensures Features(table, a + b) == Features(table, a) + Features(table, b)
  {
    if a == [] {
      assert a + b == b;
    } else {
      assert (a + b)[0] == a[0] && (a + b)[1..] == a[1..] + b;
      FeaturesConcat(table, a[1..], b);
    }
  }

  /** Selecting a batch of ids first loses no part of any of them. */
  lemma {:induction false} PartsOfBatch(table: seq<Row>, ids: seq<string>, id: string)
    requires id in ids
    ensures PartsOf(RowsIn(table, ids), id) == PartsOf(table, id)
  {
    if table != [] {
      var rest := RowsIn(table[1..], ids);
      PartsOfBatch(table[1..], ids, id);
      if table[0].id in ids {
        assert ([table[0]] + rest)[1..] == rest;
      } else {
        assert [] + rest == rest;
      }
    }
  }

  lemma {:induction false} PartsPush(rows: seq<Row>, r: Row, id: string)
    ensures PartsOf(rows + [r], id) == PartsOf(rows, id) + if r.id == id then [r] else []
  {
    if rows == [] {
      assert rows + [r] == [r] && [r][1..] == [];
    } else {
      var more := rows + [r];
      assert more[0] == rows[0] && more[1..] == rows[1..] + [r];
      PartsPush(rows[1..], r, id);
      var head, tail := if rows[0].id == id then [rows[0]] else [], PartsOf(rows[1..], id);
      var last := if r.id == id then [r] else [];
      assert PartsOf(more, id) == head + PartsOf(more[1..], id) && PartsOf(rows, id) == head + tail;
      assert head + (tail + last) == (head + tail) + last;
    }
  }

  function Lookup(grouped: map<string, seq<Row>>, id: string): seq<Row>
  {
    if id in grouped then grouped[id] else []
  }

  /** The row goes to the end of its id's list, which is made if missing. */
  function Appended(grouped: map<string, seq<Row>>, row: Row): map<string, seq<Row>>
  {
    grouped[row.id := Lookup(grouped, row.id) + [row]]
  }

  /** The rows of one query, grouped by id. */
  method Grouped(rows: seq<Row>) returns (grouped: map<string, seq<Row>>)
    ensures forall id :: Lookup(grouped, id) == PartsOf(rows, id)
  {
    grouped := map[];
    for i := 0 to |rows|
      invariant forall id :: Lookup(grouped, id) == PartsOf(rows[..i], id)
    {
      assert rows[..i + 1] == rows[..i] + [rows[i]];
      forall id ensures Lookup(Appended(grouped, rows[i]), id) == PartsOf(rows[..i + 1], id) {
        PartsPush(rows[..i], rows[i], id);
        hide PartsOf;
        assert PartsOf(rows[..i], id) + [] == PartsOf(rows[..i], id);
      }
      grouped := Appended(grouped, rows[i]);
    }
    assert rows[..|rows|] == rows;
  }

  lemma HasParts(table: seq<Row>, id: string)
    requires exists i :: 0 <= i < |table| && table[i].id == id
    ensures PartsOf(table, id) != []
  {
    var i :| 0 <= i < |table| && table[i].id == id;
    PartsAreWhere(table, id);
    WhereMembers(table, (r: Row) => r.id == id);
    assert table[i] in PartsOf(table, id);
  }

  predicate HaveParts(table: seq<Row>, ids: seq<string>)
  {
    forall k | 0 <= k < |ids| :: PartsOf(table, ids[k]) != []
  }

  lemma SomeHaveParts(table: seq<Row>, all: seq<string>, p: nat, ids: seq<string>)
    requires HaveParts(table, all) && p <= |all| && ids <= all[p..]
    ensures HaveParts(table, ids)
  {
    forall k | 0 <= k < |ids| ensures PartsOf(table, ids[k]) != [] {
      assert ids[k] == all[p + k];
    }
  }

  /** One batch: all parts of the batch's ids, yielded id by id. */
  method YieldBatch(table: seq<Row>, ids: seq<string>) returns (out: seq<(string, seq<Row>)>)
    requires HaveParts(table, ids)
    ensures out == Features(table, ids)
  {
    var partsRows := RowsIn(table, ids);
    var grouped := Grouped(partsRows);
    out := [];
    for k := 0 to |ids|
      invariant out == Features(table, ids[..k])
    {
      var id := ids[k];
      PartsOfBatch(table, ids, id);
      var parts := Lookup(grouped, id);
      assert ids[..k + 1] == ids[..k] + [id];
      FeaturesConcat(table, ids[..k], [id]);
      assert Features(table, [id]) == [(id, PartsOf(table, id))] by {
        assert [id][1..] == [];
      }
      if parts == [] {
        continue;
      }
      out := out + [(id, parts)];
    }
    assert ids[..|ids|] == ids;
  }

  /** The next batch of ids after the last one. */
  method NextIds(idsBase: seq<string>, last: Option<string>, batchSize: nat, ghost p: nat) returns (ids: seq<string>)
    requires IdOrdered(idsBase) && AtId(idsBase, last, p) && batchSize >= 1
    ensures ids <= idsBase[p..] && idsBase[..p] + ids == idsBase[..p + |ids|] && (ids == [] <==> p == |idsBase|)
    ensures ids != [] ==> ids[|ids| - 1] == idsBase[p + |ids| - 1]
  {
    IdsAfterIsSuffix(idsBase, last, p);
    SliceOfRest(idsBase, p, batchSize);
    ids := Slice(IdsAfter(idsBase, last), 0, batchSize);
  }

  /** Every id with a matching part once, in id order, with all its parts, matching or not. */
  method StreamFeatures(table: seq<Row>, matches: Row -> bool, requested: int)
    returns (out: seq<(string, seq<Row>)>)
    requires KeyOrdered(table)
    ensures out == Features(table, DistinctIds(Where(table, matches)))
  {
    assert Features(table, []) == [];
    hide Where, DistinctIds, IdsAfter, Slice, IdOrdered, KeyOrdered, HaveParts, Features;
    var idsBase := DistinctIds(Where(table, matches));
    MatchingHaveParts(table, matches);
    var batchSize := BatchSize(requested);
    var last: Option<string> := None;
    ghost var p: nat := 0;
    out := [];
    while true
      invariant AtId(idsBase, last, p) && out == Features(table, idsBase[..p])
      decreases |idsBase| - p
    {
      var ids := NextIds(idsBase, last, batchSize, p);
      if ids == [] {
        break;
      }
      SomeHaveParts(table, idsBase, p, ids);
      var features := YieldBatch(table, ids);
      FeaturesConcat(table, idsBase[..p], ids);
      out := out + features;
      last := Some(ids[|ids| - 1]);
      p := p + |ids|;
    }
    assert idsBase[..p] == idsBase;
  }

  lemma MatchingHaveParts(table: seq<Row>, matches: Row -> bool)
    requires KeyOrdered(table)
    ensures IdOrdered(DistinctIds(Where(table, matches)))
    ensures HaveParts(table, DistinctIds(Where(table, matches)))
  {
    var base := Where(table, matches);
    WhereOrdered(table, matches);
    DistinctIdsOrdered(base);
    WhereMembers(table, matches);
    forall k | 0 <= k < |DistinctIds(base)| ensures PartsOf(table, DistinctIds(base)[k]) != [] {
      var id := DistinctIds(base)[k];
      assert id in DistinctIds(base);
      var i :| 0 <= i < |base| && base[i].id == id;
      assert base[i] in base;
      HasParts(table, id);
    }
  }

  lemma {:induction false} FeaturesAt(table: seq<Row>, ids: seq<string>)
    ensures |Features(table, ids)| == |ids|
    ensures forall k | 0 <= k < |ids| :: Features(table, ids)[k] == (ids[k], PartsOf(table, ids[k]))
  {
    if ids != [] {
      FeaturesAt(table, ids[1..]);
    }
  }

  predicate HasMatch(table: seq<Row>, matches: Row -> bool, id: string)
  {
    exists i :: 0 <= i < |table| && matches(table[i]) && table[i].id == id
  }

  lemma MatchingIds(table: seq<Row>, matches: Row -> bool, id: string)
    requires KeyOrdered(table)
    ensures id in DistinctIds(Where(table, matches)) <==> HasMatch(table, matches, id)
  {
    var base := Where(table, matches);
    WhereOrdered(table, matches);
    WhereMembers(table, matches);
    DistinctIdsOrdered(base);
    hide Where, DistinctIds, KeyOrdered;
    if i :| 0 <= i < |base| && base[i].id == id {
      assert base[i] in base && base[i] in table;
    }
    if i :| 0 <= i < |table| && matches(table[i]) && table[i].id == id {
      assert table[i] in table && table[i] in base;
    }
  }

  /** What the bounding-box stream holds: exactly the ids with a matching part, ascending and so
      without repeats, each with exactly its rows in part order. */
  lemma FeaturesExactly(table: seq<Row>, matches: Row -> bool)
    requires KeyOrdered(table)
    ensures var ids, out := DistinctIds(Where(table, matches)), Features(table, DistinctIds(Where(table, matches)));
            && IdOrdered(ids) && (forall id :: id in ids <==> HasMatch(table, matches, id))
            && |out| == |ids|
            && (forall k | 0 <= k < |out| :: out[k].0 == ids[k] && KeyOrdered(out[k].1)
                                             && forall r :: r in out[k].1 <==> r in table && r.id == ids[k])
  {
    hide Where, DistinctIds, KeyOrdered, PartsOf, HasMatch;
    var ids := DistinctIds(Where(table, matches));
    WhereOrdered(table, matches);
    DistinctIdsOrdered(Where(table, matches));
    forall id ensures id in ids <==> HasMatch(table, matches, id) {
      MatchingIds(table, matches, id);
    }
    FeaturesAt(table, ids);
    forall k | 0 <= k < |ids|
      ensures KeyOrdered(PartsOf(table, ids[k]))
      ensures forall r :: r in PartsOf(table, ids[k]) <==> r in table && r.id == ids[k]
    {
      PartsExactly(table, ids[k]);
    }
  }
}
