/** Deduplication of a staging table: ROW_NUMBER() per primary key, newest first, and deletion of
    every row numbered above one. */
module StagingDedupe {
  import opened Wrappers
  import FeatureDb

  /** A stored row; `ctid` is its physical position, unique within the table. */
  datatype StagedRow = StagedRow(key: FeatureDb.Key, updatedAt: int, ctid: int, data: int)

  predicate DistinctCtids(rows: set<StagedRow>)
  {
    forall a, b | a in rows && b in rows && a.ctid == b.ctid :: a == b
  }

  /** ORDER BY updated_at DESC, ctid DESC: `a` is numbered before `b`. */
  predicate Newer(a: StagedRow, b: StagedRow)
  {
    a.updatedAt > b.updatedAt || (a.updatedAt == b.updatedAt && a.ctid > b.ctid)
  }

  function Ahead(rows: set<StagedRow>, r: StagedRow): set<StagedRow>
  {
    set q | q in rows && q.key == r.key && Newer(q, r)
  }

  function RowNumber(rows: set<StagedRow>, r: StagedRow): nat
  {
    1 + |Ahead(rows, r)|
  }

  function Ranked(rows: set<StagedRow>): set<StagedRow>
  {
    set r | r in rows && RowNumber(rows, r) > 1
  }

  /** DELETE ... WHERE ctid IN (SELECT ctid FROM ranked WHERE rn > 1). */
  function Deduped(rows: set<StagedRow>): set<StagedRow>
  {
    var doomed := set r | r in Ranked(rows) :: r.ctid;
    set r | r in rows && r.ctid !in doomed
  }

  ghost predicate NoDuplicates(rows: set<StagedRow>)
  {
    forall a, b | a in rows && b in rows && a.key == b.key :: a == b
  }

  /** `r` is the greatest row of its key by (updated_at, ctid). */
  ghost predicate Newest(rows: set<StagedRow>, r: StagedRow)
  {
    r in rows && forall q | q in rows && q.key == r.key && q != r :: Newer(r, q)
  }

  /** `r` was updated no earlier than `q`, and of two rows updated together stands no earlier. */
  predicate AtLeast(r: StagedRow, q: StagedRow)
  {
    q.updatedAt < r.updatedAt || (q.updatedAt == r.updatedAt && q.ctid <= r.ctid)
  }

  function KeysOf(rows: set<StagedRow>): set<FeatureDb.Key>
  {
    set r | r in rows :: r.key
  }

  lemma NewestIsGreatest(rows: set<StagedRow>, r: StagedRow)
    requires Newest(rows, r)
    ensures forall q | q in rows && q.key == r.key :: AtLeast(r, q)
  {
  }

  lemma NumberedOneIsNewest(rows: set<StagedRow>, r: StagedRow)
    requires DistinctCtids(rows) && r in rows
    ensures RowNumber(rows, r) == 1 <==> Newest(rows, r)
    ensures RowNumber(rows, r) == 1 <==>
              forall q | q in rows && q.key == r.key ::
                q.updatedAt < r.updatedAt || (q.updatedAt == r.updatedAt && q.ctid <= r.ctid)
  {
    if RowNumber(rows, r) == 1 {
      assert Ahead(rows, r) == {};
      forall q | q in rows && q.key == r.key && q != r ensures Newer(r, q) {
        assert q !in Ahead(rows, r);
      }
      NewestIsGreatest(rows, r);
    }
  }

  lemma {:induction false} NewestExists(rows: set<StagedRow>, r: StagedRow) returns (best: StagedRow)
    requires DistinctCtids(rows) && r in rows
    ensures best.key == r.key && Newest(rows, best)
    decreases Ahead(rows, r)
  {
    if Ahead(rows, r) == {} {
      best := r;
      NumberedOneIsNewest(rows, r);
    } else {
      var q :| q in Ahead(rows, r);
      assert Ahead(rows, q) <= Ahead(rows, r) && q !in Ahead(rows, q);
      best := NewestExists(rows, q);
    }
  }

  lemma DedupedIsRest(rows: set<StagedRow>)
    requires DistinctCtids(rows)
    ensures Deduped(rows) == rows - Ranked(rows) && Ranked(rows) <= rows
  {
  }

  lemma KeptIsNewest(rows: set<StagedRow>)
    requires DistinctCtids(rows)
    ensures forall r :: r in rows - Ranked(rows) <==> Newest(rows, r)
  {
    forall r | r in rows ensures r in rows - Ranked(rows) <==> Newest(rows, r) {
      NumberedOneIsNewest(rows, r);
      hide RowNumber, Newest;
    }
  }

  /** Deduplication keeps exactly the newest row of each key: one row for every key there was,
      none for any other, and it removes exactly the rows counted as duplicates. */
  lemma DedupeKeepsNewest(rows: set<StagedRow>)
    requires DistinctCtids(rows)
    ensures forall r :: r in Deduped(rows) <==> Newest(rows, r)
    ensures NoDuplicates(Deduped(rows)) && DistinctCtids(Deduped(rows))
    ensures KeysOf(Deduped(rows)) == KeysOf(rows) && Deduped(rows) <= rows
    ensures |Deduped(rows)| == |rows| - |Ranked(rows)| == |KeysOf(rows)|
    ensures forall r, q | r in Deduped(rows) && q in rows && q.key == r.key ::
              q.updatedAt < r.updatedAt || (q.updatedAt == r.updatedAt && q.ctid <= r.ctid)
  {
    DedupeRanks(rows);
    hide Deduped, Ranked, Newer, RowNumber, Ahead;
    DedupedIsRest(rows);
    KeptIsNewest(rows);
    KeysKept(rows);
    NewestOnce(rows, Deduped(rows));
    OneRowPerKey(Deduped(rows));
    assert rows == Deduped(rows) + Ranked(rows);
  }

  lemma DedupeRanks(rows: set<StagedRow>)
    requires DistinctCtids(rows)
    ensures forall r, q | r in Deduped(rows) && q in rows && q.key == r.key :: AtLeast(r, q)
  {
    DedupedIsRest(rows);
    KeptIsNewest(rows);
    hide Deduped, Ranked, Newer, AtLeast;
    forall r, q | r in Deduped(rows) && q in rows && q.key == r.key ensures AtLeast(r, q) {
      NewestIsGreatest(rows, r);
    }
  }

  lemma {:induction false} OneRowPerKey(rows: set<StagedRow>)
    requires NoDuplicates(rows)
    ensures |KeysOf(rows)| == |rows|
  {
    if rows != {} {
      var r :| r in rows;
      var rest := rows - {r};
      OneRowPerKey(rest);
      assert KeysOf(rows) == KeysOf(rest) + {r.key};
      assert r.key !in KeysOf(rest);
    } else {
      assert KeysOf(rows) == {};
    }
  }

  lemma NewestOnce(rows: set<StagedRow>, kept: set<StagedRow>)
    requires DistinctCtids(rows) && forall r :: r in kept <==> Newest(rows, r)
    ensures NoDuplicates(kept) && DistinctCtids(kept)
  {
  }

  lemma KeysWithin(kept: set<StagedRow>, rows: set<StagedRow>)
    requires kept <= rows && forall r | r in rows :: r.key in KeysOf(kept)
    ensures KeysOf(kept) == KeysOf(rows)
  {
  }

  lemma KeysKept(rows: set<StagedRow>)
    requires DistinctCtids(rows)
    ensures KeysOf(Deduped(rows)) == KeysOf(rows)
  {
    DedupedIsRest(rows);
    KeptIsNewest(rows);
    hide Deduped, Ranked, DistinctCtids, Newest;
    forall r | r in rows ensures r.key in KeysOf(Deduped(rows)) {
      var best := NewestExists(rows, r);
      assert best in Deduped(rows);
    }
    KeysWithin(Deduped(rows), rows);
  }

  /** A table counts no duplicate exactly when no key repeats. */
  lemma CountIsZeroWhenKeyed(rows: set<StagedRow>)
    requires DistinctCtids(rows)
    ensures Ranked(rows) == {} <==> NoDuplicates(rows)
    ensures NoDuplicates(rows) ==> Deduped(rows) == rows
  {
    DedupeKeepsNewest(rows);
    if Ranked(rows) == {} {
      assert Deduped(rows) == rows;
    }
    if NoDuplicates(rows) {
      forall r | r in rows ensures Newest(rows, r) {}
      assert Deduped(rows) == rows;
      assert rows - Ranked(rows) == rows;
    }
  }

  datatype PrepareError = DuplicatesRemain(remaining: nat, removed: nat)

  class StagingTable {
    var present: bool
    var rows: set<StagedRow>

    ghost predicate Valid()
      reads this
    {
      DistinctCtids(rows)
    }

    method DuplicateCount() returns (n: nat)
      requires Valid()
      ensures n == if present then |Ranked(rows)| else 0
      ensures n == if present then |rows| - |KeysOf(rows)| else 0
      ensures n == 0 <==> !present || NoDuplicates(rows)
    {
      CountIsZeroWhenKeyed(rows);
      DedupeKeepsNewest(rows);
      if !present {
        return 0;
      }
      return |Ranked(rows)|;
    }

    method Dedupe() returns (removed: nat)
      requires Valid()
      modifies `rows
      ensures Valid()
      ensures rows == if present then old(Deduped(rows)) else old(rows)
      ensures removed == if present then |old(rows)| - |old(KeysOf(rows))| else 0
      ensures present ==> rows <= old(rows) && KeysOf(rows) == old(KeysOf(rows)) && NoDuplicates(rows)
      ensures present ==> forall r, q | r in rows && q in old(rows) && q.key == r.key ::
                q.updatedAt < r.updatedAt || (q.updatedAt == r.updatedAt && q.ctid <= r.ctid)
    {
      DedupeKeepsNewest(rows);
      if !present {
        return 0;
      }
      var before := |rows|;
      rows := Deduped(rows);
      var after := |rows|;
      return if before > after then before - after else 0;
    }

    /** On a table nobody else writes to, preparing never fails; it leaves the newest row of each
        key, and preparing again removes nothing. */
    method Prepare() returns (r: Result<nat, PrepareError>)
      requires Valid()
      modifies `rows
      ensures Valid()
      ensures r == Ok(if present then |old(rows)| - |old(KeysOf(rows))| else 0)
      ensures rows == if present then old(Deduped(rows)) else old(rows)
      ensures present ==> rows <= old(rows) && KeysOf(rows) == old(KeysOf(rows)) && NoDuplicates(rows)
      ensures present ==> forall r, q | r in rows && q in old(rows) && q.key == r.key ::
                q.updatedAt < r.updatedAt || (q.updatedAt == r.updatedAt && q.ctid <= r.ctid)
    {
      DedupeKeepsNewest(rows);
      CountIsZeroWhenKeyed(rows);
      var dupes := DuplicateCount();
      if dupes <= 0 {
        return Ok(0);
      }
      var removed := Dedupe();
      CountIsZeroWhenKeyed(rows);
      var remaining := DuplicateCount();
      if remaining > 0 {
        return Err(DuplicatesRemain(remaining, removed));
      }
      return Ok(removed);
    }
  }
}
