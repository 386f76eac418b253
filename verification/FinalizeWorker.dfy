/** One finalize attempt that is neither interrupted nor disturbed, run against the store. */
module FinalizeWorker {
  import opened PartitionBound
  import opened FeatureDb
  import opened StoreOps

  datatype Outcome = Dropped | Completed(items: nat) | Abandoned | Requeued

  /** The rows staged for the job; a missing table has none. */
  function Staged(d: Db, staging: TableName): set<Row>
  {
    if staging in d.tables then d.tables[staging] else {}
  }

  /** The collection's rows after an attempt that ended in `o`: a completed attempt has imported
      exactly the staged rows, any other has changed nothing. */
  function RowsAfter(d: Db, cid: CollectionId, staging: TableName, mode: Mode, o: Outcome): set<Row>
  {
    if !o.Completed? || Staged(d, staging) == {} then RowsOf(d, cid)
    else if mode.Replace? then Staged(d, staging)
    else RowsOf(d, cid) + Staged(d, staging)
  }

  /** What an undisturbed attempt did: how it ends is decided by the state it found, and the
      rows after it by how it ended. */
  ghost predicate Finalized(d: Db, d': Db, cid: CollectionId, staging: TableName, mode: Mode, canonical: TableName,
                            cancelled: bool, reported: nat, o: Outcome)
  {
    && OthersKept(d, d', cid)
    && RowsOf(d', cid) == RowsAfter(d, cid, staging, mode, o)
    && (o.Dropped? <==> cancelled)
    && (o.Completed? <==> !cancelled && (Staged(d, staging) == {} || CanPromote(d, cid, staging, mode, canonical)))
    && (o.Completed? ==> o.items == if Staged(d, staging) == {} then reported else |Staged(d, staging)|)
    && (o.Abandoned? ==> mode.Append? && staging !in d'.tables && KeysMeet(Staged(d, staging), RowsOf(d, cid)))
  }

  /** `reported` is the number of items the queue entry carries. */
  method ProcessFinalizeJob(store: Store, cid: CollectionId, staging: TableName, mode: Mode, cancelled: bool,
                            reported: nat)
    returns (o: Outcome)
    requires Valid(store.Now()) && store.canonical(cid) != staging
    modifies store
    ensures Valid(store.Now())
    ensures Promotable(old(store.Now()), cid, staging, mode) && !(cancelled && staging in old(store.attached)) ==>
              Finalized(old(store.Now()), store.Now(), cid, staging, mode, store.canonical(cid), cancelled,
                        reported, o)
    ensures cancelled && staging in old(store.attached) && StagingOf(old(store.Now()), staging, cid) ==>
              o == Dropped && RowsOf(store.Now(), cid) == {} && OthersKept(old(store.Now()), store.Now(), cid)
  {
    ghost var d0 := store.Now();
    if cancelled {
      if staging !in store.attached {
        DropDetachedFrame(d0, staging);
      } else {
        DropPartitionFrame(d0, store.attached[staging], staging);
        assert DropTable(d0, staging) == DropTable(Detach(d0, staging), staging);
      }
      store.DropTableIfExists(staging);
      return Dropped;
    }
    var staged := if staging in store.tables then |store.tables[staging]| else 0;
    if staged <= 0 {
      return Completed(reported);
    }
    var r := store.Promote(cid, staging, mode);
    ghost var d1 := store.Now();
    match r
    case Done(count) =>
      return Completed(count);
    case Failed =>
      return Requeued;
    case DuplicateKeys =>
      var cleaned := store.CleanupFailedStaging(cid, staging);
      if Promotable(d0, cid, staging, mode) {
        DuplicatesAbandoned(d0, d1, store.Now(), cid, staging, mode, store.canonical(cid), reported);
      }
      return if cleaned then Abandoned else Requeued;
  }

  lemma DuplicatesAbandoned(d0: Db, d1: Db, d2: Db, cid: CollectionId, staging: TableName, mode: Mode,
                            canonical: TableName, reported: nat)
    requires Promoted(d0, d1, cid, staging, mode, canonical, DuplicateKeys)
    requires OthersKept(d1, d2, cid) && RowsOf(d2, cid) == RowsOf(d1, cid) && staging !in d2.tables
    ensures Finalized(d0, d2, cid, staging, mode, canonical, false, reported, Abandoned)
  {
    assert RowsOf(d1, cid) == PromotedRows(d0, cid, staging, mode, DuplicateKeys);
    forall c | c != cid ensures RowsOf(d2, c) == RowsOf(d0, c) {
      assert RowsOf(d1, c) == RowsOf(d0, c);
    }
  }
}
