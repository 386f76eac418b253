/** The store's operations as the program runs them: statements on a working copy that is
    written back when the transaction commits. */
module StoreOps {
  import opened Wrappers
  import opened PartitionBound
  import opened FeatureDb

  datatype Mode = Append | Replace

  /** How a promote ends: the number of rows promoted, a key conflict that survives the retry,
      or any other error. */
  datatype PromoteEnd = Done(count: nat) | DuplicateKeys | Failed

  predicate HasDoubleDot(s: string)
  {
    exists i :: 0 <= i < |s| - 1 && s[i] == '.' && s[i + 1] == '.'
  }

  class Store {
    var tables: map<TableName, set<Row>>
    var attached: map<TableName, CollectionId>
    var strays: set<Row>
    const canonical: CollectionId -> TableName

    constructor (canonical: CollectionId -> TableName)
      ensures Now() == Db(map[], map[], {}) && Valid(Now())
      ensures this.canonical == canonical
    {
      this.canonical := canonical;
      tables, attached, strays := map[], map[], {};
    }

    function Now(): Db
      reads this
    {
      Db(tables, attached, strays)
    }

    method Commit(d: Db)
      modifies this
      ensures Now() == d
    {
      tables, attached, strays := d.tables, d.attached, d.strays;
    }

    /** Walks the catalog's list of partitions, in whatever order it comes, and stops at the
        first whose stripped bound is the stripped literal. */
    method Resolve(cid: CollectionId) returns (answer: Option<TableName>)
      ensures ResolvesTo(attached, cid, answer)
      ensures NoCollapse(attached, cid) ==> Exact(attached, cid, answer)
    {
      ResolverExactness(attached, cid);
      var target := BoundLiteral(cid);
      var rows := attached.Keys;
      answer := None;
      while rows != {}
        invariant rows <= attached.Keys
        invariant forall n | n in attached && n !in rows :: BoundLiteral(attached[n]) != target
        decreases |rows|
      {
        var relname :| relname in rows;
        if WithoutSpaces(BoundText(attached[relname])) == target {
          answer := Some(relname);
          return;
        }
        rows := rows - {relname};
      }
    }

    method EnsurePartition(cid: CollectionId) returns (r: Result<TableName, string>, ghost live: Option<TableName>)
      requires Valid(Now())
      modifies this
      ensures Valid(Now())
      ensures ResolvesTo(old(attached), cid, live)
      ensures NoCollapse(old(attached), cid) ==> Exact(old(attached), cid, live)
      ensures match EnsureTx(old(Now()), cid, live, canonical(cid))
              case None => r.Err? && Now() == old(Now())
              case Some(d) => r == Ok(if live.Some? then live.value else canonical(cid)) && Now() == d
      ensures NoCollapse(old(attached), cid) ==>
                && (r.Ok? <==> cid in old(attached).Values || canonical(cid) !in old(tables))
                && Live(Now()) == Live(old(Now()))
                && (r.Ok? ==> r.value in attached && attached[r.value] == cid)
    {
      ghost var d0 := Now();
      var existing := Resolve(cid);
      live := existing;
      if existing.None? {
        existing := Resolve(cid);
        live := existing;
      }
      if NoCollapse(attached, cid) {
        EnsureRefines(d0, cid, live, canonical(cid));
        EnsuredName(d0, cid, live, canonical(cid));
      }
      EnsureKeepsValid(d0, cid, live, canonical(cid));
      if existing.Some? {
        var d1 := InsertRows(Now(), OfCollection(strays, cid));
        if d1.None? {
          return Err("duplicate key"), live;
        }
        Commit(DeleteStrays(d1.value, cid));
        return Ok(existing.value), live;
      }
      var moved := OfCollection(strays, cid);
      if moved != {} {
        var d1 := CreatePartition(DeleteStrays(Now(), cid), canonical(cid), cid);
        if d1.None? {
          return Err("already exists"), live;
        }
        var d2 := InsertRows(d1.value, moved);
        if d2.None? {
          return Err("duplicate key"), live;
        }
        Commit(d2.value);
      } else {
        var d1 := CreatePartition(Now(), canonical(cid), cid);
        if d1.None? {
          return Err("already exists"), live;
        }
        Commit(d1.value);
      }
      return Ok(canonical(cid)), live;
    }

    /** A rolled-back swap changes nothing; a committed one is the swap transaction. */
    method SwapStagingIntoPartition(cid: CollectionId, staging: TableName)
      returns (ok: bool, ghost live: Option<TableName>)
      requires Valid(Now())
      modifies this
      ensures Valid(Now())
      ensures ResolvesTo(old(attached), cid, live)
      ensures NoCollapse(old(attached), cid) ==> Exact(old(attached), cid, live)
      ensures ok <==> (StagingChecks(old(Now()), cid, staging)
                       && SwapTx(old(Now()), cid, staging, live, canonical(cid)).Some?)
      ensures Now() == if ok then SwapTx(old(Now()), cid, staging, live, canonical(cid)).value else old(Now())
      ensures (NoCollapse(old(attached), cid) && StagingOf(old(Now()), staging, cid)
               && StagingChecks(old(Now()), cid, staging))
              ==> ok && Swapped(old(Now()), Now(), cid, staging)
    {
      ghost var d0 := Now();
      var answer := Resolve(cid);
      live := answer;
      if NoCollapse(attached, cid) && StagingOf(d0, staging, cid) && StagingChecks(d0, cid, staging) {
        SwapRefines(d0, cid, staging, live, canonical(cid));
      }
      SwapKeepsValid(d0, cid, staging, live, canonical(cid));
      if !StagingChecks(Now(), cid, staging) {
        return false, live;
      }
      var d := DeleteStrays(Now(), cid);
      if staging in d.attached || answer == Some(staging) {
        Commit(DropOrphan(d, staging, canonical(cid)));
        return true, live;
      }
      if answer.Some? {
        d := Detach(d, answer.value);
        d := DropTable(d, answer.value);
      }
      d := DropOrphan(d, staging, canonical(cid));
      var done := AttachPartition(d, staging, cid);
      if done.None? {
        return false, live;
      }
      Commit(done.value);
      return true, live;
    }

    /** The fast wipe before a collection is deleted; returns the partition or leftover dropped. */
    method DropCollectionData(cid: CollectionId)
      returns (r: Result<Option<TableName>, string>, ghost live: Option<TableName>)
      requires Valid(Now())
      modifies this
      ensures r.Err? <==> cid == "" || HasDoubleDot(cid)
      ensures r.Err? ==> Now() == old(Now())
      ensures Valid(Now())
      ensures ResolvesTo(old(attached), cid, live)
      ensures NoCollapse(old(attached), cid) ==> Exact(old(attached), cid, live)
      ensures r.Ok? ==> Now() == DropCollectionTx(old(Now()), cid, live, canonical(cid))
      ensures r.Ok? ==> match r.value
                        case Some(name) => name in old(tables) && name !in tables && (live.Some? ==> name == live.value)
                        case None => tables == old(tables) && live.None?
      ensures r.Ok? && NoCollapse(old(attached), cid) ==>
                RowsOf(Now(), cid) == {} && OthersKept(old(Now()), Now(), cid)
    {
      ghost var d0 := Now();
      var part := Resolve(cid);
      live := part;
      if cid == "" || HasDoubleDot(cid) {
        return Err("invalid collection_id"), live;
      }
      if NoCollapse(attached, cid) {
        DropCollectionRefines(d0, cid, live, canonical(cid));
      }
      DropCollectionKeepsValid(d0, cid, live, canonical(cid));
      var dropped: Option<TableName> := None;
      var d := Now();
      if part.Some? {
        d := Detach(d, part.value);
        d := DropTable(d, part.value);
        dropped := part;
      }
      d := DeleteStrays(d, cid);
      if canonical(cid) in d.tables && canonical(cid) !in d.attached {
        d := DropTable(d, canonical(cid));
        if dropped.None? {
          dropped := Some(canonical(cid));
        }
      }
      Commit(d);
      return Ok(dropped), live;
    }

    /** Drops every detached leftover whose collection has another partition attached. */
    method CleanupOrphans() returns (dropped: seq<TableName>)
      requires Valid(Now())
      modifies this
      ensures Valid(Now()) && attached == old(attached) && Live(Now()) == Live(old(Now()))
      ensures forall n :: n in dropped <==> n in Orphans(old(Now()), canonical)
      ensures forall i, j | 0 <= i < j < |dropped| :: dropped[i] != dropped[j]
      ensures tables == old(tables) - Orphans(old(Now()), canonical)
    {
      dropped := [];
      var rows := attached.Keys;
      ghost var d0, gone := Now(), {};
      hide Orphans, CleanedUpTo, Valid, Live;
      CleanStarts(d0, canonical);
      while rows != {}
        invariant rows <= attached.Keys && attached == d0.attached && strays == d0.strays
        invariant tables == d0.tables - gone && CleanedUpTo(d0, canonical, rows, gone)
        invariant forall n :: n in dropped <==> n in gone
        invariant forall i, j | 0 <= i < j < |dropped| :: dropped[i] != dropped[j]
        decreases |rows|
      {
        var relname :| relname in rows;
        CleanStep(d0, canonical, rows, gone, relname);
        rows := rows - {relname};
        ParsePrinted(attached[relname]);
        var cid := ParseBound(BoundText(attached[relname]));
        if cid.Some? && cid.value != "" {
          var name := canonical(cid.value);
          if name != relname && name in tables && name !in attached {
            tables := tables - {name};
            gone := gone + {name};
            dropped := dropped + [name];
          }
        }
      }
      CleanEnds(d0, canonical, gone);
      DropOrphansFrame(d0, gone);
    }

    /** The append promote's INSERT. */
    method AppendStaging(staging: TableName) returns (ok: bool)
      requires Valid(Now())
      modifies this
      ensures Valid(Now())
      ensures ok <==> AppendTx(old(Now()), staging).Some?
      ensures Now() == if ok then AppendTx(old(Now()), staging).value else old(Now())
    {
      if staging !in tables {
        return false;
      }
      var d := InsertRows(Now(), tables[staging]);
      if d.None? {
        return false;
      }
      InsertFrame(Now(), tables[staging]);
      Commit(d.value);
      return true;
    }

    method DropTableIfExists(name: TableName)
      requires Valid(Now())
      modifies this
      ensures Valid(Now()) && Now() == DropTable(old(Now()), name)
    {
      DropTableKeepsValid(Now(), name);
      Commit(DropTable(Now(), name));
    }

    /** Detach if attached, drop, then make sure the collection has a partition again; not ok when
        that fails because the canonical name is taken. */
    method CleanupFailedStaging(cid: CollectionId, staging: TableName) returns (ok: bool)
      requires Valid(Now())
      modifies this
      ensures Valid(Now()) && (canonical(cid) != staging ==> staging !in tables)
      ensures NoCollapse(old(attached), cid) && StagingOf(old(Now()), staging, cid) ==>
                && OthersKept(old(Now()), Now(), cid)
                && RowsOf(Now(), cid) == (if staging in old(attached) then {} else RowsOf(old(Now()), cid))
                && ok == (cid in attached.Values)
                && (ok <==> canonical(cid) !in old(tables).Keys - {staging}
                            || (staging !in old(attached) && cid in old(attached).Values))
    {
      ghost var d0 := Now();
      var d := Now();
      if staging in d.tables {
        if staging in d.attached {
          d := Detach(d, staging);
        }
        d := DropTable(d, staging);
      }
      Commit(d);
      DropTableKeepsValid(d0, staging);
      ghost var d1 := Now();
      if StagingOf(d0, staging, cid) {
        CleanupStagingRefines(d0, cid, staging);
      }
      var r, live := EnsurePartition(cid);
      EnsureTouches(d1, cid, live, canonical(cid));
      ok := r.Ok?;
      hide Valid, Live, RowsOf, EnsureTx, CleanupStagingTx, OthersKept, Exact, ResolvesTo, NoCollapse;
      if NoCollapse(d0.attached, cid) && StagingOf(d0, staging, cid) {
        CleanedBounds(d0, d1, cid, staging);
        EnsureOutcome(d1, cid, live, canonical(cid));
        EnsuredKeeps(d0, d1, Now(), cid);
      }
    }

    /** promote_staging_sync. Deduplication finds nothing to do on a table with a primary key. */
    method Promote(cid: CollectionId, staging: TableName, mode: Mode) returns (r: PromoteEnd)
      requires Valid(Now()) && canonical(cid) != staging
      modifies this
      ensures Valid(Now())
      ensures Promotable(old(Now()), cid, staging, mode) ==>
                Promoted(old(Now()), Now(), cid, staging, mode, canonical(cid), r)
    {
      if staging !in tables {
        return Failed;
      }
      var count := |tables[staging]|;
      if count == 0 {
        DropEmptyStaging(Now(), staging);
        DropTableIfExists(staging);
        return Done(0);
      }
      if mode.Replace? {
        r := PromoteBySwap(cid, staging);
      } else {
        r := PromoteByInsert(cid, staging);
      }
    }

    method PromoteBySwap(cid: CollectionId, staging: TableName) returns (r: PromoteEnd)
      requires Valid(Now()) && canonical(cid) != staging && staging in tables && tables[staging] != {}
      modifies this
      ensures Valid(Now())
      ensures Promotable(old(Now()), cid, staging, Replace) ==>
                Promoted(old(Now()), Now(), cid, staging, Replace, canonical(cid), r)
    {
      var count := |tables[staging]|;
      RowsOfPlace(Now(), cid);
      if staging in attached {
        return Done(count);
      }
      var ok, live := SwapStagingIntoPartition(cid, staging);
      return if ok then Done(count) else Failed;
    }

    /** One INSERT and, after a key conflict, one more. */
    method PromoteByInsert(cid: CollectionId, staging: TableName) returns (r: PromoteEnd)
      requires Valid(Now()) && canonical(cid) != staging && staging in tables && tables[staging] != {}
      modifies this
      ensures Valid(Now())
      ensures Promotable(old(Now()), cid, staging, Append) ==>
                Promoted(old(Now()), Now(), cid, staging, Append, canonical(cid), r)
    {
      var count := |tables[staging]|;
      ghost var d0 := Now();
      var ensured, live := EnsurePartition(cid);
      if Promotable(d0, cid, staging, Append) {
        InsertPromoted(d0, cid, staging, live, canonical(cid));
      }
      if ensured.Err? {
        return Failed;
      }
      var ok := AppendStaging(staging);
      if !ok {
        ok := AppendStaging(staging);
      }
      if !ok {
        return if staging in tables then DuplicateKeys else Failed;
      }
      DropTableIfExists(staging);
      return Done(count);
    }
  }

  /** What the program relies on when it promotes: the resolver is exact for the collection, the
      staging table holds the collection's rows only, and it is attached to no other collection
      (for an append job, to none). */
  ghost predicate Promotable(d: Db, cid: CollectionId, staging: TableName, mode: Mode)
  {
    && NoCollapse(d.attached, cid)
    && StagingOf(d, staging, cid)
    && (staging in d.tables ==> AllOf(d.tables[staging], cid))
    && (mode.Append? ==> staging !in d.attached)
  }

  /** What a promote that ended in `r` did: rows, success condition, count, error kind. */
  ghost predicate Promoted(d: Db, d': Db, cid: CollectionId, staging: TableName, mode: Mode, canonical: TableName,
                           r: PromoteEnd)
  {
    && Valid(d') && OthersKept(d, d', cid)
    && RowsOf(d', cid) == PromotedRows(d, cid, staging, mode, r)
    && (r.Done? <==> CanPromote(d, cid, staging, mode, canonical))
    && (r.Done? ==> r.count == |d.tables[staging]|)
    && (!r.Done? ==> NoCollapse(d'.attached, cid) && staging !in d'.attached)
    && (r == DuplicateKeys ==> mode.Append? && staging in d.tables && KeysMeet(d.tables[staging], RowsOf(d, cid)))
  }

  /** When a promote that meets no transient failure succeeds. */
  predicate CanPromote(d: Db, cid: CollectionId, staging: TableName, mode: Mode, canonical: TableName)
  {
    && staging in d.tables
    && (mode.Append? && d.tables[staging] != {} ==>
          && (cid in d.attached.Values || canonical !in d.tables)
          && !KeysMeet(d.tables[staging], RowsOf(d, cid)))
  }

  /** What the collection holds after a promote that ended in `r`. */
  function PromotedRows(d: Db, cid: CollectionId, staging: TableName, mode: Mode, r: PromoteEnd): set<Row>
  {
    if !r.Done? || staging !in d.tables || d.tables[staging] == {} then RowsOf(d, cid)
    else if mode.Replace? then d.tables[staging]
    else RowsOf(d, cid) + d.tables[staging]
  }

  lemma EnsuredName(d: Db, cid: CollectionId, live: Option<TableName>, canonical: TableName)
    requires Valid(d) && Exact(d.attached, cid, live)
    ensures match EnsureTx(d, cid, live, canonical)
            case None => true
            case Some(d') => var name := if live.Some? then live.value else canonical;
                             name in d'.attached && d'.attached[name] == cid
  {
    if live.Some? {
      EnsureExisting(d, cid, live.value, canonical);
    } else if canonical !in d.tables {
      EnsureCreates(d, cid, canonical);
      EnsureCreatesTouches(d, cid, canonical);
    }
  }

  /** Ensuring a partition creates no table but the canonical one. */
  lemma EnsureTouches(d: Db, cid: CollectionId, live: Option<TableName>, canonical: TableName)
    ensures match EnsureTx(d, cid, live, canonical)
            case None => true
            case Some(d') => d'.tables.Keys <= d.tables.Keys + {canonical}
  {
  }

  lemma EnsureOutcome(d: Db, cid: CollectionId, live: Option<TableName>, canonical: TableName)
    requires Valid(d) && Exact(d.attached, cid, live)
    ensures EnsureTx(d, cid, live, canonical).Some? <==> cid in d.attached.Values || canonical !in d.tables
    ensures match EnsureTx(d, cid, live, canonical)
            case None => cid !in d.attached.Values
            case Some(d') => cid in d'.attached.Values
  {
    EnsureRefines(d, cid, live, canonical);
    hide EnsureTx, Valid, Live;
  }

  lemma EnsuredKeeps(d0: Db, d1: Db, d2: Db, cid: CollectionId)
    requires OthersKept(d0, d1, cid) && Live(d2) == Live(d1)
    ensures OthersKept(d0, d2, cid) && RowsOf(d2, cid) == RowsOf(d1, cid)
  {
    SameLive(d1, d2, cid);
  }

  /** What the first transaction of a cleanup leaves attached. */
  lemma CleanedBounds(d: Db, d1: Db, cid: CollectionId, staging: TableName)
    requires Valid(d) && NoCollapse(d.attached, cid) && StagingOf(d, staging, cid) && d1 == CleanupStagingTx(d, staging)
    ensures NoCollapse(d1.attached, cid) && d1.tables.Keys == d.tables.Keys - {staging}
    ensures cid in d1.attached.Values <==> staging !in d.attached && cid in d.attached.Values
  {
    assert forall n | n in d1.attached :: n in d.attached && d1.attached[n] == d.attached[n];
    if staging !in d.attached && cid in d.attached.Values {
      var n :| n in d.attached && d.attached[n] == cid;
      assert n in d1.attached && d1.attached[n] == cid;
    }
  }

  /** Dropping an empty table, attached or not, takes no row away. */
  lemma DropEmptyStaging(d: Db, staging: TableName)
    requires Valid(d) && staging in d.tables && d.tables[staging] == {}
    ensures Valid(DropTable(d, staging)) && Live(DropTable(d, staging)) == Live(d)
  {
    var d' := DropTable(d, staging);
    if staging in d.attached {
      DropPartitionFrame(d, d.attached[staging], staging);
      assert d' == DropTable(Detach(d, staging), staging);
    } else {
      DropDetachedFrame(d, staging);
    }
    forall r | r in Live(d) ensures r in Live(d') {
      if r !in d.strays {
        var n :| n in d.attached && n in d.tables && r in d.tables[n];
        assert n in d'.attached && r in d'.tables[n];
      }
    }
  }

  /** The three ways an append promote can end. */
  lemma InsertPromoted(d: Db, cid: CollectionId, staging: TableName, live: Option<TableName>, canonical: TableName)
    requires Valid(d) && Exact(d.attached, cid, live) && Promotable(d, cid, staging, Append)
    requires canonical != staging && staging in d.tables && d.tables[staging] != {}
    ensures match EnsureTx(d, cid, live, canonical)
            case None => Promoted(d, d, cid, staging, Append, canonical, Failed)
            case Some(d1) =>
              && staging in d1.tables
              && match AppendTx(d1, staging)
                 case None => Promoted(d, d1, cid, staging, Append, canonical, DuplicateKeys)
                 case Some(d2) => Promoted(d, DropTable(d2, staging), cid, staging, Append, canonical,
                     Done(|d.tables[staging]|))
  {
    EnsureKeepsStaging(d, cid, live, canonical, staging);
    SameLive(d, d, cid);
    hide EnsureTx, AppendTx, DropTable, Valid, Live, RowsOf, OthersKept, KeysMeet, NoCollapse, Exact, AllOf, Promoted;
    match EnsureTx(d, cid, live, canonical)
    case None => InsertStopped(d, d, cid, staging, canonical, Failed);
    case Some(d1) =>
      AppendEnds(d, d1, cid, staging);
      SameLive(d, d1, cid);
      match AppendTx(d1, staging)
      case None => InsertStopped(d, d1, cid, staging, canonical, DuplicateKeys);
      case Some(d2) => InsertDone(d, DropTable(d2, staging), cid, staging, canonical);
  }

  lemma InsertStopped(d: Db, d': Db, cid: CollectionId, staging: TableName, canonical: TableName, r: PromoteEnd)
    requires staging in d.tables && d.tables[staging] != {} && Promotable(d, cid, staging, Append)
    requires Valid(d') && OthersKept(d, d', cid) && RowsOf(d', cid) == RowsOf(d, cid)
    requires NoCollapse(d'.attached, cid) && staging !in d'.attached && !CanPromote(d, cid, staging, Append, canonical)
    requires r == Failed || (r == DuplicateKeys && KeysMeet(d.tables[staging], RowsOf(d, cid)))
    ensures Promoted(d, d', cid, staging, Append, canonical, r)
  {
    hide Valid, RowsOf, OthersKept, KeysMeet, NoCollapse, Promotable, CanPromote;
  }

  lemma InsertDone(d: Db, d': Db, cid: CollectionId, staging: TableName, canonical: TableName)
    requires staging in d.tables && d.tables[staging] != {}
    requires Valid(d') && OthersKept(d, d', cid) && RowsOf(d', cid) == RowsOf(d, cid) + d.tables[staging]
    requires CanPromote(d, cid, staging, Append, canonical)
    ensures Promoted(d, d', cid, staging, Append, canonical, Done(|d.tables[staging]|))
  {
    hide Valid, RowsOf, OthersKept, KeysMeet, NoCollapse, CanPromote;
  }

  lemma SameLive(d: Db, d': Db, cid: CollectionId)
    requires Live(d') == Live(d)
    ensures RowsOf(d', cid) == RowsOf(d, cid) && OthersKept(d, d', cid)
  {
  }

  lemma EnsureKeepsStaging(d: Db, cid: CollectionId, live: Option<TableName>, canonical: TableName, staging: TableName)
    requires Valid(d) && Exact(d.attached, cid, live)
    requires canonical != staging && staging in d.tables && staging !in d.attached
    ensures EnsureTx(d, cid, live, canonical).Some? <==> cid in d.attached.Values || canonical !in d.tables
    ensures match EnsureTx(d, cid, live, canonical)
            case None => true
            case Some(d1) =>
              && Valid(d1) && Live(d1) == Live(d) && (NoCollapse(d.attached, cid) ==> NoCollapse(d1.attached, cid))
              && staging in d1.tables && d1.tables[staging] == d.tables[staging] && staging !in d1.attached
  {
    EnsureRefines(d, cid, live, canonical);
    hide EnsureTx, Valid, Live;
    match EnsureTx(d, cid, live, canonical)
    case None =>
    case Some(d1) => AddedBoundKeepsApart(d.attached, d1.attached, cid);
  }

  lemma AddedBoundKeepsApart(a: map<TableName, CollectionId>, b: map<TableName, CollectionId>, cid: CollectionId)
    requires b.Values == a.Values + {cid}
    ensures NoCollapse(a, cid) ==> NoCollapse(b, cid)
  {
    assert forall n | n in b :: b[n] in b.Values;
  }

  lemma AppendEnds(d: Db, d1: Db, cid: CollectionId, staging: TableName)
    requires Valid(d1) && Live(d1) == Live(d)
    requires staging in d.tables && staging in d1.tables && d1.tables[staging] == d.tables[staging]
    requires AllOf(d.tables[staging], cid) && staging !in d1.attached
    ensures match AppendTx(d1, staging)
            case None => KeysMeet(d.tables[staging], RowsOf(d, cid))
            case Some(d2) =>
              var d3 := DropTable(d2, staging);
              && Valid(d3) && RowsOf(d3, cid) == RowsOf(d, cid) + d.tables[staging] && OthersKept(d, d3, cid)
              && !KeysMeet(d.tables[staging], RowsOf(d, cid))
  {
    assert RowsOf(d1, cid) == RowsOf(d, cid) && OthersKept(d, d1, cid);
    AppendRefines(d1, cid, staging);
    if AppendTx(d1, staging).Some? {
      DropDetachedFrame(AppendTx(d1, staging).value, staging);
    }
  }

  /** The scan has visited every partition except `rows` and dropped exactly `gone`. */
  ghost predicate CleanedUpTo(d: Db, canonical: CollectionId -> TableName, rows: set<TableName>, gone: set<TableName>)
  {
    && gone <= Orphans(d, canonical)
    && forall p | p in d.attached && p !in rows && d.attached[p] != "" ::
         canonical(d.attached[p]) in gone || canonical(d.attached[p]) !in d.tables
             || canonical(d.attached[p]) in d.attached
  }

  lemma CleanStarts(d: Db, canonical: CollectionId -> TableName)
    ensures CleanedUpTo(d, canonical, d.attached.Keys, {})
  {
  }

  lemma CleanStep(d: Db, canonical: CollectionId -> TableName, rows: set<TableName>, gone: set<TableName>, p: TableName)
    requires CleanedUpTo(d, canonical, rows, gone) && p in rows && p in d.attached
    ensures var name := canonical(d.attached[p]);
            var found := d.attached[p] != "" && name in d.tables && name !in gone && name !in d.attached;
            CleanedUpTo(d, canonical, rows - {p}, if found then gone + {name} else gone)
  {
  }

  lemma CleanEnds(d: Db, canonical: CollectionId -> TableName, gone: set<TableName>)
    requires CleanedUpTo(d, canonical, {}, gone)
    ensures gone == Orphans(d, canonical) && gone !! d.attached.Keys
  {
  }

  lemma DropOrphansFrame(d: Db, gone: set<TableName>)
    requires Valid(d) && gone !! d.attached.Keys
    ensures Valid(d.(tables := d.tables - gone)) && Live(d.(tables := d.tables - gone)) == Live(d)
  {
    assert forall n | n in d.attached :: n in d.tables && n !in gone;
  }
}
