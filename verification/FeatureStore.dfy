/** The `features` table: one LIST partition per collection, a default partition, and ordinary
    tables beside them (job staging tables, detached leftovers).

    A Db value is what the catalog and the tables hold between transactions. Each transaction of
    the program is a function from Db to the committed Db, or None when it is rolled back. */
module FeatureDb {
  import opened Wrappers
  import opened PartitionBound

  datatype Row = Row(id: string, cid: CollectionId, part: int, data: int)

  /** The primary key, the same on `features`, its partitions and the staging tables. */
  datatype Key = Key(id: string, cid: CollectionId, part: int)

  function KeyOf(r: Row): Key
  {
    Key(r.id, r.cid, r.part)
  }

  predicate Keyed(rows: set<Row>)
  {
    forall a, b | a in rows && b in rows && KeyOf(a) == KeyOf(b) :: a == b
  }

  predicate KeysMeet(rows: set<Row>, others: set<Row>)
  {
    exists a, b :: a in rows && b in others && KeyOf(a) == KeyOf(b)
  }

  predicate AllOf(rows: set<Row>, cid: CollectionId)
  {
    forall r | r in rows :: r.cid == cid
  }

  function OfCollection(rows: set<Row>, cid: CollectionId): set<Row>
  {
    set r | r in rows && r.cid == cid
  }

  /** `tables`: every table except the default partition; `attached`: the partitions of
      `features` with the id each is bound to; `strays`: rows of the default partition. */
  datatype Db = Db(tables: map<TableName, set<Row>>, attached: map<TableName, CollectionId>, strays: set<Row>)

  /** The rows a query on `features` sees. */
  function Live(d: Db): set<Row>
  {
    (set n, r | n in d.attached && n in d.tables && r in d.tables[n] :: r) + d.strays
  }

  /** The simple map the store stands for: collection id -> rows. */
  function RowsOf(d: Db, cid: CollectionId): set<Row>
  {
    OfCollection(Live(d), cid)
  }

  /** PostgreSQL's own rules for LIST partitions and primary keys: one partition per value, each
      row within its partition's bound, no stray row that has a partition, keys unique. */
  ghost predicate Valid(d: Db)
  {
    && d.attached.Keys <= d.tables.Keys
    && (forall m, n | m in d.attached && n in d.attached && d.attached[m] == d.attached[n] :: m == n)
    && (forall n | n in d.attached :: AllOf(d.tables[n], d.attached[n]))
    && (forall r | r in d.strays :: r.cid !in d.attached.Values)
    && (forall n | n in d.tables :: Keyed(d.tables[n]))
    && Keyed(d.strays)
  }

  // ---------- statements ----------

  function Detach(d: Db, name: TableName): Db
  {
    d.(attached := d.attached - {name})
  }

  /** DROP TABLE IF EXISTS. Dropping an attached partition detaches it: its rows are gone. */
  function DropTable(d: Db, name: TableName): Db
  {
    d.(tables := d.tables - {name}, attached := d.attached - {name})
  }

  function DeleteStrays(d: Db, cid: CollectionId): Db
  {
    d.(strays := d.strays - OfCollection(d.strays, cid))
  }

  /** CREATE TABLE name PARTITION OF features FOR VALUES IN (cid). */
  function CreatePartition(d: Db, name: TableName, cid: CollectionId): Option<Db>
  {
    if name in d.tables || cid in d.attached.Values || OfCollection(d.strays, cid) != {} then None
    else Some(d.(tables := d.tables[name := {}], attached := d.attached[name := cid]))
  }

  /** ALTER TABLE features ATTACH PARTITION name FOR VALUES IN (cid). */
  function AttachPartition(d: Db, name: TableName, cid: CollectionId): Option<Db>
  {
    if name !in d.tables || name in d.attached || cid in d.attached.Values then None
    else if !AllOf(d.tables[name], cid) || OfCollection(d.strays, cid) != {} then None
    else Some(d.(attached := d.attached[name := cid]))
  }

  /** INSERT INTO features: each row goes to the partition bound to its collection, or to the
      default partition. A duplicate key fails the whole statement. */
  function InsertRows(d: Db, rows: set<Row>): Option<Db>
  {
    if !Keyed(rows) || KeysMeet(rows, Live(d)) then None
    else
      Some(d.(
           tables := map n | n in d.tables ::
             if n in d.attached then d.tables[n] + OfCollection(rows, d.attached[n]) else d.tables[n],
           strays := d.strays + (set r | r in rows && r.cid !in d.attached.Values)))
  }

  // ---------- transactions ----------

  /** One transaction of ensure_features_partition_sync; `live` is the resolver's answer and
      `canonical` the partition name derived from the id. */
  function EnsureTx(d: Db, cid: CollectionId, live: Option<TableName>, canonical: TableName): Option<Db>
  {
    var moved := OfCollection(d.strays, cid);
    if live.Some? then
      match InsertRows(d, moved)
      case None => None
      case Some(d1) => Some(DeleteStrays(d1, cid))
    else if moved != {} then
      match CreatePartition(DeleteStrays(d, cid), canonical, cid)
      case None => None
      case Some(d1) => InsertRows(d1, moved)
    else
      CreatePartition(d, canonical, cid)
  }

  /** A detached leftover of a failed swap goes away; staging and attached tables stay. */
  function DropOrphan(d: Db, staging: TableName, canonical: TableName): Db
  {
    if canonical == staging || canonical !in d.tables || canonical in d.attached then d else DropTable(d, canonical)
  }

  /** The locked transaction of swap_staging_into_collection_partition_sync. */
  function SwapTx(d: Db, cid: CollectionId, staging: TableName, live: Option<TableName>,
                  canonical: TableName): Option<Db>
  {
    var d1 := DeleteStrays(d, cid);
    if staging in d1.attached || live == Some(staging) then
      Some(DropOrphan(d1, staging, canonical))
    else
      var d2 := if live.Some? then DropTable(Detach(d1, live.value), live.value) else d1;
      AttachPartition(DropOrphan(d2, staging, canonical), staging, cid)
  }

  /** The bound CHECK added before the swap: it fails on a missing table or a foreign row. */
  predicate StagingChecks(d: Db, cid: CollectionId, staging: TableName)
  {
    staging in d.tables && AllOf(d.tables[staging], cid)
  }

  /** The transaction of drop_collection_features_data_sync. */
  function DropCollectionTx(d: Db, cid: CollectionId, live: Option<TableName>, canonical: TableName): Db
  {
    var d1 := if live.Some? then DropTable(Detach(d, live.value), live.value) else d;
    var d2 := DeleteStrays(d1, cid);
    if canonical in d2.tables && canonical !in d2.attached then DropTable(d2, canonical) else d2
  }

  /** Detached tables that carry the canonical name of a collection whose partition is attached
      under another name. An empty id is passed over. */
  ghost function Orphans(d: Db, canonical: CollectionId -> TableName): set<TableName>
  {
    set n | n in d.tables && n !in d.attached &&
            exists p :: p in d.attached && d.attached[p] != "" && canonical(d.attached[p]) == n
  }

  /** The append promote: INSERT INTO features SELECT ... FROM staging. */
  function AppendTx(d: Db, staging: TableName): Option<Db>
  {
    if staging !in d.tables then None else InsertRows(d, d.tables[staging])
  }

  /** The first transaction of cleanup_failed_staging_import_sync. */
  function CleanupStagingTx(d: Db, staging: TableName): Db
  {
    if staging !in d.tables then d
    else DropTable(if staging in d.attached then Detach(d, staging) else d, staging)
  }

  // ---------- the rows a collection sees ----------

  /** Rows of a collection lie in its own partition if it has one, else in the default. */
  lemma RowsOfPlace(d: Db, cid: CollectionId)
    requires Valid(d)
    ensures forall n | n in d.attached && d.attached[n] == cid :: RowsOf(d, cid) == d.tables[n]
    ensures cid !in d.attached.Values ==> RowsOf(d, cid) == OfCollection(d.strays, cid)
  {
    forall n | n in d.attached && d.attached[n] == cid
      ensures RowsOf(d, cid) == d.tables[n]
    {
      assert cid in d.attached.Values;
      forall r | r in RowsOf(d, cid) ensures r in d.tables[n] {
        if r !in d.strays {
          var m :| m in d.attached && m in d.tables && r in d.tables[m];
        }
      }
    }
  }

  lemma LiveIsKeyed(d: Db)
    requires Valid(d)
    ensures Keyed(Live(d))
  {
    forall a, b | a in Live(d) && b in Live(d) && KeyOf(a) == KeyOf(b)
      ensures a == b
    {
      RowsOfPlace(d, a.cid);
      assert a in RowsOf(d, a.cid) && b in RowsOf(d, a.cid);
      if a.cid in d.attached.Values {
        var n :| n in d.attached && d.attached[n] == a.cid;
      }
    }
  }

  /** Detaching and dropping the partition of `cid` takes exactly the rows of `cid`. */
  lemma DropPartitionFrame(d: Db, cid: CollectionId, name: TableName)
    requires Valid(d) && name in d.attached && d.attached[name] == cid
    ensures var d' := DropTable(Detach(d, name), name);
            Valid(d') && cid !in d'.attached.Values && RowsOf(d', cid) == {} &&
            forall c | c != cid :: RowsOf(d', c) == RowsOf(d, c)
  {
    var d' := DropTable(Detach(d, name), name);
    forall r | r in d'.strays ensures r.cid !in d'.attached.Values {
      assert r.cid !in d.attached.Values;
    }
    RowsOfPlace(d', cid);
    assert OfCollection(d.strays, cid) == {} by {
      assert cid in d.attached.Values;
    }
    forall c | c != cid ensures RowsOf(d', c) == RowsOf(d, c) {
      RowsOfPlace(d, c);
      RowsOfPlace(d', c);
      if c in d.attached.Values {
        var n :| n in d.attached && d.attached[n] == c;
        assert n in d'.attached;
      }
    }
  }

  /** Dropping a table that is not attached changes nothing a query sees. */
  lemma DropDetachedFrame(d: Db, name: TableName)
    requires Valid(d) && name !in d.attached
    ensures Valid(DropTable(d, name)) && Live(DropTable(d, name)) == Live(d)
        && DropTable(d, name).attached == d.attached
  {
    var d' := DropTable(d, name);
    assert d'.attached == d.attached;
    assert forall n | n in d.attached :: d'.tables[n] == d.tables[n];
  }

  lemma DeleteStraysFrame(d: Db, cid: CollectionId)
    requires Valid(d)
    ensures Valid(DeleteStrays(d, cid))
    ensures forall c | c != cid :: RowsOf(DeleteStrays(d, cid), c) == RowsOf(d, c)
    ensures cid in d.attached.Values ==> DeleteStrays(d, cid) == d
    ensures cid !in d.attached.Values ==> RowsOf(DeleteStrays(d, cid), cid) == {}
    ensures OfCollection(DeleteStrays(d, cid).strays, cid) == {}
  {
    var d' := DeleteStrays(d, cid);
    if cid in d.attached.Values {
      assert OfCollection(d.strays, cid) == {};
      assert d'.strays == d.strays;
    } else {
      RowsOfPlace(d', cid);
    }
    forall c | c != cid ensures RowsOf(d', c) == RowsOf(d, c) {
      RowsOfPlace(d, c);
      RowsOfPlace(d', c);
      if c in d.attached.Values {
        var n :| n in d.attached && d.attached[n] == c;
      } else {
        assert OfCollection(d'.strays, c) == OfCollection(d.strays, c);
      }
    }
  }

  lemma AttachFrame(d: Db, name: TableName, cid: CollectionId)
    requires Valid(d) && AttachPartition(d, name, cid).Some?
    ensures var d' := AttachPartition(d, name, cid).value;
            Valid(d') && RowsOf(d', cid) == d.tables[name] &&
            forall c | c != cid :: RowsOf(d', c) == RowsOf(d, c)
  {
    var d' := AttachPartition(d, name, cid).value;
    assert forall n | n in d'.attached :: n == name || n in d.attached;
    assert forall r | r in d.strays :: r !in OfCollection(d.strays, cid);
    RowsOfPlace(d', cid);
    assert d'.attached[name] == cid;
    forall c | c != cid ensures RowsOf(d', c) == RowsOf(d, c) {
      RowsOfPlace(d, c);
      RowsOfPlace(d', c);
      if c in d.attached.Values {
        var n :| n in d.attached && d.attached[n] == c;
        assert n in d'.attached && d'.attached[n] == c;
      } else {
        assert c !in d'.attached.Values;
      }
    }
  }

  lemma CreateFrame(d: Db, name: TableName, cid: CollectionId)
    requires Valid(d) && CreatePartition(d, name, cid).Some?
    ensures var d' := CreatePartition(d, name, cid).value;
            Valid(d') && RowsOf(d', cid) == {} == RowsOf(d, cid) &&
            forall c | c != cid :: RowsOf(d', c) == RowsOf(d, c)
  {
    var d0 := d.(tables := d.tables[name := {}]);
    assert Valid(d0);
    assert forall n | n in d.attached :: d0.tables[n] == d.tables[n];
    assert Live(d0) == Live(d);
    assert AttachPartition(d0, name, cid) == CreatePartition(d, name, cid);
    AttachFrame(d0, name, cid);
    RowsOfPlace(d, cid);
  }

  /** A successful INSERT adds each row to its own collection and touches no other row. */
  lemma InsertFrame(d: Db, rows: set<Row>)
    requires Valid(d) && InsertRows(d, rows).Some?
    ensures var d' := InsertRows(d, rows).value;
            Valid(d') && d'.attached == d.attached && Live(d') == Live(d) + rows &&
            forall n | n in d.tables && n !in d.attached :: n in d'.tables && d'.tables[n] == d.tables[n]
  {
    var d' := InsertRows(d, rows).value;
    InsertKeepsValid(d, rows);
    forall r | r in Live(d) + rows ensures r in Live(d') {
      if r in rows && r.cid in d.attached.Values {
        var n :| n in d.attached && d.attached[n] == r.cid;
        assert r in d'.tables[n];
      } else if r in Live(d) && r !in d.strays {
        var n :| n in d.attached && n in d.tables && r in d.tables[n];
        assert r in d'.tables[n];
      }
    }
    forall r | r in Live(d') ensures r in Live(d) + rows {
      if r !in d'.strays {
        var n :| n in d'.attached && n in d'.tables && r in d'.tables[n];
        assert r in d.tables[n] || r in rows;
      }
    }
  }

  lemma InsertKeepsValid(d: Db, rows: set<Row>)
    requires Valid(d) && InsertRows(d, rows).Some?
    ensures Valid(InsertRows(d, rows).value)
  {
    var d' := InsertRows(d, rows).value;
    forall n | n in d'.tables ensures Keyed(d'.tables[n]) {
      forall a, b | a in d'.tables[n] && b in d'.tables[n] && KeyOf(a) == KeyOf(b) ensures a == b {
        if n in d.attached {
          assert forall x | x in d.tables[n] :: x in Live(d);
        }
      }
    }
    forall a, b | a in d'.strays && b in d'.strays && KeyOf(a) == KeyOf(b) ensures a == b {
      assert forall x | x in d.strays :: x in Live(d);
    }
  }

  // ---------- the transactions refine operations on the simple map ----------

  /** Every collection but `cid` sees what it saw before. */
  ghost predicate OthersKept(d: Db, d': Db, cid: CollectionId)
  {
    forall c | c != cid :: RowsOf(d', c) == RowsOf(d, c)
  }

  /** Tables outside `touched` are what they were, attached or not. */
  ghost predicate TablesKept(d: Db, d': Db, touched: set<TableName>)
  {
    forall n | n !in touched ::
      && (n in d.tables <==> n in d'.tables)
      && (n in d.tables ==> d.tables[n] == d'.tables[n])
      && (n in d.attached <==> n in d'.attached)
      && (n in d.attached ==> d.attached[n] == d'.attached[n])
  }

  /** What ensuring `cid` promises of the state after it. */
  ghost predicate Ensured(d: Db, d': Db, cid: CollectionId, touched: set<TableName>)
  {
    && Valid(d') && Live(d') == Live(d)
    && d'.attached.Values == d.attached.Values + {cid}
    && TablesKept(d, d', touched)
  }

  /** Ensuring a partition changes no collection's rows. It fails exactly when the collection
      has no partition and the canonical name is taken by some other table. */
  lemma EnsureRefines(d: Db, cid: CollectionId, live: Option<TableName>, canonical: TableName)
    requires Valid(d) && Exact(d.attached, cid, live)
    ensures EnsureTx(d, cid, live, canonical).Some? <==> live.Some? || canonical !in d.tables
    ensures match EnsureTx(d, cid, live, canonical)
            case None => true
            case Some(d') => Ensured(d, d', cid, if live.Some? then {} else {canonical})
  {
    if live.Some? {
      EnsureExisting(d, cid, live.value, canonical);
    } else if canonical !in d.tables {
      EnsureCreates(d, cid, canonical);
    }
  }

  lemma EnsureExisting(d: Db, cid: CollectionId, live: TableName, canonical: TableName)
    requires Valid(d) && live in d.attached && d.attached[live] == cid
    ensures EnsureTx(d, cid, Some(live), canonical) == Some(d)
    ensures d.attached.Values + {cid} == d.attached.Values
  {
    assert cid in d.attached.Values;
    assert OfCollection(d.strays, cid) == {};
    var d1 := InsertRows(d, {}).value;
    assert forall n | n in d.attached :: d.tables[n] + OfCollection({}, d.attached[n]) == d.tables[n];
    assert d1.tables == d.tables;
    assert d1 == d;
    DeleteStraysFrame(d, cid);
  }

  lemma EnsureCreates(d: Db, cid: CollectionId, canonical: TableName)
    requires Valid(d) && cid !in d.attached.Values && canonical !in d.tables
    ensures EnsureTx(d, cid, None, canonical).Some?
    ensures Ensured(d, EnsureTx(d, cid, None, canonical).value, cid, {canonical})
  {
    var moved := OfCollection(d.strays, cid);
    var d0 := DeleteStrays(d, cid);
    DeleteStraysFrame(d, cid);
    CreateFrame(d0, canonical, cid);
    var d1 := CreatePartition(d0, canonical, cid).value;
    RowsOfPlace(d, cid);
    LiveByCollections(d, d1, moved, cid);
    if moved == {} {
      assert d0.strays == d.strays;
    } else {
      MovedFits(d, d1, moved, cid);
      InsertFrame(d1, moved);
    }
    EnsureCreatesTouches(d, cid, canonical);
  }

  lemma EnsureCreatesTouches(d: Db, cid: CollectionId, canonical: TableName)
    requires Valid(d) && cid !in d.attached.Values && EnsureTx(d, cid, None, canonical).Some?
    ensures var d' := EnsureTx(d, cid, None, canonical).value;
            d'.attached == d.attached[canonical := cid] && TablesKept(d, d', {canonical})
    ensures d.attached[canonical := cid].Values == d.attached.Values + {cid}
  {
    var moved := OfCollection(d.strays, cid);
    assert forall n | n in d.attached :: OfCollection(moved, d.attached[n]) == {};
    var m := d.attached[canonical := cid];
    assert m[canonical] == cid;
    forall c | c in d.attached.Values ensures c in m.Values {
      var n :| n in d.attached && d.attached[n] == c;
      assert m[n] == c;
    }
  }

  /** Rows taken out of the default partition can always be put back. */
  lemma MovedFits(d: Db, d1: Db, moved: set<Row>, cid: CollectionId)
    requires Valid(d) && moved == RowsOf(d, cid) && RowsOf(d1, cid) == {}
    ensures InsertRows(d1, moved).Some?
  {
    LiveIsKeyed(d);
    assert forall r | r in Live(d1) :: r in RowsOf(d1, r.cid);
  }

  lemma LiveByCollections(d: Db, d1: Db, moved: set<Row>, cid: CollectionId)
    requires moved == RowsOf(d, cid) && RowsOf(d1, cid) == {} && OthersKept(d, d1, cid)
    ensures Live(d1) + moved == Live(d)
  {
    forall r ensures r in Live(d1) + moved <==> r in Live(d) {
      assert r in Live(d1) <==> r in RowsOf(d1, r.cid);
      assert r in Live(d) <==> r in RowsOf(d, r.cid);
    }
  }

  /** The staging table of a job is attached to no collection but the job's own. */
  ghost predicate StagingOf(d: Db, staging: TableName, cid: CollectionId)
  {
    staging in d.attached ==> d.attached[staging] == cid
  }

  lemma DropOrphanFrame(d: Db, staging: TableName, canonical: TableName)
    requires Valid(d)
    ensures var d' := DropOrphan(d, staging, canonical);
            Valid(d') && Live(d') == Live(d) && d'.attached == d.attached && d'.strays == d.strays &&
            TablesKept(d, d', {canonical} - {staging})
  {
    if !(canonical == staging || canonical !in d.tables || canonical in d.attached) {
      DropDetachedFrame(d, canonical);
    }
  }

  /** What a committed swap promises. */
  ghost predicate Swapped(d: Db, d': Db, cid: CollectionId, staging: TableName)
    requires staging in d.tables
  {
    && Valid(d')
    && RowsOf(d', cid) == d.tables[staging]
    && OthersKept(d, d', cid)
    && staging in d'.attached && d'.attached[staging] == cid
    && staging in d'.tables && d'.tables[staging] == d.tables[staging]
  }

  /** The swap sets the target's rows to exactly the staged rows; when the staging table passed
      the bound check, it always commits. */
  lemma SwapRefines(d: Db, cid: CollectionId, staging: TableName, live: Option<TableName>, canonical: TableName)
    requires Valid(d) && Exact(d.attached, cid, live) && StagingOf(d, staging, cid) && StagingChecks(d, cid, staging)
    ensures SwapTx(d, cid, staging, live, canonical).Some?
    ensures Swapped(d, SwapTx(d, cid, staging, live, canonical).value, cid, staging)
  {
    if staging in d.attached {
      SwapAgain(d, cid, staging, live, canonical);
    } else {
      SwapFirst(d, cid, staging, live, canonical);
    }
  }

  /** A repeated swap finds its table attached and changes nothing a query sees. */
  lemma SwapAgain(d: Db, cid: CollectionId, staging: TableName, live: Option<TableName>, canonical: TableName)
    requires Valid(d) && staging in d.attached && d.attached[staging] == cid
    ensures SwapTx(d, cid, staging, live, canonical) == Some(DropOrphan(d, staging, canonical))
    ensures Swapped(d, DropOrphan(d, staging, canonical), cid, staging)
    ensures Live(DropOrphan(d, staging, canonical)) == Live(d)
        && DropOrphan(d, staging, canonical).attached == d.attached
  {
    DeleteStraysFrame(d, cid);
    assert cid in d.attached.Values;
    DropOrphanFrame(d, staging, canonical);
    RowsOfPlace(d, cid);
  }

  lemma SwapFirst(d: Db, cid: CollectionId, staging: TableName, live: Option<TableName>, canonical: TableName)
    requires Valid(d) && Exact(d.attached, cid, live) && staging !in d.attached && StagingChecks(d, cid, staging)
    ensures SwapTx(d, cid, staging, live, canonical).Some?
    ensures Swapped(d, SwapTx(d, cid, staging, live, canonical).value, cid, staging)
  {
    var d1 := DeleteStrays(d, cid);
    DeleteStraysFrame(d, cid);
    var d2 := if live.Some? then DropTable(Detach(d1, live.value), live.value) else d1;
    if live.Some? {
      DropPartitionFrame(d1, cid, live.value);
    }
    assert staging in d2.tables && d2.tables[staging] == d.tables[staging];
    var d3 := DropOrphan(d2, staging, canonical);
    DropOrphanFrame(d2, staging, canonical);
    assert d3.tables[staging] == d.tables[staging];
    AttachFrame(d3, staging, cid);
  }

  /** A committed swap moves no table but its own and those of the old partition. */
  lemma SwapTouches(d: Db, cid: CollectionId, staging: TableName, live: Option<TableName>, canonical: TableName)
    requires SwapTx(d, cid, staging, live, canonical).Some?
    ensures TablesKept(d, SwapTx(d, cid, staging, live, canonical).value,
                       {staging, canonical} + if live.Some? then {live.value} else {})
  {
  }

  lemma AttachedAfterSwap(d: Db, cid: CollectionId, staging: TableName, live: Option<TableName>, canonical: TableName)
    requires Valid(d) && Exact(d.attached, cid, live) && staging !in d.attached
    requires SwapTx(d, cid, staging, live, canonical).Some?
    ensures var d' := SwapTx(d, cid, staging, live, canonical).value;
            && d'.attached.Keys == d.attached.Keys - (if live.Some? then {live.value} else {}) + {staging}
            && d'.attached.Values == d.attached.Values + {cid}
  {
    var d' := SwapTx(d, cid, staging, live, canonical).value;
    forall c | c in d.attached.Values + {cid} ensures c in d'.attached.Values {
      if c != cid {
        var n :| n in d.attached && d.attached[n] == c;
        assert n in d'.attached && d'.attached[n] == c;
      } else {
        assert d'.attached[staging] == cid;
      }
    }
  }

  /** Dropping a collection's data empties it and leaves every other collection alone. */
  lemma DropCollectionRefines(d: Db, cid: CollectionId, live: Option<TableName>, canonical: TableName)
    requires Valid(d) && Exact(d.attached, cid, live)
    ensures var d' := DropCollectionTx(d, cid, live, canonical);
            && Valid(d') && RowsOf(d', cid) == {} && OthersKept(d, d', cid)
            && cid !in d'.attached.Values
            && TablesKept(d, d', {canonical} + if live.Some? then {live.value} else {})
  {
    hide Valid, Live, Exact, DropTable, Detach, DeleteStrays, RowsOf;
    var d1 := if live.Some? then DropTable(Detach(d, live.value), live.value) else d;
    WipePartition(d, cid, live);
    WipeRest(d1, cid, canonical);
  }

  /** The collection's partition goes first. */
  lemma WipePartition(d: Db, cid: CollectionId, live: Option<TableName>)
    requires Valid(d) && Exact(d.attached, cid, live)
    ensures var d1 := if live.Some? then DropTable(Detach(d, live.value), live.value) else d;
            && Valid(d1) && cid !in d1.attached.Values && OthersKept(d, d1, cid)
            && TablesKept(d, d1, if live.Some? then {live.value} else {})
  {
    if live.Some? {
      DropPartitionFrame(d, cid, live.value);
    }
    hide Valid, Live, RowsOf;
  }

  /** Rows in the default partition and a detached leftover go too. */
  lemma WipeRest(d1: Db, cid: CollectionId, canonical: TableName)
    requires Valid(d1) && cid !in d1.attached.Values
    ensures var d2 := DeleteStrays(d1, cid);
            var d3 := if canonical in d2.tables && canonical !in d2.attached then DropTable(d2, canonical) else d2;
            && Valid(d3) && RowsOf(d3, cid) == {} && OthersKept(d1, d3, cid)
            && d3.attached == d1.attached && TablesKept(d1, d3, {canonical})
  {
    var d2 := DeleteStrays(d1, cid);
    DeleteStraysFrame(d1, cid);
    if canonical in d2.tables && canonical !in d2.attached {
      DropDetachedFrame(d2, canonical);
    }
    hide Valid, Live;
  }

  // ---------- which tables are gone ----------

  /** After a first swap neither the old partition's table nor a detached leftover of the canonical
      name is there any more. */
  lemma SwapLeavesNoLeftover(d: Db, cid: CollectionId, staging: TableName, live: Option<TableName>,
                             canonical: TableName)
    requires Valid(d) && Exact(d.attached, cid, live) && StagingOf(d, staging, cid) && StagingChecks(d, cid, staging)
    requires SwapTx(d, cid, staging, live, canonical).Some?
    ensures var d' := SwapTx(d, cid, staging, live, canonical).value;
            && (forall n | n in d.attached && d.attached[n] == cid && n != staging :: n !in d'.tables)
            && (canonical in d'.tables ==> canonical == staging || canonical in d'.attached)
  {
    SwapRefines(d, cid, staging, live, canonical);
  }

  /** After a wipe neither the partition's table nor a detached leftover of the canonical name is
      there, and the partition can be created anew, unless the name is another collection's. */
  lemma WipeLeavesNoLeftover(d: Db, cid: CollectionId, live: Option<TableName>, canonical: TableName)
    requires Valid(d) && Exact(d.attached, cid, live)
    ensures var d' := DropCollectionTx(d, cid, live, canonical);
            && (forall n | n in d.attached && d.attached[n] == cid :: n !in d'.tables)
            && (canonical in d'.tables <==> canonical in d.attached && d.attached[canonical] != cid)
            && (EnsureTx(d', cid, None, canonical).Some? <==> canonical !in d.attached || d.attached[canonical] == cid)
  {
    var d' := DropCollectionTx(d, cid, live, canonical);
    DropCollectionRefines(d, cid, live, canonical);
    assert Exact(d'.attached, cid, None);
    EnsureRefines(d', cid, None, canonical);
    hide EnsureTx, Live, RowsOf, OthersKept, TablesKept;
  }

  /** The append promote adds exactly the staged rows or nothing; it fails exactly when the
      staging table is gone or one of its keys is taken. */
  lemma AppendRefines(d: Db, cid: CollectionId, staging: TableName)
    requires Valid(d) && (staging in d.tables ==> AllOf(d.tables[staging], cid))
    ensures AppendTx(d, staging).Some? <==> staging in d.tables && !KeysMeet(d.tables[staging], RowsOf(d, cid))
    ensures match AppendTx(d, staging)
            case None => true
            case Some(d') =>
              && Valid(d') && RowsOf(d', cid) == RowsOf(d, cid) + d.tables[staging] && OthersKept(d, d', cid)
              && d'.attached == d.attached
              && forall n | n in d.tables && n !in d.attached :: n in d'.tables && d'.tables[n] == d.tables[n]
  {
    if staging in d.tables {
      var rows := d.tables[staging];
      if KeysMeet(rows, Live(d)) {
        var a, b :| a in rows && b in Live(d) && KeyOf(a) == KeyOf(b);
        assert b in RowsOf(d, cid);
      }
      assert KeysMeet(rows, RowsOf(d, cid)) ==> KeysMeet(rows, Live(d)) by {
        if KeysMeet(rows, RowsOf(d, cid)) {
          var a, b :| a in rows && b in RowsOf(d, cid) && KeyOf(a) == KeyOf(b);
          assert b in Live(d);
        }
      }
      if InsertRows(d, rows).Some? {
        InsertFrame(d, rows);
      }
    }
  }

  /** Cleaning up a failed import empties the collection if the staging table was attached, and
      changes nothing a query sees if it was not. */
  lemma CleanupStagingRefines(d: Db, cid: CollectionId, staging: TableName)
    requires Valid(d) && StagingOf(d, staging, cid)
    ensures var d' := CleanupStagingTx(d, staging);
            && Valid(d') && OthersKept(d, d', cid) && staging !in d'.tables
            && RowsOf(d', cid) == (if staging in d.attached then {} else RowsOf(d, cid))
            && TablesKept(d, d', {staging})
            && (staging !in d.attached ==> Live(d') == Live(d) && d'.attached == d.attached)
            && d'.attached.Values <= d.attached.Values
  {
    if staging in d.attached {
      DropPartitionFrame(d, cid, staging);
    } else if staging in d.tables {
      DropDetachedFrame(d, staging);
    }
  }

  // ---------- PostgreSQL's rules hold whatever the resolver answers ----------

  lemma DropTableKeepsValid(d: Db, name: TableName)
    requires Valid(d)
    ensures Valid(DropTable(d, name)) && Valid(DropTable(Detach(d, name), name))
  {
    if name in d.attached {
      DropPartitionFrame(d, d.attached[name], name);
      assert DropTable(Detach(d, name), name) == DropTable(d, name);
    } else {
      DropDetachedFrame(d, name);
      assert Detach(d, name) == d;
    }
  }

  lemma EnsureKeepsValid(d: Db, cid: CollectionId, live: Option<TableName>, canonical: TableName)
    requires Valid(d)
    ensures match EnsureTx(d, cid, live, canonical) case None => true case Some(d') => Valid(d')
  {
    var moved := OfCollection(d.strays, cid);
    DeleteStraysFrame(d, cid);
    if live.Some? {
      if InsertRows(d, moved).Some? {
        InsertFrame(d, moved);
        DeleteStraysFrame(InsertRows(d, moved).value, cid);
      }
    } else {
      var d0 := if moved != {} then DeleteStrays(d, cid) else d;
      match CreatePartition(d0, canonical, cid)
      case None =>
      case Some(d1) =>
        CreateFrame(d0, canonical, cid);
        if InsertRows(d1, moved).Some? {
          InsertFrame(d1, moved);
        }
    }
  }

  lemma SwapKeepsValid(d: Db, cid: CollectionId, staging: TableName, live: Option<TableName>, canonical: TableName)
    requires Valid(d)
    ensures match SwapTx(d, cid, staging, live, canonical) case None => true case Some(d') => Valid(d')
  {
    var d1 := DeleteStrays(d, cid);
    DeleteStraysFrame(d, cid);
    DropOrphanFrame(d1, staging, canonical);
    var d2 := if live.Some? then DropTable(Detach(d1, live.value), live.value) else d1;
    if live.Some? {
      DropTableKeepsValid(d1, live.value);
    }
    var d3 := DropOrphan(d2, staging, canonical);
    DropOrphanFrame(d2, staging, canonical);
    if AttachPartition(d3, staging, cid).Some? {
      AttachFrame(d3, staging, cid);
    }
  }

  lemma DropCollectionKeepsValid(d: Db, cid: CollectionId, live: Option<TableName>, canonical: TableName)
    requires Valid(d)
    ensures Valid(DropCollectionTx(d, cid, live, canonical))
  {
    var d1 := if live.Some? then DropTable(Detach(d, live.value), live.value) else d;
    if live.Some? {
      DropTableKeepsValid(d, live.value);
    }
    DeleteStraysFrame(d1, cid);
    DropTableKeepsValid(DeleteStrays(d1, cid), canonical);
  }

  /** When the resolver answers with another collection's partition, that collection is emptied,
      so the wrong answer is harmless exactly when the partition it names holds no rows. */
  lemma WrongPartitionIsLost(d: Db, cid: CollectionId, live: TableName, canonical: TableName)
    requires Valid(d) && live in d.attached && d.attached[live] != cid
    ensures OthersKept(d, DropCollectionTx(d, cid, Some(live), canonical), cid) <==> d.tables[live] == {}
    ensures RowsOf(DropCollectionTx(d, cid, Some(live), canonical), d.attached[live]) == {}
  {
    var victim := d.attached[live];
    DropPartitionFrame(d, victim, live);
    var d1 := DropTable(Detach(d, live), live);
    var d2 := DeleteStrays(d1, cid);
    DeleteStraysFrame(d1, cid);
    if canonical in d2.tables && canonical !in d2.attached {
      DropDetachedFrame(d2, canonical);
    }
    RowsOfPlace(d, victim);
  }

  /** Two ids that differ in one space: the resolver may answer with the partition of "ab" when
      asked for "a b", and wiping "a b" then empties "ab". */
  lemma SpacesCollide(r: Row, canonical: TableName) returns (d: Db)
    requires r.cid == "ab"
    ensures Valid(d) && RowsOf(d, "ab") == {r}
    ensures ResolvesTo(d.attached, "a b", Some("features_ab"))
    ensures RowsOf(DropCollectionTx(d, "a b", Some("features_ab"), canonical), "ab") == {}
  {
    d := Db(map["features_ab" := {r}], map["features_ab" := "ab"], {});
    RowsOfPlace(d, "ab");
    assert d.attached["features_ab"] == "ab";
    assert WithoutSpaces("a b") == WithoutSpaces("ab") by {
      assert "a b"[1..] == " b" && " b"[1..] == "b" && "ab"[1..] == "b";
    }
    LiteralsCollapse("ab", "a b");
    WrongPartitionIsLost(d, "a b", "features_ab", canonical);
  }
}
