/** One bulk-import job and every attempt to finalize it.

    Finalize attempts (first tries, requeued tries, duplicate queue entries) and reconcile passes
    are processes. A process advances one transaction or one read at a time and may crash between
    any two; attempts may be started without limit and may interleave. Status writes, drops of the
    staging table by its name, and everything other jobs and collections do are further steps. */
module FinalizeProtocol {
  import opened Wrappers
  import opened PartitionBound
  import opened FeatureDb
  import opened StoreOps

  /** The fixed facts of a job: the rows it staged and the rows its collection held before. */
  datatype Job = Job(cid: CollectionId, staging: TableName, canonical: TableName, mode: Mode,
                     staged: set<Row>, pre: set<Row>)
  {
    function Post(): set<Row>
    {
      if staged == {} then pre else if mode.Replace? then staged else pre + staged
    }

    predicate WellFormed()
    {
      AllOf(staged, cid) && Keyed(staged) && canonical != staging
    }
  }

  /** What a process will do next. */
  datatype Pc =
    | Begin            // worker: read the job status
    | DropCancelled    // worker: the job was cancelled, drop staging
    | CountStaged      // worker: read the staged row count
    | Promote          // promote: read the row count
    | DropEmpty        // promote: nothing staged, drop staging
    | CheckSwapped     // replace: is staging already the live partition?
    | Swap             // replace: bound check and swap
    | Ensure           // append: ensure the partition
    | Insert           // append: INSERT ... SELECT
    | InsertAgain      // append: the one retry after a key conflict
    | DropAppended     // append: drop staging
    | Abandon          // duplicates persisted: detach and drop staging
    | EnsureAfter      // abandon: ensure an empty partition exists
    | ReconcileBegin   // reconcile: does staging exist, how many rows?
    | ReconcileCheck(empty: bool)  // reconcile: is staging already the live partition?
    | ReconcileDrop    // reconcile: nothing staged, drop staging

  /** `committed` remembers that the rows were swapped in or inserted; no code reads it. */
  datatype State = State(db: Db, cancelled: bool, procs: map<nat, Pc>, committed: bool)

  datatype Action =
    | Start(p: nat, at: Pc)
    | Advance(p: nat, live: Option<TableName>)
    | Crash(p: nat)
    | Status(cancelled: bool)  // the job's status is written: cancelled or something else
    | Drop                     // outside any attempt, the staging table is dropped by its name
    | Other(db: Db)

  function Goto(s: State, p: nat, pc: Pc): State
  {
    s.(procs := s.procs[p := pc])
  }

  function End(s: State, p: nat): State
  {
    s.(procs := s.procs - {p})
  }

  predicate Attached(j: Job, s: State)
  {
    j.staging in s.db.attached
  }

  /** Staging rows as a count query sees them; a missing table has none. */
  function StagedRows(j: Job, s: State): set<Row>
  {
    if j.staging in s.db.tables then s.db.tables[j.staging] else {}
  }

  /** One atomic step of process `p`; `live` is what the resolver answers if it is asked. */
  function Step(j: Job, s: State, p: nat, live: Option<TableName>): State
    requires p in s.procs
  {
    match s.procs[p]
    case Begin =>
      Goto(s, p, if s.cancelled then DropCancelled else CountStaged)
    case CountStaged =>
      if StagedRows(j, s) == {} then End(s, p) else Goto(s, p, Promote)
    case Promote =>
      if j.staging !in s.db.tables then End(s, p)
      else if s.db.tables[j.staging] == {} then Goto(s, p, DropEmpty)
      else Goto(s, p, if j.mode.Replace? then CheckSwapped else Ensure)
    case DropCancelled => End(s.(db := DropTable(s.db, j.staging)), p)
    case DropEmpty => End(s.(db := DropTable(s.db, j.staging)), p)
    case DropAppended => End(s.(db := DropTable(s.db, j.staging)), p)
    case ReconcileDrop => End(s.(db := DropTable(s.db, j.staging)), p)
    case CheckSwapped =>
      if Attached(j, s) || live == Some(j.staging) then End(s, p) else Goto(s, p, Swap)
    case Swap =>
      if !StagingChecks(s.db, j.cid, j.staging) then End(s, p)
      else (
        match SwapTx(s.db, j.cid, j.staging, live, j.canonical)
        case None => End(s, p)
        case Some(d) => End(s.(db := d, committed := true), p))
    case Ensure => (
      match EnsureTx(s.db, j.cid, live, j.canonical)
      case None => End(s, p)
      case Some(d) => Goto(s.(db := d), p, Insert))
    case Insert => StepInsert(j, s, p, InsertAgain)
    case InsertAgain => StepInsert(j, s, p, Abandon)
    case Abandon => Goto(s.(db := CleanupStagingTx(s.db, j.staging)), p, EnsureAfter)
    case EnsureAfter => (
      match EnsureTx(s.db, j.cid, live, j.canonical)
      case None => End(s, p)
      case Some(d) => End(s.(db := d), p))
    case ReconcileBegin =>
      if j.staging !in s.db.tables then End(s, p) else Goto(s, p, ReconcileCheck(s.db.tables[j.staging] == {}))
    case ReconcileCheck(empty) =>
      if Attached(j, s) || live == Some(j.staging) then End(s, p)
      else Goto(s, p, if empty then ReconcileDrop else Promote)
  }

  /** A missing staging table is an error that ends the attempt; a key conflict is retried. */
  function StepInsert(j: Job, s: State, p: nat, onConflict: Pc): State
  {
    if j.staging !in s.db.tables then End(s, p)
    else
      match AppendTx(s.db, j.staging)
      case None => Goto(s, p, onConflict)
      case Some(d) => Goto(s.(db := d, committed := true), p, DropAppended)
  }

  /** What the rest of the system may do between two steps of this job: anything that leaves this
      collection's rows and this staging table as they are and keeps the resolver exact. */
  ghost predicate OtherWork(j: Job, d: Db, d': Db)
  {
    && Valid(d') && NoCollapse(d'.attached, j.cid)
    && RowsOf(d', j.cid) == RowsOf(d, j.cid)
    && (j.staging in d.tables <==> j.staging in d'.tables)
    && (j.staging in d.tables ==> d'.tables[j.staging] == d.tables[j.staging])
    && (j.staging in d.attached <==> j.staging in d'.attached)
    && (j.staging in d.attached ==> d'.attached[j.staging] == d.attached[j.staging])
  }

  /** The transition relation. Attempts start at the worker's or the reconciler's first step, or,
      after an error inside reconcile, at a second promote. Drop is what a cancel request does to a
      finalizing job, the watchdog to a stalled one, and the orphan staging cleanup to any job it
      does not take for active; none of them looks whether the table is attached. */
  ghost predicate Next(j: Job, s: State, a: Action, s': State)
  {
    match a
    case Start(p, at) => p !in s.procs && at in {Begin, ReconcileBegin, Promote} && s' == Goto(s, p, at)
    case Advance(p, live) => p in s.procs && ResolvesTo(s.db.attached, j.cid, live) && s' == Step(j, s, p, live)
    case Crash(p) => p in s.procs && s' == End(s, p)
    case Status(cancelled) => s' == s.(cancelled := cancelled)
    case Drop => s' == s.(db := DropTable(s.db, j.staging))
    case Other(d) => OtherWork(j, s.db, d) && s' == s.(db := d)
  }

  /** The job's load has finished: staging holds the staged rows and is not attached. */
  ghost predicate Init(j: Job, s: State)
  {
    && j.WellFormed() && Valid(s.db) && NoCollapse(s.db.attached, j.cid)
    && j.staging in s.db.tables && s.db.tables[j.staging] == j.staged && !Attached(j, s)
    && RowsOf(s.db, j.cid) == j.pre
    && s.procs == map[] && !s.committed
  }

  /** The staging table is dropped by its name while it is the live partition, by the worker's
      cancelled branch or from outside. */
  ghost predicate DropsLivePartition(j: Job, s: State, a: Action)
  {
    Attached(j, s) && (a.Drop? || (a.Advance? && a.p in s.procs && s.procs[a.p].DropCancelled?))
  }

  // ---------- the invariant ----------

  /** What each waiting step has already established. */
  ghost predicate PcFact(j: Job, s: State, pc: Pc)
  {
    match pc
    case DropEmpty => j.staged == {}
    case CheckSwapped => j.mode.Replace? && j.staged != {}
    case Swap => j.mode.Replace? && j.staged != {}
    case Ensure => j.mode.Append? && j.staged != {}
    case Insert => j.mode.Append? && j.staged != {}
    case InsertAgain => j.mode.Append? && j.staged != {}
    case DropAppended => j.mode.Append? && s.committed
    case Abandon => j.mode.Append?
    case EnsureAfter => j.mode.Append?
    case ReconcileCheck(empty) => empty ==> j.staged == {}
    case ReconcileDrop => j.staged == {}
    case _ => true
  }

  ghost predicate Inv(j: Job, s: State)
  {
    && j.WellFormed() && Valid(s.db) && NoCollapse(s.db.attached, j.cid)
    && (j.staging in s.db.tables ==> s.db.tables[j.staging] == j.staged)
    && (Attached(j, s) <==> s.committed && j.mode.Replace?)
    && (Attached(j, s) ==> s.db.attached[j.staging] == j.cid)
    && (s.committed ==> j.staged != {})
    && RowsOf(s.db, j.cid) == (if s.committed then j.Post() else j.pre)
    && (forall p | p in s.procs :: PcFact(j, s, s.procs[p]))
  }

  /** The database half of the invariant, for one step's old and new database. */
  ghost predicate DbInv(j: Job, d: Db, committed: bool)
  {
    && Valid(d) && NoCollapse(d.attached, j.cid)
    && (j.staging in d.tables ==> d.tables[j.staging] == j.staged)
    && (j.staging in d.attached <==> committed && j.mode.Replace?)
    && (j.staging in d.attached ==> d.attached[j.staging] == j.cid)
    && RowsOf(d, j.cid) == (if committed then j.Post() else j.pre)
  }

  lemma DropStep(j: Job, d: Db, committed: bool)
    requires j.WellFormed() && DbInv(j, d, committed) && j.staging !in d.attached
    ensures DbInv(j, DropTable(d, j.staging), committed) && OthersKept(d, DropTable(d, j.staging), j.cid)
  {
    DropDetachedFrame(d, j.staging);
  }

  lemma EnsureStep(j: Job, d: Db, committed: bool, live: Option<TableName>)
    requires j.WellFormed() && DbInv(j, d, committed) && Exact(d.attached, j.cid, live)
    ensures match EnsureTx(d, j.cid, live, j.canonical)
            case None => true
            case Some(d') => DbInv(j, d', committed) && OthersKept(d, d', j.cid)
  {
    EnsureRefines(d, j.cid, live, j.canonical);
    hide EnsureTx, Valid, Live, RowsOf, OthersKept, Exact;
    match EnsureTx(d, j.cid, live, j.canonical)
    case None =>
    case Some(d') =>
      SameLive(d, d', j.cid);
      AddedBoundKeepsApart(d.attached, d'.attached, j.cid);
  }

  lemma SwapStep(j: Job, d: Db, committed: bool, live: Option<TableName>)
    requires j.WellFormed() && DbInv(j, d, committed) && Exact(d.attached, j.cid, live)
    requires j.mode.Replace? && j.staged != {} && j.staging in d.tables
    ensures match SwapTx(d, j.cid, j.staging, live, j.canonical)
            case None => false
            case Some(d') => DbInv(j, d', true) && OthersKept(d, d', j.cid)
  {
    SwapRefines(d, j.cid, j.staging, live, j.canonical);
    var d' := SwapTx(d, j.cid, j.staging, live, j.canonical).value;
    if j.staging in d.attached {
      SwapAgain(d, j.cid, j.staging, live, j.canonical);
    } else {
      AttachedAfterSwap(d, j.cid, j.staging, live, j.canonical);
      forall n | n in d'.attached && WithoutSpaces(d'.attached[n]) == WithoutSpaces(j.cid)
        ensures d'.attached[n] == j.cid
      {
        assert d'.attached[n] in d'.attached.Values;
      }
    }
  }

  lemma InsertStep(j: Job, d: Db, committed: bool)
    requires j.WellFormed() && DbInv(j, d, committed)
    requires j.mode.Append? && j.staged != {} && j.staging in d.tables
    ensures committed ==> AppendTx(d, j.staging).None?
    ensures match AppendTx(d, j.staging)
            case None => true
            case Some(d') => DbInv(j, d', true) && OthersKept(d, d', j.cid)
  {
    AppendRefines(d, j.cid, j.staging);
    if committed {
      var r :| r in j.staged;
      assert r in RowsOf(d, j.cid) && KeyOf(r) == KeyOf(r);
      assert KeysMeet(j.staged, RowsOf(d, j.cid));
    }
  }

  lemma CleanupStep(j: Job, d: Db, committed: bool)
    requires j.WellFormed() && DbInv(j, d, committed) && j.staging !in d.attached
    ensures DbInv(j, CleanupStagingTx(d, j.staging), committed) && OthersKept(d, CleanupStagingTx(d, j.staging), j.cid)
  {
    CleanupStagingRefines(d, j.cid, j.staging);
  }

  /** A step of the job keeps the invariant and every other collection's rows. */
  lemma StepKeepsDb(j: Job, s: State, p: nat, live: Option<TableName>)
    requires Inv(j, s) && p in s.procs && Exact(s.db.attached, j.cid, live)
    requires !(s.procs[p].DropCancelled? && Attached(j, s))
    ensures var s' := Step(j, s, p, live);
            && DbInv(j, s'.db, s'.committed) && OthersKept(s.db, s'.db, j.cid)
            && (s.committed ==> s'.committed) && (s'.committed ==> j.staged != {})
  {
    assert PcFact(j, s, s.procs[p]);
    assert OthersKept(s.db, s.db, j.cid);
    hide EnsureTx, SwapTx, AppendTx, CleanupStagingTx, DropTable, Valid, RowsOf, NoCollapse, OthersKept, Exact;
    match s.procs[p]
    case DropCancelled => DropStep(j, s.db, s.committed);
    case DropEmpty => DropStep(j, s.db, s.committed);
    case DropAppended => DropStep(j, s.db, s.committed);
    case ReconcileDrop => DropStep(j, s.db, s.committed);
    case Swap =>
      if j.staging in s.db.tables {
        SwapStep(j, s.db, s.committed, live);
      }
    case Ensure => EnsureStep(j, s.db, s.committed, live);
    case EnsureAfter => EnsureStep(j, s.db, s.committed, live);
    case Insert =>
      if j.staging in s.db.tables {
        InsertStep(j, s.db, s.committed);
      }
    case InsertAgain =>
      if j.staging in s.db.tables {
        InsertStep(j, s.db, s.committed);
      }
    case Abandon => CleanupStep(j, s.db, s.committed);
    case _ =>
  }

  /** A process that moves on has established what its next step needs. */
  lemma StepGivesFact(j: Job, s: State, p: nat, live: Option<TableName>)
    requires Inv(j, s) && p in s.procs
    ensures var s' := Step(j, s, p, live); p in s'.procs ==> PcFact(j, s', s'.procs[p])
  {
    hide EnsureTx, SwapTx, AppendTx, CleanupStagingTx, DropTable, Valid, RowsOf, NoCollapse;
    assert PcFact(j, s, s.procs[p]);
  }

  lemma StepLeavesProcs(j: Job, s: State, p: nat, live: Option<TableName>)
    requires p in s.procs
    ensures var s' := Step(j, s, p, live); s'.procs - {p} == s.procs - {p}
  {
    hide EnsureTx, SwapTx, AppendTx, CleanupStagingTx, DropTable;
  }

  lemma StepKeepsFacts(j: Job, s: State, p: nat, live: Option<TableName>, s': State)
    requires Inv(j, s) && p in s.procs && s' == Step(j, s, p, live)
    requires s.committed ==> s'.committed
    ensures forall q | q in s'.procs :: PcFact(j, s', s'.procs[q])
  {
    StepGivesFact(j, s, p, live);
    StepLeavesProcs(j, s, p, live);
    hide Step;
    forall q | q in s'.procs && q != p ensures PcFact(j, s', s'.procs[q]) {
      assert q in s'.procs - {p};
      assert s'.procs[q] == (s.procs - {p})[q];
      assert PcFact(j, s, s.procs[q]);
    }
  }

  lemma DropKeepsInv(j: Job, s: State)
    requires Inv(j, s) && !Attached(j, s)
    ensures var s' := s.(db := DropTable(s.db, j.staging)); Inv(j, s') && OthersKept(s.db, s'.db, j.cid)
  {
    DropStep(j, s.db, s.committed);
    hide DropTable, Valid, RowsOf, NoCollapse, OthersKept;
    var s' := s.(db := DropTable(s.db, j.staging));
    assert forall p | p in s'.procs :: PcFact(j, s, s'.procs[p]);
  }

  lemma NextKeepsInv(j: Job, s: State, a: Action, s': State)
    requires Inv(j, s) && Next(j, s, a, s') && !DropsLivePartition(j, s, a)
    ensures Inv(j, s') && (s.committed ==> s'.committed)
    ensures !a.Other? ==> OthersKept(s.db, s'.db, j.cid)
  {
    match a
    case Advance(p, live) =>
      ResolverExactness(s.db.attached, j.cid);
      StepKeepsDb(j, s, p, live);
      StepKeepsFacts(j, s, p, live, s');
    case Drop =>
      DropKeepsInv(j, s);
    case _ =>
  }

  // ---------- whole runs ----------

  ghost predicate Run(j: Job, states: seq<State>, acts: seq<Action>)
  {
    && |states| == |acts| + 1
    && Init(j, states[0])
    && forall i | 0 <= i < |acts| :: Next(j, states[i], acts[i], states[i + 1])
  }

  /** None of the first n steps drops the staging table while it is the live partition. */
  ghost predicate InTimeUntil(j: Job, states: seq<State>, acts: seq<Action>, n: nat)
    requires n <= |acts| < |states|
  {
    forall i | 0 <= i < n :: !DropsLivePartition(j, states[i], acts[i])
  }

  ghost predicate DropsInTime(j: Job, states: seq<State>, acts: seq<Action>)
    requires |states| == |acts| + 1
  {
    InTimeUntil(j, states, acts, |acts|)
  }

  lemma InitIsInv(j: Job, s: State)
    requires Init(j, s)
    ensures Inv(j, s)
  {
  }

  lemma {:induction false} RunKeepsInv(j: Job, states: seq<State>, acts: seq<Action>, k: nat)
    requires Run(j, states, acts) && k < |states| && InTimeUntil(j, states, acts, k)
    ensures Inv(j, states[k])
    ensures forall i | 0 <= i <= k && states[i].committed :: states[k].committed
  {
    hide Inv, Next, DropsLivePartition, RowsOf;
    if k == 0 {
      InitIsInv(j, states[0]);
    } else {
      RunKeepsInv(j, states, acts, k - 1);
      NextKeepsInv(j, states[k - 1], acts[k - 1], states[k]);
    }
  }

  /** All or nothing, exactly once: at every moment of every run the collection holds either the
      rows from before the import or the rows after it; once it holds the latter through a
      commit it keeps them, no later attempt commits a second time under other rows, and the
      abandon step is never reached while staging is attached. */
  lemma ExactlyOnce(j: Job, states: seq<State>, acts: seq<Action>)
    requires Run(j, states, acts) && DropsInTime(j, states, acts)
    ensures RowsKept(j, states)
    ensures forall k, p | 0 <= k < |states| && p in states[k].procs && states[k].procs[p].Abandon? ::
              !Attached(j, states[k])
    ensures forall i, k | 0 <= i <= k < |states| && states[i].committed ::
              states[k].committed && RowsOf(states[k].db, j.cid) == j.Post()
  {
    forall k | 0 <= k < |states|
      ensures Inv(j, states[k]) && forall i | 0 <= i <= k && states[i].committed :: states[k].committed
    {
      RunKeepsInv(j, states, acts, k);
    }
    forall k, p | 0 <= k < |states| && p in states[k].procs && states[k].procs[p].Abandon?
      ensures !Attached(j, states[k])
    {
      assert PcFact(j, states[k], states[k].procs[p]);
    }
  }

  /** At every moment the collection holds the rows from before the import until a commit, and the
      rows after it from then on. */
  ghost predicate RowsKept(j: Job, states: seq<State>)
  {
    forall k | 0 <= k < |states| ::
      RowsOf(states[k].db, j.cid) == if states[k].committed then j.Post() else j.pre
  }

  /** The first late drop of a run that has one. */
  lemma {:induction false} FirstLateDrop(j: Job, states: seq<State>, acts: seq<Action>, n: nat) returns (i: nat)
    requires n <= |acts| < |states| && !InTimeUntil(j, states, acts, n)
    ensures i < n && InTimeUntil(j, states, acts, i) && DropsLivePartition(j, states[i], acts[i])
  {
    if InTimeUntil(j, states, acts, n - 1) {
      i := n - 1;
    } else {
      i := FirstLateDrop(j, states, acts, n - 1);
    }
  }

  /** A run keeps the rows at every moment exactly when it never drops the staging table by name
      while that table is the live partition. */
  lemma RowsKeptIff(j: Job, states: seq<State>, acts: seq<Action>)
    requires Run(j, states, acts)
    ensures RowsKept(j, states) <==> DropsInTime(j, states, acts)
  {
    if DropsInTime(j, states, acts) {
      ExactlyOnce(j, states, acts);
    } else {
      var i := FirstLateDrop(j, states, acts, |acts|);
      RunKeepsInv(j, states, acts, i);
      LateDropLoses(j, states[i], acts[i], states[i + 1]);
    }
  }

  /** A late drop leaves the collection of a committed import without rows. */
  lemma LateDropLoses(j: Job, s: State, a: Action, s': State)
    requires Inv(j, s) && Next(j, s, a, s') && DropsLivePartition(j, s, a)
    ensures RowsOf(s'.db, j.cid) == {} && s'.committed && j.Post() != {}
  {
    DropPartitionFrame(s.db, j.cid, j.staging);
    assert s'.db == DropTable(Detach(s.db, j.staging), j.staging);
  }

  /** Steps of this job never show in another collection. */
  lemma OthersUntouched(j: Job, states: seq<State>, acts: seq<Action>, k: nat, c: CollectionId)
    requires Run(j, states, acts) && DropsInTime(j, states, acts) && k < |acts|
    requires !acts[k].Other? && c != j.cid
    ensures RowsOf(states[k + 1].db, c) == RowsOf(states[k].db, c)
  {
    RunKeepsInv(j, states, acts, k);
    NextKeepsInv(j, states[k], acts[k], states[k + 1]);
  }

  /** After a commit, a step keeps the imported rows exactly when it does not drop the live partition
      under its staging name. */
  lemma LostExactlyByLateDrop(j: Job, s: State, a: Action, s': State)
    requires Inv(j, s) && s.committed && Next(j, s, a, s')
    ensures RowsOf(s'.db, j.cid) == j.Post() <==> !DropsLivePartition(j, s, a)
  {
    if DropsLivePartition(j, s, a) {
      LateDropLoses(j, s, a, s');
    } else {
      NextKeepsInv(j, s, a, s');
    }
  }

  // ---------- the mode must be the same in all attempts ----------

  /** After a replace import has committed, an attempt that takes the job for an append meets its own
      rows twice and abandons, which empties the collection. */
  lemma AppendAfterReplaceLoses(j: Job, s: State, p: nat, live: Option<TableName>)
    requires Inv(j, s) && s.committed && j.mode.Replace? && p in s.procs
    ensures var k := j.(mode := Append);
            && Step(k, Goto(s, p, Insert), p, live) == Goto(Goto(s, p, Insert), p, InsertAgain)
            && Step(k, Goto(s, p, InsertAgain), p, live) == Goto(Goto(s, p, InsertAgain), p, Abandon)
            && RowsOf(Step(k, Goto(s, p, Abandon), p, live).db, j.cid) == {}
            && j.Post() != {}
  {
    AppendAgainFails(j, s.db);
    hide AppendTx, CleanupStagingTx, RowsOf, Valid, NoCollapse, EnsureTx, SwapTx, DropTable, PcFact;
  }

  lemma AppendAgainFails(j: Job, d: Db)
    requires j.WellFormed() && DbInv(j, d, true) && j.mode.Replace? && j.staged != {}
    ensures j.staging in d.tables && AppendTx(d, j.staging).None?
    ensures RowsOf(CleanupStagingTx(d, j.staging), j.cid) == {}
  {
    AppendRefines(d, j.cid, j.staging);
    var r :| r in j.staged;
    assert r in RowsOf(d, j.cid) && KeyOf(r) == KeyOf(r);
    assert KeysMeet(j.staged, RowsOf(d, j.cid));
    CleanupStagingRefines(d, j.cid, j.staging);
  }

  /** After an append import has committed and before its staging table is dropped, an attempt that
      takes the job for a replace swaps that table in: the rows are kept exactly when every row from
      before the import was staged as well. */
  lemma ReplaceAfterAppendLoses(j: Job, s: State, p: nat, live: Option<TableName>)
    requires Inv(j, s) && s.committed && j.mode.Append? && j.staging in s.db.tables && p in s.procs
    requires Exact(s.db.attached, j.cid, live)
    ensures var s' := Step(j.(mode := Replace), Goto(s, p, Swap), p, live);
            && RowsOf(s'.db, j.cid) == j.staged
            && (RowsOf(s'.db, j.cid) == j.Post() <==> j.pre <= j.staged)
  {
    SwapRefines(s.db, j.cid, j.staging, live, j.canonical);
    hide SwapTx, Valid, NoCollapse, Exact, RowsOf, EnsureTx, AppendTx, CleanupStagingTx, DropTable, OthersKept, PcFact;
  }

  // ---------- other collections' work is Other work ----------

  /** The two collections share neither id, collapsed id nor table name. */
  ghost predicate Apart(j: Job, d: Db, cid: CollectionId, live: Option<TableName>, canonical: TableName)
  {
    && Valid(d) && NoCollapse(d.attached, j.cid) && StagingOf(d, j.staging, j.cid)
    && Exact(d.attached, cid, live) && WithoutSpaces(cid) != WithoutSpaces(j.cid) && j.staging != canonical
  }

  /** A change that keeps other collections' rows and touches none of this job's tables. */
  lemma TouchesElsewhere(j: Job, d: Db, d': Db, cid: CollectionId, touched: set<TableName>)
    requires NoCollapse(d.attached, j.cid) && WithoutSpaces(cid) != WithoutSpaces(j.cid)
    requires Valid(d') && OthersKept(d, d', cid) && d'.attached.Values <= d.attached.Values + {cid}
    requires TablesKept(d, d', touched) && j.staging !in touched
    ensures OtherWork(j, d, d')
  {
    FewBoundsStayExact(j, d, d', cid);
    hide Valid, NoCollapse;
    assert cid != j.cid;
    assert RowsOf(d', j.cid) == RowsOf(d, j.cid);
  }

  lemma LiveIsElsewhere(j: Job, d: Db, cid: CollectionId, live: Option<TableName>, canonical: TableName)
    requires Apart(j, d, cid, live, canonical)
    ensures live != Some(j.staging)
  {
  }

  lemma OtherSwap(j: Job, d: Db, cid: CollectionId, staging: TableName, live: Option<TableName>, canonical: TableName)
    requires Apart(j, d, cid, live, canonical)
    requires j.staging != staging && StagingOf(d, staging, cid) && StagingChecks(d, cid, staging)
    ensures SwapTx(d, cid, staging, live, canonical).Some?
    ensures OtherWork(j, d, SwapTx(d, cid, staging, live, canonical).value)
  {
    LiveIsElsewhere(j, d, cid, live, canonical);
    SwapRefines(d, cid, staging, live, canonical);
    SwapTouches(d, cid, staging, live, canonical);
    var d' := SwapTx(d, cid, staging, live, canonical).value;
    if staging in d.attached {
      SwapAgain(d, cid, staging, live, canonical);
    } else {
      AttachedAfterSwap(d, cid, staging, live, canonical);
    }
    hide SwapTx, Valid, NoCollapse, Exact, OthersKept, TablesKept, DropOrphan;
    TouchesElsewhere(j, d, d', cid, {staging, canonical} + if live.Some? then {live.value} else {});
  }

  lemma OtherEnsure(j: Job, d: Db, cid: CollectionId, live: Option<TableName>, canonical: TableName)
    requires Apart(j, d, cid, live, canonical) && EnsureTx(d, cid, live, canonical).Some?
    ensures OtherWork(j, d, EnsureTx(d, cid, live, canonical).value)
  {
    EnsureRefines(d, cid, live, canonical);
    var d' := EnsureTx(d, cid, live, canonical).value;
    assert OthersKept(d, d', cid);
    hide EnsureTx, Valid, NoCollapse, Exact, OthersKept, TablesKept;
    TouchesElsewhere(j, d, d', cid, if live.Some? then {} else {canonical});
  }

  lemma OtherDrop(j: Job, d: Db, cid: CollectionId, live: Option<TableName>, canonical: TableName)
    requires Apart(j, d, cid, live, canonical)
    ensures OtherWork(j, d, DropCollectionTx(d, cid, live, canonical))
  {
    LiveIsElsewhere(j, d, cid, live, canonical);
    DropCollectionRefines(d, cid, live, canonical);
    var d' := DropCollectionTx(d, cid, live, canonical);
    DropCollectionBounds(d, cid, live, canonical);
    hide DropCollectionTx, Valid, NoCollapse, Exact, OthersKept, TablesKept;
    TouchesElsewhere(j, d, d', cid, {canonical} + if live.Some? then {live.value} else {});
  }

  /** Another collection's append insert. */
  lemma OtherAppend(j: Job, d: Db, cid: CollectionId, staging: TableName, live: Option<TableName>, canonical: TableName)
    requires Apart(j, d, cid, live, canonical) && staging in d.tables && AllOf(d.tables[staging], cid)
    requires AppendTx(d, staging).Some?
    ensures OtherWork(j, d, AppendTx(d, staging).value)
  {
    var d' := AppendTx(d, staging).value;
    AppendRefines(d, cid, staging);
    assert cid != j.cid;
    InsertElsewhere(d, d.tables[staging], cid);
    assert forall n | n in d.attached :: n in d'.attached && d'.attached[n] == d.attached[n];
  }

  /** Inserting rows of one collection leaves detached tables and other partitions as they are. */
  lemma InsertElsewhere(d: Db, rows: set<Row>, cid: CollectionId)
    requires Valid(d) && AllOf(rows, cid) && InsertRows(d, rows).Some?
    ensures var d' := InsertRows(d, rows).value;
            && d'.attached == d.attached && d'.tables.Keys == d.tables.Keys
            && forall n | n in d.tables && !(n in d.attached && d.attached[n] == cid) :: d'.tables[n] == d.tables[n]
  {
    assert forall n | n in d.attached && d.attached[n] != cid :: OfCollection(rows, d.attached[n]) == {};
  }

  /** Another job's staging table is cleaned up after a failed import, or dropped by its name. */
  lemma OtherCleanup(j: Job, d: Db, cid: CollectionId, staging: TableName, live: Option<TableName>,
                     canonical: TableName)
    requires Apart(j, d, cid, live, canonical) && staging != j.staging && StagingOf(d, staging, cid)
    ensures OtherWork(j, d, CleanupStagingTx(d, staging)) && OtherWork(j, d, DropTable(d, staging))
  {
    CleanupStagingRefines(d, cid, staging);
    CleanupIsDrop(d, staging);
    hide CleanupStagingTx, DropTable, Valid, NoCollapse, Exact, OthersKept, TablesKept, OtherWork, RowsOf;
    TouchesElsewhere(j, d, CleanupStagingTx(d, staging), cid, {staging});
  }

  lemma CleanupIsDrop(d: Db, staging: TableName)
    requires Valid(d)
    ensures DropTable(d, staging) == CleanupStagingTx(d, staging)
  {
  }

  /** The orphan cleanup at the start of each reconcile pass: no staging table carries a canonical
      partition name. */
  lemma OtherOrphans(j: Job, d: Db, canonical: CollectionId -> TableName)
    requires Valid(d) && NoCollapse(d.attached, j.cid) && forall c :: canonical(c) != j.staging
    ensures OtherWork(j, d, d.(tables := d.tables - Orphans(d, canonical)))
  {
    var gone := Orphans(d, canonical);
    DropOrphansFrame(d, gone);
    assert j.staging !in gone;
    SameLive(d, d.(tables := d.tables - gone), j.cid);
  }

  lemma DropCollectionBounds(d: Db, cid: CollectionId, live: Option<TableName>, canonical: TableName)
    ensures DropCollectionTx(d, cid, live, canonical).attached.Values <= d.attached.Values
  {
    var d' := DropCollectionTx(d, cid, live, canonical);
    assert forall n | n in d'.attached :: n in d.attached && d'.attached[n] == d.attached[n];
  }

  /** Another collection's swap, ensure or wipe is one of the steps the runs above allow. */
  lemma OtherCollectionsWork(j: Job, d: Db, cid: CollectionId, staging: TableName, live: Option<TableName>,
                             canonical: TableName)
    requires Apart(j, d, cid, live, canonical) && j.staging != staging && StagingOf(d, staging, cid)
    ensures StagingChecks(d, cid, staging) ==>
              SwapTx(d, cid, staging, live, canonical).Some?
                  && OtherWork(j, d, SwapTx(d, cid, staging, live, canonical).value)
    ensures EnsureTx(d, cid, live, canonical).Some? ==> OtherWork(j, d, EnsureTx(d, cid, live, canonical).value)
    ensures OtherWork(j, d, DropCollectionTx(d, cid, live, canonical))
  {
    hide *;
    if StagingChecks(d, cid, staging) {
      OtherSwap(j, d, cid, staging, live, canonical);
    }
    if EnsureTx(d, cid, live, canonical).Some? {
      OtherEnsure(j, d, cid, live, canonical);
    }
    OtherDrop(j, d, cid, live, canonical);
  }

  lemma FewBoundsStayExact(j: Job, d: Db, d': Db, cid: CollectionId)
    requires NoCollapse(d.attached, j.cid) && WithoutSpaces(cid) != WithoutSpaces(j.cid)
    requires d'.attached.Values <= d.attached.Values + {cid}
    ensures NoCollapse(d'.attached, j.cid)
  {
    forall n | n in d'.attached && WithoutSpaces(d'.attached[n]) == WithoutSpaces(j.cid)
      ensures d'.attached[n] == j.cid
    {
      assert d'.attached[n] in d'.attached.Values;
      assert d'.attached[n] != cid;
      var m :| m in d.attached && d.attached[m] == d'.attached[n];
    }
  }

  // ---------- the cancel race ----------

  /** An attempt that has not committed walks to its swap without touching the database. */
  lemma WalkToSwap(j: Job, s: State, live: Option<TableName>)
    requires Init(j, s) && !s.cancelled && j.mode.Replace? && j.staged != {}
    requires Exact(s.db.attached, j.cid, live)
    ensures Step(j, Goto(s, 0, Begin), 0, live) == Goto(s, 0, CountStaged)
    ensures Step(j, Goto(s, 0, CountStaged), 0, live) == Goto(s, 0, Promote)
    ensures Step(j, Goto(s, 0, Promote), 0, live) == Goto(s, 0, CheckSwapped)
    ensures Step(j, Goto(s, 0, CheckSwapped), 0, live) == Goto(s, 0, Swap)
  {
    forall a: Pc, b: Pc
      ensures Goto(Goto(s, 0, a), 0, b) == Goto(s, 0, b)
    {
      assert s.procs[0 := a][0 := b] == s.procs[0 := b];
    }
  }

  /** No cancel request and no drop from outside the attempts. */
  predicate Quiet(acts: seq<Action>)
  {
    forall i | 0 <= i < |acts| :: !acts[i].Drop? && acts[i] != Status(true)
  }

  /** The run up to the waiting swap. */
  lemma WalkRun(j: Job, s: State, live: Option<TableName>) returns (states: seq<State>, acts: seq<Action>)
    requires Init(j, s) && !s.cancelled && j.mode.Replace? && j.staged != {}
    requires ResolvesTo(s.db.attached, j.cid, live)
    ensures Run(j, states, acts) && CancelsBeforeSwap(j, states, acts)
    ensures states[0] == s && states[|acts|] == Goto(s, 0, Swap)
    ensures Quiet(acts)
  {
    ResolverExactness(s.db.attached, j.cid);
    WalkToSwap(j, s, live);
    states, acts := [s], [];
    states, acts := Extend(j, states, acts, Start(0, Begin), Goto(s, 0, Begin));
    states, acts := Extend(j, states, acts, Advance(0, live), Goto(s, 0, CountStaged));
    states, acts := Extend(j, states, acts, Advance(0, live), Goto(s, 0, Promote));
    states, acts := Extend(j, states, acts, Advance(0, live), Goto(s, 0, CheckSwapped));
    states, acts := Extend(j, states, acts, Advance(0, live), Goto(s, 0, Swap));
  }

  /** The hypothesis cannot be weakened to "no cancel is requested after the swap". The user cancels
      while an attempt waits to swap and the request's own drop fails, which it ignores; the attempt
      swaps, and a second queue entry for the job then takes the cancelled branch: the collection
      ends with no rows at all. */
  lemma CancelRace(j: Job, s: State, live: Option<TableName>) returns (states: seq<State>, acts: seq<Action>)
    requires Init(j, s) && !s.cancelled && j.mode.Replace? && j.staged != {}
    requires ResolvesTo(s.db.attached, j.cid, live)
    ensures Run(j, states, acts) && states[0] == s
    ensures CancelsBeforeSwap(j, states, acts)
    ensures RowsOf(states[|acts|].db, j.cid) == {}
  {
    ResolverExactness(s.db.attached, j.cid);
    var s6 := Goto(s, 0, Swap).(cancelled := true);
    var s7, s9, s10 := RaceEnds(j, s, s6, live);
    var again := Some(j.staging);
    states, acts := WalkRun(j, s, live);
    hide Init, Next, RowsOf, Attached;
    states, acts := Extend(j, states, acts, Status(true), s6);
    states, acts := Extend(j, states, acts, Advance(0, live), s7);
    states, acts := Extend(j, states, acts, Start(1, Begin), Goto(s7, 1, Begin));
    states, acts := Extend(j, states, acts, Advance(1, again), s9);
    states, acts := Extend(j, states, acts, Advance(1, again), s10);
  }

  /** Every cancel request of the run comes while staging is not attached, and no drop comes from
      outside the attempts. */
  ghost predicate CancelsBeforeSwap(j: Job, states: seq<State>, acts: seq<Action>)
    requires |states| == |acts| + 1
  {
    forall i | 0 <= i < |acts| :: !acts[i].Drop? && (acts[i] == Status(true) ==> !Attached(j, states[i]))
  }

  lemma Extend(j: Job, states: seq<State>, acts: seq<Action>, a: Action, s: State)
    returns (states': seq<State>, acts': seq<Action>)
    requires Run(j, states, acts) && CancelsBeforeSwap(j, states, acts)
    requires Next(j, states[|acts|], a, s)
    requires !a.Drop? && (a == Status(true) ==> !Attached(j, states[|acts|]))
    ensures Run(j, states', acts') && CancelsBeforeSwap(j, states', acts')
    ensures states'[0] == states[0] && states'[|acts'|] == s && acts' == acts + [a]
  {
    states', acts' := states + [s], acts + [a];
    hide Next, Init;
    forall i | 0 <= i < |acts'|
      ensures Next(j, states'[i], acts'[i], states'[i + 1])
    {
      if i < |acts| {
        assert Next(j, states[i], acts[i], states[i + 1]);
        assert states'[i] == states[i] && states'[i + 1] == states[i + 1] && acts'[i] == acts[i];
      }
    }
  }

  /** The waiting swap of a cancelled job commits. */
  lemma RaceSwaps(j: Job, s: State, s6: State, live: Option<TableName>) returns (s7: State)
    requires Init(j, s) && j.mode.Replace? && j.staged != {} && Exact(s.db.attached, j.cid, live)
    requires s6 == Goto(s, 0, Swap).(cancelled := true)
    ensures s7 == Step(j, s6, 0, live)
    ensures DbInv(j, s7.db, true) && s7.cancelled && s7.procs == map[]
  {
    SwapStep(j, s.db, false, live);
    s7 := Step(j, s6, 0, live);
    hide SwapTx, DbInv, Valid, NoCollapse, Exact, RowsOf;
    assert s7.procs == s6.procs - {0} && s6.procs.Keys == {0};
  }

  /** A second attempt then drops the live partition. */
  lemma RaceDrops(j: Job, s7: State) returns (s9: State, s10: State)
    requires DbInv(j, s7.db, true) && j.mode.Replace? && s7.cancelled && s7.procs == map[]
    ensures s9 == Step(j, Goto(s7, 1, Begin), 1, Some(j.staging))
    ensures 1 in s9.procs && s9.db == s7.db && s10 == Step(j, s9, 1, Some(j.staging))
    ensures RowsOf(s10.db, j.cid) == {}
  {
    s9 := Goto(Goto(s7, 1, Begin), 1, DropCancelled);
    s10 := End(s9.(db := DropTable(s9.db, j.staging)), 1);
    DropPartitionFrame(s7.db, j.cid, j.staging);
    assert s10.db == DropTable(Detach(s7.db, j.staging), j.staging);
  }

  /** From the waiting swap of a cancelled job to the loss of its rows. */
  lemma RaceEnds(j: Job, s: State, s6: State, live: Option<TableName>) returns (s7: State, s9: State, s10: State)
    requires Init(j, s) && j.mode.Replace? && j.staged != {} && ResolvesTo(s.db.attached, j.cid, live)
    requires Exact(s.db.attached, j.cid, live)
    requires s6 == Goto(s, 0, Swap).(cancelled := true)
    ensures Next(j, s6, Advance(0, live), s7)
    ensures Next(j, s7, Start(1, Begin), Goto(s7, 1, Begin))
    ensures Next(j, Goto(s7, 1, Begin), Advance(1, Some(j.staging)), s9)
    ensures Next(j, s9, Advance(1, Some(j.staging)), s10)
    ensures RowsOf(s10.db, j.cid) == {}
  {
    s7 := RaceSwaps(j, s, s6, live);
    s9, s10 := RaceDrops(j, s7);
    assert ResolvesTo(s7.db.attached, j.cid, Some(j.staging));
    hide Step, Valid, RowsOf, NoCollapse, Exact, ResolvesTo, Init;
  }

  /** The plainest loss: an attempt swaps, and before the job is marked completed the user cancels.
      The request drops the staging table, which is the live partition. No attempt sees a cancelled
      job, and there is no other drop. */
  lemma LateCancelRequest(j: Job, s: State, live: Option<TableName>) returns (states: seq<State>, acts: seq<Action>)
    requires Init(j, s) && !s.cancelled && j.mode.Replace? && j.staged != {}
    requires ResolvesTo(s.db.attached, j.cid, live)
    ensures Run(j, states, acts) && states[0] == s
    ensures |acts| > 0 && acts[|acts| - 1] == Drop && states[|acts| - 1].committed
    ensures Quiet(acts[..|acts| - 1])
    ensures RowsOf(states[|acts|].db, j.cid) == {}
  {
    ResolverExactness(s.db.attached, j.cid);
    var s6 := SwapCommits(j, s, live);
    states, acts := WalkRun(j, s, live);
    hide Init, Next, RowsOf, DbInv;
    states, acts := Extend(j, states, acts, Advance(0, live), s6);
    ghost var before := acts;
    assert Quiet(before);
    states, acts := EndWithDrop(j, states, acts);
    assert acts[..|acts| - 1] == before;
    assert states[|before|] == states[..|acts|][|before|];
  }

  lemma SwapCommits(j: Job, s: State, live: Option<TableName>) returns (s6: State)
    requires Init(j, s) && j.mode.Replace? && j.staged != {} && ResolvesTo(s.db.attached, j.cid, live)
    requires Exact(s.db.attached, j.cid, live)
    ensures Next(j, Goto(s, 0, Swap), Advance(0, live), s6) && DbInv(j, s6.db, true) && s6.committed
  {
    SwapStep(j, s.db, false, live);
    s6 := Step(j, Goto(s, 0, Swap), 0, live);
    hide SwapTx, DbInv, Valid, NoCollapse, Exact, RowsOf, ResolvesTo;
  }

  lemma EndWithDrop(j: Job, states: seq<State>, acts: seq<Action>) returns (states': seq<State>, acts': seq<Action>)
    requires Run(j, states, acts) && states[|acts|].committed && DbInv(j, states[|acts|].db, true) && j.mode.Replace?
    ensures Run(j, states', acts') && acts' == acts + [Drop] && states'[..|acts'|] == states
    ensures RowsOf(states'[|acts'|].db, j.cid) == {}
  {
    var last := states[|acts|];
    var s := last.(db := DropTable(last.db, j.staging));
    states', acts' := states + [s], acts + [Drop];
    DropPartitionFrame(last.db, j.cid, j.staging);
    assert s.db == DropTable(Detach(last.db, j.staging), j.staging);
    assert Next(j, last, Drop, s);
    hide Next, Init, DropTable, RowsOf;
    forall i | 0 <= i < |acts'| ensures Next(j, states'[i], acts'[i], states'[i + 1]) {
      if i < |acts| {
        assert Next(j, states[i], acts[i], states[i + 1]);
        assert states'[i] == states[i] && states'[i + 1] == states[i + 1] && acts'[i] == acts[i];
      }
    }
    assert states'[..|acts'|] == states;
  }
}
