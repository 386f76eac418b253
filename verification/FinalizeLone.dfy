/** What one undisturbed pass of a job does.

    After any run at all, crashes and drops included, a single attempt or reconcile pass is started
    and nothing else happens until it ends. Such a pass ends, and what it leaves is decided by the
    state it found. */
module FinalizeLone {
  import opened Wrappers
  import opened PartitionBound
  import opened FeatureDb
  import opened StoreOps
  import opened FinalizeProtocol

  /** With no process left after n actions, process `p` is started at `at` and only it goes on. */
  predicate Alone(states: seq<State>, acts: seq<Action>, n: nat, p: nat, at: Pc)
  {
    && |states| == |acts| + 1 && n < |acts|
    && states[n].procs == map[] && acts[n] == Start(p, at)
    && forall i | n < i < |acts| :: acts[i].Advance? && acts[i].p == p
  }

  /** How many more steps a process at `pc` may take. */
  function Rank(pc: Pc): (r: nat)
    ensures 1 <= r <= 8
  {
    match pc
    case Begin => 8
    case ReconcileBegin => 8
    case CountStaged => 7
    case ReconcileCheck(_) => 7
    case Promote => 6
    case Ensure => 5
    case Insert => 4
    case InsertAgain => 3
    case Abandon => 2
    case CheckSwapped => 2
    case _ => 1
  }

  function RankIn(s: State, p: nat): nat
  {
    if p in s.procs then Rank(s.procs[p]) else 0
  }

  lemma RankFalls(j: Job, s: State, p: nat, live: Option<TableName>)
    requires p in s.procs
    ensures RankIn(Step(j, s, p, live), p) < RankIn(s, p)
  {
    hide EnsureTx, SwapTx, AppendTx, CleanupStagingTx, DropTable;
  }

  // ---------- what holds while the pass goes on ----------

  /** The worker's first step finds the job cancelled. */
  predicate Refused(s0: State, at: Pc)
  {
    at.Begin? && s0.cancelled
  }

  predicate CanEnsure(j: Job, d: Db)
  {
    j.cid in d.attached.Values || j.canonical !in d.tables
  }

  predicate Clash(j: Job, d: Db)
  {
    KeysMeet(j.staged, RowsOf(d, j.cid))
  }

  /** The pass commits, unless an earlier one did. */
  predicate Imports(j: Job, s0: State, at: Pc)
  {
    && j.staging in s0.db.tables && j.staged != {} && !Refused(s0, at)
    && (j.mode.Append? ==> CanEnsure(j, s0.db) && !Clash(j, s0.db))
  }

  predicate StagingStays(j: Job, s0: State, at: Pc)
  {
    && j.staging in s0.db.tables && !Refused(s0, at)
    && (if j.staged == {} then at.Begin? else j.mode.Append? ==> !CanEnsure(j, s0.db))
  }

  predicate Untouched(s0: State, s: State)
  {
    s.db == s0.db && s.committed == s0.committed
  }

  predicate Willing(j: Job, s0: State, at: Pc)
  {
    j.staging in s0.db.tables && j.staged != {} && !Refused(s0, at)
  }

  /** Where the pass stands in front of `pc`. */
  ghost predicate At(j: Job, s0: State, at: Pc, s: State, pc: Pc)
  {
    match pc
    case Begin => Untouched(s0, s) && at.Begin?
    case DropCancelled => Untouched(s0, s) && Refused(s0, at)
    case CountStaged => Untouched(s0, s) && at.Begin? && !Refused(s0, at)
    case ReconcileBegin => Untouched(s0, s) && at.ReconcileBegin?
    case ReconcileCheck(empty) =>
      Untouched(s0, s) && at.ReconcileBegin? && j.staging in s0.db.tables && empty == (j.staged == {})
    case ReconcileDrop => Untouched(s0, s) && at.ReconcileBegin? && j.staged == {}
    case Promote => Untouched(s0, s) && !Refused(s0, at) && (at.Promote? || Willing(j, s0, at))
    case DropEmpty => Untouched(s0, s) && at.Promote? && j.staged == {}
    case CheckSwapped => Untouched(s0, s) && Willing(j, s0, at) && j.mode.Replace?
    case Swap => Untouched(s0, s) && Willing(j, s0, at) && j.mode.Replace?
    case Ensure => Untouched(s0, s) && Willing(j, s0, at) && j.mode.Append?
    case Insert => Ready(j, s0, at, s) && j.staging in s.db.tables
    case InsertAgain => Ready(j, s0, at, s) && j.staging in s.db.tables && Clash(j, s0.db)
    case Abandon => Ready(j, s0, at, s) && Clash(j, s0.db)
    case EnsureAfter => Ready(j, s0, at, s) && Clash(j, s0.db) && j.staging !in s.db.tables
    case DropAppended => s.committed && Imports(j, s0, at) && j.mode.Append?
  }

  /** The partition is there and the rows are as they were. */
  ghost predicate Ready(j: Job, s0: State, at: Pc, s: State)
  {
    && Willing(j, s0, at) && j.mode.Append? && CanEnsure(j, s0.db)
    && s.committed == s0.committed && RowsOf(s.db, j.cid) == RowsOf(s0.db, j.cid)
    && j.cid in s.db.attached.Values
  }

  predicate Ended(j: Job, s0: State, at: Pc, s: State)
  {
    && (s.committed <==> s0.committed || Imports(j, s0, at))
    && (j.staging in s.db.tables <==> StagingStays(j, s0, at))
  }

  /** The pass is the only process, and stands where it can be; or it has ended. */
  ghost predicate Phase(j: Job, s0: State, at: Pc, p: nat, s: State)
  {
    s.cancelled == s0.cancelled && s.procs.Keys <= {p} && Stands(j, s0, at, p, s)
  }

  ghost predicate Stands(j: Job, s0: State, at: Pc, p: nat, s: State)
  {
    if p in s.procs then At(j, s0, at, s, s.procs[p]) else Ended(j, s0, at, s)
  }

  lemma StartsPhase(j: Job, s0: State, at: Pc, p: nat, s: State)
    requires at in {Begin, ReconcileBegin, Promote} && s0.procs == map[] && s == Goto(s0, p, at)
    ensures Phase(j, s0, at, p, s)
  {
  }

  lemma AloneProcs(j: Job, s: State, p: nat, live: Option<TableName>)
    requires p in s.procs && s.procs.Keys <= {p}
    ensures var s' := Step(j, s, p, live); s'.procs.Keys <= {p} && s'.cancelled == s.cancelled
  {
    hide EnsureTx, SwapTx, AppendTx, CleanupStagingTx, DropTable;
  }

  lemma SwapFacts(j: Job, s: State, live: Option<TableName>)
    requires Inv(j, s) && Exact(s.db.attached, j.cid, live)
    requires j.mode.Replace? && j.staged != {} && j.staging in s.db.tables
    ensures StagingChecks(s.db, j.cid, j.staging)
    ensures match SwapTx(s.db, j.cid, j.staging, live, j.canonical)
            case None => false
            case Some(d) => j.staging in d.tables
  {
    hide SwapTx, NoCollapse, Exact, RowsOf, OthersKept;
    SwapStep(j, s.db, s.committed, live);
  }

  lemma SwapPhase(j: Job, s0: State, at: Pc, p: nat, s: State, live: Option<TableName>)
    requires Inv(j, s0) && Inv(j, s) && Phase(j, s0, at, p, s) && p in s.procs && s.procs[p].Swap?
    requires Exact(s.db.attached, j.cid, live)
    ensures Stands(j, s0, at, p, Step(j, s, p, live))
  {
    SwapFacts(j, s, live);
    assert Willing(j, s0, at) && j.mode.Replace?;
    hide Inv, SwapTx, Exact, RowsOf, KeysMeet, EnsureTx, AppendTx, CleanupStagingTx, DropTable;
  }

  /** A pass that finds staging attached has nothing to do. */
  lemma CheckPhase(j: Job, s0: State, at: Pc, p: nat, s: State, live: Option<TableName>)
    requires p in s.procs && s.procs[p].CheckSwapped? && At(j, s0, at, s, CheckSwapped) && CheckMeets(j, s, live)
    ensures Stands(j, s0, at, p, Step(j, s, p, live))
  {
    hide CanEnsure, Clash, Refused, SwapTx, EnsureTx, AppendTx, CleanupStagingTx, DropTable;
  }

  lemma ReconcilePhase(j: Job, s0: State, at: Pc, p: nat, s: State, live: Option<TableName>)
    requires p in s.procs && s.procs[p].ReconcileCheck? && At(j, s0, at, s, s.procs[p]) && CheckMeets(j, s, live)
    ensures Stands(j, s0, at, p, Step(j, s, p, live))
  {
    hide CanEnsure, Clash, SwapTx, EnsureTx, AppendTx, CleanupStagingTx, DropTable;
  }

  predicate CheckMeets(j: Job, s: State, live: Option<TableName>)
  {
    && (live == Some(j.staging) ==> Attached(j, s))
    && (Attached(j, s) ==> s.committed && j.mode.Replace? && j.staged != {} && j.staging in s.db.tables)
  }

  lemma AttachedFacts(j: Job, s: State, live: Option<TableName>)
    requires Inv(j, s) && Exact(s.db.attached, j.cid, live)
    ensures CheckMeets(j, s, live)
  {
    hide RowsOf, NoCollapse;
  }

  /** Ensuring the partition, as an append pass meets it. */
  predicate EnsureMeets(j: Job, d: Db, live: Option<TableName>)
  {
    match EnsureTx(d, j.cid, live, j.canonical)
    case None => !CanEnsure(j, d)
    case Some(d') =>
      && CanEnsure(j, d) && RowsOf(d', j.cid) == RowsOf(d, j.cid) && j.cid in d'.attached.Values
      && (j.staging in d'.tables <==> j.staging in d.tables)
  }

  lemma EnsureFacts(j: Job, d: Db, live: Option<TableName>)
    requires j.WellFormed() && Valid(d) && Exact(d.attached, j.cid, live)
    ensures EnsureMeets(j, d, live)
  {
    EnsureRefines(d, j.cid, live, j.canonical);
    EnsureOutcome(d, j.cid, live, j.canonical);
    hide EnsureTx, Valid, Live, Exact;
    match EnsureTx(d, j.cid, live, j.canonical)
    case None =>
    case Some(d') => SameLive(d, d', j.cid);
  }

  lemma EnsureFound(j: Job, s: State, live: Option<TableName>)
    requires Inv(j, s) && Exact(s.db.attached, j.cid, live)
    ensures EnsureMeets(j, s.db, live)
  {
    hide EnsureMeets, Valid, Exact, RowsOf;
    EnsureFacts(j, s.db, live);
  }

  lemma EnsurePhase(j: Job, s0: State, at: Pc, p: nat, s: State, live: Option<TableName>)
    requires p in s.procs && s.procs[p] == Ensure && At(j, s0, at, s, Ensure) && EnsureMeets(j, s.db, live)
    ensures Stands(j, s0, at, p, Step(j, s, p, live))
  {
    hide EnsureTx, RowsOf, CanEnsure, Clash, SwapTx, AppendTx, CleanupStagingTx, DropTable;
  }

  lemma EnsureAfterPhase(j: Job, s0: State, at: Pc, p: nat, s: State, live: Option<TableName>)
    requires p in s.procs && s.procs[p] == EnsureAfter && At(j, s0, at, s, EnsureAfter) && EnsureMeets(j, s.db, live)
    ensures Stands(j, s0, at, p, Step(j, s, p, live))
  {
    assert CanEnsure(j, s.db);
    hide EnsureTx, RowsOf, CanEnsure, Clash, SwapTx, AppendTx, CleanupStagingTx, DropTable;
  }

  lemma InsertFacts(j: Job, d: Db)
    requires Valid(d) && AllOf(j.staged, j.cid) && j.staging in d.tables && d.tables[j.staging] == j.staged
    ensures AppendTx(d, j.staging).None? <==> Clash(j, d)
  {
    AppendRefines(d, j.cid, j.staging);
  }

  lemma InsertPhase(j: Job, s0: State, at: Pc, p: nat, s: State, live: Option<TableName>)
    requires p in s.procs && At(j, s0, at, s, s.procs[p])
    requires s.procs[p] == Insert || s.procs[p] == InsertAgain
    requires AppendTx(s.db, j.staging).None? <==> Clash(j, s0.db)
    ensures Stands(j, s0, at, p, Step(j, s, p, live))
  {
    hide AppendTx, RowsOf, CanEnsure, Clash, EnsureTx, SwapTx, CleanupStagingTx, DropTable;
  }

  lemma InsertMeets(j: Job, s0: State, at: Pc, p: nat, s: State)
    requires Inv(j, s) && p in s.procs && At(j, s0, at, s, s.procs[p])
    requires s.procs[p] == Insert || s.procs[p] == InsertAgain
    ensures AppendTx(s.db, j.staging).None? <==> Clash(j, s0.db)
  {
    hide AppendTx, Valid, RowsOf, CanEnsure, KeysMeet;
    InsertFacts(j, s.db);
  }

  lemma AbandonPhase(j: Job, s0: State, at: Pc, p: nat, s: State, live: Option<TableName>)
    requires p in s.procs && s.procs[p] == Abandon && Ready(j, s0, at, s) && Clash(j, s0.db)
    requires var d := CleanupStagingTx(s.db, j.staging);
             RowsOf(d, j.cid) == RowsOf(s.db, j.cid) && d.attached == s.db.attached && j.staging !in d.tables
    ensures Stands(j, s0, at, p, Step(j, s, p, live))
  {
    hide RowsOf, CanEnsure, Clash, Willing, EnsureTx, SwapTx, AppendTx, CleanupStagingTx, DropTable;
  }

  lemma AbandonMeets(j: Job, s: State)
    requires Inv(j, s) && j.mode.Append?
    ensures var d := CleanupStagingTx(s.db, j.staging);
            RowsOf(d, j.cid) == RowsOf(s.db, j.cid) && d.attached == s.db.attached && j.staging !in d.tables
  {
    CleanupStagingRefines(s.db, j.cid, j.staging);
  }

  lemma AbandonStands(j: Job, s0: State, at: Pc, p: nat, s: State, live: Option<TableName>)
    requires Inv(j, s) && p in s.procs && s.procs[p] == Abandon && At(j, s0, at, s, Abandon)
    ensures Stands(j, s0, at, p, Step(j, s, p, live))
  {
    assert Ready(j, s0, at, s) && Clash(j, s0.db) && j.mode.Append?;
    hide *;
    AbandonMeets(j, s);
    AbandonPhase(j, s0, at, p, s, live);
  }

  lemma DropPhase(j: Job, s0: State, at: Pc, p: nat, s: State, live: Option<TableName>)
    requires p in s.procs && At(j, s0, at, s, s.procs[p])
    requires s.procs[p] in {DropCancelled, DropEmpty, DropAppended, ReconcileDrop}
    ensures Stands(j, s0, at, p, Step(j, s, p, live))
  {
    hide KeysMeet, CanEnsure, Clash;
  }

  /** The steps that only read. */
  lemma WalkPhase(j: Job, s0: State, at: Pc, p: nat, s: State, live: Option<TableName>)
    requires Inv(j, s0) && Inv(j, s) && Phase(j, s0, at, p, s) && p in s.procs
    requires s.procs[p] in {Begin, CountStaged, Promote, ReconcileBegin}
    ensures Stands(j, s0, at, p, Step(j, s, p, live))
  {
    hide Valid, RowsOf, NoCollapse, KeysMeet, CanEnsure, Clash, EnsureTx, SwapTx, AppendTx, CleanupStagingTx, DropTable;
  }

  /** One step of the pass. */
  lemma PhaseStep(j: Job, s0: State, at: Pc, p: nat, s: State, live: Option<TableName>)
    requires Inv(j, s0) && Inv(j, s) && Phase(j, s0, at, p, s) && p in s.procs
    requires Exact(s.db.attached, j.cid, live)
    ensures Phase(j, s0, at, p, Step(j, s, p, live))
  {
    AloneProcs(j, s, p, live);
    var pc := s.procs[p];
    hide Step, At, Ended, Inv, Exact;
    assert At(j, s0, at, s, pc);
    assert Phase(j, s0, at, p, Step(j, s, p, live)) <==> Stands(j, s0, at, p, Step(j, s, p, live));
    hide *;
    match pc
    case Swap => SwapPhase(j, s0, at, p, s, live);
    case Ensure => EnsureFound(j, s, live); EnsurePhase(j, s0, at, p, s, live);
    case Insert => InsertMeets(j, s0, at, p, s); InsertPhase(j, s0, at, p, s, live);
    case InsertAgain => InsertMeets(j, s0, at, p, s); InsertPhase(j, s0, at, p, s, live);
    case Abandon => AbandonStands(j, s0, at, p, s, live);
    case EnsureAfter => EnsureFound(j, s, live); EnsureAfterPhase(j, s0, at, p, s, live);
    case CheckSwapped => AttachedFacts(j, s, live); CheckPhase(j, s0, at, p, s, live);
    case ReconcileCheck(_) => AttachedFacts(j, s, live); ReconcilePhase(j, s0, at, p, s, live);
    case DropCancelled => DropPhase(j, s0, at, p, s, live);
    case DropEmpty => DropPhase(j, s0, at, p, s, live);
    case DropAppended => DropPhase(j, s0, at, p, s, live);
    case ReconcileDrop => DropPhase(j, s0, at, p, s, live);
    case _ => WalkPhase(j, s0, at, p, s, live);
  }

  // ---------- the pass as a run ----------

  /** The states before the pass never dropped the live partition, and the pass does not begin with
      a cancelled job whose staging table is that partition. */
  ghost predicate Sound(j: Job, states: seq<State>, acts: seq<Action>, n: nat, at: Pc)
    requires n <= |acts| < |states|
  {
    InTimeUntil(j, states, acts, n) && !(Attached(j, states[n]) && Refused(states[n], at))
  }

  /** After k actions of the pass. */
  lemma {:induction false} AlonePhase(j: Job, states: seq<State>, acts: seq<Action>, n: nat, p: nat, at: Pc, k: nat)
    requires Alone(states, acts, n, p, at) && Run(j, states, acts) && Sound(j, states, acts, n, at)
    requires n < k <= |acts|
    ensures Phase(j, states[n], at, p, states[k]) && k + RankIn(states[k], p) <= n + 9
    ensures InTimeUntil(j, states, acts, k)
  {
    hide Phase, Inv, RankIn, Exact, ResolvesTo, Refused;
    RunKeepsInv(j, states, acts, n);
    if k == n + 1 {
      assert Next(j, states[n], acts[n], states[n + 1]);
      StartsPhase(j, states[n], at, p, states[k]);
      StartsRank(states[n], at, p);
      assert !DropsLivePartition(j, states[n], acts[n]);
    } else {
      AlonePhase(j, states, acts, n, p, at, k - 1);
      RunKeepsInv(j, states, acts, k - 1);
      assert Next(j, states[k - 1], acts[k - 1], states[k]);
      var live := acts[k - 1].live;
      ResolverExactness(states[k - 1].db.attached, j.cid);
      InvNoCollapse(j, states[k - 1]);
      PhaseStep(j, states[n], at, p, states[k - 1], live);
      RankFalls(j, states[k - 1], p, live);
      NoLateDrop(j, states[n], at, p, states[k - 1], live);
    }
  }

  lemma NoLateDrop(j: Job, s0: State, at: Pc, p: nat, s: State, live: Option<TableName>)
    requires Phase(j, s0, at, p, s) && !(Attached(j, s0) && Refused(s0, at))
    ensures !DropsLivePartition(j, s, Advance(p, live))
  {
  }

  lemma StartsRank(s: State, at: Pc, p: nat)
    ensures RankIn(Goto(s, p, at), p) <= 8
  {
  }

  lemma InvNoCollapse(j: Job, s: State)
    requires Inv(j, s)
    ensures NoCollapse(s.db.attached, j.cid)
  {
  }

  /** The resolver always answers. */
  lemma ResolverAnswers(attached: map<TableName, CollectionId>, cid: CollectionId) returns (live: Option<TableName>)
    ensures ResolvesTo(attached, cid, live)
  {
    if n :| n in attached && BoundLiteral(attached[n]) == BoundLiteral(cid) {
      live := Some(n);
    } else {
      live := None;
    }
  }

  lemma CanGoOn(j: Job, s: State, p: nat) returns (live: Option<TableName>, s': State)
    requires p in s.procs
    ensures Next(j, s, Advance(p, live), s') && RankIn(s', p) < RankIn(s, p)
  {
    live := ResolverAnswers(s.db.attached, j.cid);
    s' := Step(j, s, p, live);
    RankFalls(j, s, p, live);
    hide Step, ResolvesTo, RankIn;
  }

  /** A pass that is left alone ends after at most eight steps, whatever happened before it. It
      commits the import exactly when no earlier pass did, the staging table still exists and holds
      rows, the worker does not find the job cancelled, and, for an append, the partition exists or
      can be created and no staged key is taken. Staging is afterwards the live partition (replace),
      gone (append), or, when the partition could not be created, still there. */
  lemma LonePassEnds(j: Job, states: seq<State>, acts: seq<Action>, n: nat, p: nat, at: Pc)
    requires Alone(states, acts, n, p, at) && Run(j, states, acts) && Sound(j, states, acts, n, at)
    ensures |acts| <= n + 9
    ensures p in states[|acts|].procs ==> exists live, s' :: Next(j, states[|acts|], Advance(p, live), s')
    ensures p !in states[|acts|].procs ==>
              var s0, s := states[n], states[|acts|];
              var cancelled := at == Begin && s0.cancelled;
              var canEnsure := j.cid in s0.db.attached.Values || j.canonical !in s0.db.tables;
              && s.procs == map[]
              && (s.committed <==>
                    (s0.committed
                     || (j.staging in s0.db.tables && j.staged != {} && !cancelled
                         && (j.mode == Append ==> canEnsure && !KeysMeet(j.staged, RowsOf(s0.db, j.cid))))))
              && RowsOf(s.db, j.cid) == (if !s.committed then j.pre
                                         else if j.mode == Replace then j.staged else j.pre + j.staged)
              && (j.staging in s.db.attached <==> s.committed && j.mode == Replace)
              && (j.staging in s.db.attached ==> s.db.attached[j.staging] == j.cid)
              && (j.staging in s.db.tables <==>
                    (j.staging in s0.db.tables && !cancelled
                     && (if j.staged == {} then at == Begin else j.mode == Append ==> !canEnsure)))
  {
    AlonePhase(j, states, acts, n, p, at, |acts|);
    RunKeepsInv(j, states, acts, |acts|);
    var s := states[|acts|];
    if p in s.procs {
      var live, s' := CanGoOn(j, s, p);
    } else {
      hide Valid, RowsOf, NoCollapse, KeysMeet, Run, Sound, Alone, Next;
    }
  }

  /** The first pass over a finished load, in the plain case: not cancelled and something staged. */
  lemma FirstPassImports(j: Job, states: seq<State>, acts: seq<Action>, p: nat, at: Pc)
    requires Run(j, states, acts) && Alone(states, acts, 0, p, at)
    requires !states[0].cancelled && j.staged != {} && p !in states[|acts|].procs
    ensures var s := states[|acts|];
            var imported := CanPromote(states[0].db, j.cid, j.staging, j.mode, j.canonical);
            && s.procs == map[] && s.committed == imported
            && RowsOf(s.db, j.cid) == (if imported then j.Post() else j.pre)
            && (imported && j.mode == Append ==> j.staging !in s.db.tables)
            && (imported && j.mode == Replace ==> j.staging in s.db.attached && s.db.attached[j.staging] == j.cid)
  {
    LonePassEnds(j, states, acts, 0, p, at);
    hide Run, Next, Alone, RowsOf, KeysMeet;
  }

  /** A run with no process left extends by a pass that ends. */
  lemma LonePassExists(j: Job, states: seq<State>, acts: seq<Action>, p: nat, at: Pc)
    returns (states': seq<State>, acts': seq<Action>)
    requires Run(j, states, acts) && states[|acts|].procs == map[] && at in {Begin, ReconcileBegin, Promote}
    ensures Run(j, states', acts') && acts <= acts' && states <= states'
    ensures Alone(states', acts', |acts|, p, at) && p !in states'[|acts'|].procs
  {
    var s := Goto(states[|acts|], p, at);
    AppendRun(j, states, acts, Start(p, at), s);
    states', acts' := states + [s], acts + [Start(p, at)];
    hide Run, Next;
    while p in states'[|acts'|].procs
      invariant Alone(states', acts', |acts|, p, at) && Run(j, states', acts') && acts <= acts' && states <= states'
      decreases RankIn(states'[|acts'|], p)
    {
      var live, s' := CanGoOn(j, states'[|acts'|], p);
      AppendRun(j, states', acts', Advance(p, live), s');
      states', acts' := states' + [s'], acts' + [Advance(p, live)];
    }
  }

  lemma AppendRun(j: Job, states: seq<State>, acts: seq<Action>, a: Action, s: State)
    requires Run(j, states, acts) && Next(j, states[|acts|], a, s)
    ensures Run(j, states + [s], acts + [a])
  {
    var states', acts' := states + [s], acts + [a];
    hide Next, Init;
    forall i | 0 <= i < |acts'| ensures Next(j, states'[i], acts'[i], states'[i + 1]) {
      if i < |acts| {
        assert Next(j, states[i], acts[i], states[i + 1]);
      }
    }
  }
}
