/** The in-process gate in front of heavy database reads. Its critical sections contain no await, so
    each is one atomic step; between them callers may arrive, leave, time out or be cancelled. */
module LoadGate {
  import opened Wrappers

  // ---------- the gate ----------

  /** `waiters` is the deque of events, left end first; an event is named by its caller. */
  datatype Gate = Gate(active: int, waiters: seq<nat>)

  /** A place at once, or a place at the left end of the deque. */
  function Enter(g: Gate, ev: nat, max: int): (bool, Gate)
  {
    if g.active < max then (true, g.(active := g.active + 1)) else (false, g.(waiters := [ev] + g.waiters))
  }

  function Clamped(n: int): int
  {
    if n > 0 then n else 0
  }

  /** The freed place is not handed over: the leftmost waiter is only woken. */
  function Release(g: Gate): (Option<nat>, Gate)
  {
    if g.waiters == [] then (None, Gate(Clamped(g.active - 1), []))
    else (Some(g.waiters[0]), Gate(Clamped(g.active - 1), g.waiters[1..]))
  }

  function Reenter(g: Gate): Gate
  {
    g.(active := g.active + 1)
  }

  /** deque.remove: the first occurrence, if any. */
  function Without(s: seq<nat>, ev: nat): seq<nat>
  {
    if s == [] then [] else if s[0] == ev then s[1..] else [s[0]] + Without(s[1..], ev)
  }

  function Remove(g: Gate, ev: nat): Gate
  {
    g.(waiters := Without(g.waiters, ev))
  }

  class SharedGate {
    var active: int
    var waiters: seq<nat>

    function Contents(): Gate
      reads this
    {
      Gate(active, waiters)
    }

    constructor ()
      ensures Contents() == Gate(0, [])
    {
      active, waiters := 0, [];
    }

    method TryEnter(ev: nat, max: int) returns (entered: bool)
      modifies this
      ensures (entered, Contents()) == Enter(old(Contents()), ev, max)
    {
      if active < max {
        active := active + 1;
        entered := true;
      } else {
        entered := false;
        waiters := [ev] + waiters;
      }
    }

    method Leave() returns (woken: Option<nat>)
      modifies this
      ensures (woken, Contents()) == Release(old(Contents()))
    {
      active := Clamped(active - 1);
      woken := None;
      if waiters != [] {
        woken := Some(waiters[0]);
        waiters := waiters[1..];
      }
    }

    method Resume()
      modifies this`active
      ensures Contents() == Reenter(old(Contents()))
    {
      active := active + 1;
    }

    method GiveUp(ev: nat)
      modifies this`waiters
      ensures Contents() == Remove(old(Contents()), ev)
    {
      waiters := Without(waiters, ev);
    }
  }

  // ---------- callers ----------

  /** Where a caller stands: past a switched-off gate; running after entering at once; in the deque;
      woken but not yet counted; running after a wait. */
  datatype Phase = Ungated | Fast | Queued | Woken | Resumed

  datatype Action = Arrive | Leave(who: nat) | Resume(who: nat) | TimeOut(who: nat) | Disconnect(who: nat)

  /** Callers are numbered in order of arrival. `lost` counts the wakeups whose caller was cancelled
      before using them; `barges` the newcomers let in although the places still free were already
      promised to woken callers. */
  datatype State = State(gate: Gate, callers: map<nat, Phase>, next: nat, lost: nat, barges: nat)

  const IDLE := State(Gate(0, []), map[], 0, 0, 0)

  function In(callers: map<nat, Phase>, p: Phase): set<nat>
  {
    set c | c in callers && callers[c] == p
  }

  function Count(callers: map<nat, Phase>, p: Phase): nat
  {
    |In(callers, p)|
  }

  function Arrived(s: State, max: int): State
  {
    if max <= 0 then s.(callers := s.callers[s.next := Ungated], next := s.next + 1)
    else
      var (entered, gate) := Enter(s.gate, s.next, max);
      var promised := s.gate.active + Count(s.callers, Woken) >= max;
      State(gate, s.callers[s.next := if entered then Fast else Queued], s.next + 1, s.lost,
            if entered && promised then s.barges + 1 else s.barges)
  }

  function Left(s: State, who: nat): State
  {
    var (woken, gate) := Release(s.gate);
    var callers := s.callers - {who};
    s.(gate := gate, callers := if woken.Some? then callers[woken.value := Woken] else callers)
  }

  /** None: the action cannot happen in this state. The deadline is looked at only while the event is
      not set, and nothing is awaited between that look and the removal, so only a queued caller times
      out; a disconnect or cancellation may also hit a woken one. */
  function Step(s: State, a: Action, max: int): Option<State>
  {
    match a
    case Arrive => Some(Arrived(s, max))
    case Leave(who) =>
      if who !in s.callers then None
      else if s.callers[who] == Ungated then Some(s.(callers := s.callers - {who}))
      else if s.callers[who] == Fast || s.callers[who] == Resumed then Some(Left(s, who))
      else None
    case Resume(who) =>
      if who in s.callers && s.callers[who] == Woken
      then Some(s.(gate := Reenter(s.gate), callers := s.callers[who := Resumed]))
      else None
    case TimeOut(who) =>
      if who in s.callers && s.callers[who] == Queued
      then Some(s.(gate := Remove(s.gate, who), callers := s.callers - {who}))
      else None
    case Disconnect(who) =>
      if who in s.callers && (s.callers[who] == Queued || s.callers[who] == Woken)
      then Some(s.(gate := Remove(s.gate, who), callers := s.callers - {who},
                   lost := if s.callers[who] == Woken then s.lost + 1 else s.lost))
      else None
  }

  /** The state after a run from the idle gate, if every action of it can happen. */
  function Run(run: seq<Action>, max: int): Option<State>
  {
    if run == [] then Some(IDLE)
    else
      match Run(run[..|run| - 1], max)
      case None => None
      case Some(s) => Step(s, run[|run| - 1], max)
  }

  // ---------- counting ----------

  lemma CountAdd(callers: map<nat, Phase>, c: nat, p: Phase, q: Phase)
    requires c !in callers
    ensures Count(callers[c := p], q) == Count(callers, q) + if p == q then 1 else 0
  {
    assert In(callers[c := p], q) == In(callers, q) + if p == q then {c} else {};
  }

  lemma CountRemove(callers: map<nat, Phase>, c: nat, q: Phase)
    requires c in callers
    ensures Count(callers, q) == Count(callers - {c}, q) + if callers[c] == q then 1 else 0
  {
    assert In(callers, q) == In(callers - {c}, q) + if callers[c] == q then {c} else {};
  }

  lemma CountMove(callers: map<nat, Phase>, c: nat, p: Phase, q: Phase)
    requires c in callers
    ensures Count(callers[c := p], q) + (if callers[c] == q then 1 else 0) ==
            Count(callers, q) + if p == q then 1 else 0
  {
    CountRemove(callers, c, q);
    CountAdd(callers - {c}, c, p, q);
    assert (callers - {c})[c := p] == callers[c := p];
  }

  // ---------- the invariant ----------

  predicate Descending(s: seq<nat>)
  {
    forall i, j | 0 <= i < j < |s| :: s[i] > s[j]
  }

  /** The deque holds every caller that waits unwoken, once, the latest arrival first. */
  predicate QueueOk(s: State)
  {
    && Descending(s.gate.waiters)
    && (forall c | c in s.gate.waiters :: c in s.callers && s.callers[c] == Queued)
    && (forall c | c in s.callers && s.callers[c] == Queued :: c in s.gate.waiters)
  }

  predicate CountsOk(s: State, max: int)
  {
    var fast, resumed, woken := Count(s.callers, Fast), Count(s.callers, Resumed), Count(s.callers, Woken);
    && s.gate.active == fast + resumed
    && (s.gate.waiters != [] ==> s.gate.active + woken + s.lost >= max)
    && fast <= Clamped(max)
    && s.gate.active + woken <= Clamped(max) + s.barges
  }

  predicate Inv(s: State, max: int)
  {
    && (forall c | c in s.callers :: c < s.next)
    && (max <= 0 ==> forall c | c in s.callers :: s.callers[c] == Ungated)
    && (max > 0 ==> forall c | c in s.callers :: s.callers[c] != Ungated)
    && QueueOk(s)
    && CountsOk(s, max)
  }

  lemma {:induction false} WithoutMembers(s: seq<nat>, ev: nat)
    requires Descending(s)
    ensures Descending(Without(s, ev))
    ensures forall c :: c in Without(s, ev) <==> c in s && c != ev
    ensures Without(s, ev) != [] ==> s != []
  {
    if s != [] {
      var rest := s[1..];
      assert s == [s[0]] + rest;
      assert Descending(rest) by {
        forall i, j | 0 <= i < j < |rest| ensures rest[i] > rest[j] {
          assert s[i + 1] > s[j + 1];
        }
      }
      WithoutMembers(rest, ev);
      forall c | c in rest ensures c < s[0] {
        var j :| 0 <= j < |rest| && rest[j] == c;
        assert s[j + 1] == c && s[0] > s[j + 1];
      }
      if s[0] != ev {
        var w := Without(rest, ev);
        forall i, j | 0 <= i < j < |w| + 1 ensures ([s[0]] + w)[i] > ([s[0]] + w)[j] {
          assert w[j - 1] in w;
        }
      }
    }
  }

  lemma ArriveKeeps(s: State, max: int)
    requires Inv(s, max)
    ensures Inv(Arrived(s, max), max)
  {
    var t := Arrived(s, max);
    var p := t.callers[s.next];
    forall q: Phase ensures Count(t.callers, q) == Count(s.callers, q) + if p == q then 1 else 0 {
      CountAdd(s.callers, s.next, p, q);
    }
    assert CountsOk(t, max);
    if p == Queued {
      forall i, j | 0 <= i < j < |t.gate.waiters| ensures t.gate.waiters[i] > t.gate.waiters[j] {
        assert t.gate.waiters[j] == s.gate.waiters[j - 1] && s.gate.waiters[j - 1] in s.gate.waiters;
      }
      assert t.gate.waiters[0] == s.next;
      forall c | c in t.gate.waiters ensures c in t.callers && t.callers[c] == Queued {
        assert c == s.next || c in s.gate.waiters;
      }
    }
    assert QueueOk(t);
  }

  lemma LeftCounts(s: State, who: nat, max: int)
    requires Inv(s, max) && who in s.callers && (s.callers[who] == Fast || s.callers[who] == Resumed)
    ensures CountsOk(Left(s, who), max)
    ensures Left(s, who).gate.active == s.gate.active - 1
    ensures Count(Left(s, who).callers, Woken) == Count(s.callers, Woken) + if s.gate.waiters == [] then 0 else 1
    ensures Count(Left(s, who).callers, Fast) == Count(s.callers, Fast) - if s.callers[who] == Fast then 1 else 0
  {
    var t := Left(s, who);
    var callers := s.callers - {who};
    forall q: Phase ensures Count(s.callers, q) == Count(callers, q) + if s.callers[who] == q then 1 else 0 {
      CountRemove(s.callers, who, q);
    }
    if s.gate.waiters != [] {
      var w := s.gate.waiters[0];
      assert w in s.gate.waiters && w in callers && callers[w] == Queued;
      forall q: Phase
        ensures Count(t.callers, q) + (if q == Queued then 1 else 0) == Count(callers, q) + if q == Woken then 1 else 0
      {
        CountMove(callers, w, Woken, q);
      }
    }
  }

  lemma LeftQueue(s: State, who: nat, max: int)
    requires Inv(s, max) && who in s.callers && (s.callers[who] == Fast || s.callers[who] == Resumed)
    ensures QueueOk(Left(s, who))
  {
    var t := Left(s, who);
    if s.gate.waiters != [] {
      var w, rest := s.gate.waiters[0], s.gate.waiters[1..];
      assert s.gate.waiters == [w] + rest;
      forall i, j | 0 <= i < j < |rest| ensures rest[i] > rest[j] {
        assert s.gate.waiters[i + 1] > s.gate.waiters[j + 1];
      }
      forall c | c in rest ensures c in t.callers && t.callers[c] == Queued {
        var j :| 0 <= j < |rest| && rest[j] == c;
        assert s.gate.waiters[0] > s.gate.waiters[j + 1];
        assert c in s.gate.waiters;
      }
    }
  }

  lemma ResumeKeeps(s: State, who: nat, max: int)
    requires Inv(s, max) && who in s.callers && s.callers[who] == Woken
    ensures Inv(Step(s, Resume(who), max).value, max)
    ensures Count(Step(s, Resume(who), max).value.callers, Woken) == Count(s.callers, Woken) - 1
  {
    var t := Step(s, Resume(who), max).value;
    CountMove(s.callers, who, Resumed, Fast);
    CountMove(s.callers, who, Resumed, Resumed);
    CountMove(s.callers, who, Resumed, Woken);
    assert QueueOk(t);
  }

  lemma RemoveKeeps(s: State, who: nat, lost: nat, max: int)
    requires Inv(s, max) && who in s.callers && (s.callers[who] == Queued || s.callers[who] == Woken)
    requires lost == if s.callers[who] == Woken then s.lost + 1 else s.lost
    ensures Inv(s.(gate := Remove(s.gate, who), callers := s.callers - {who}, lost := lost), max)
  {
    var t := s.(gate := Remove(s.gate, who), callers := s.callers - {who}, lost := lost);
    CountRemove(s.callers, who, Fast);
    CountRemove(s.callers, who, Resumed);
    CountRemove(s.callers, who, Woken);
    WithoutMembers(s.gate.waiters, who);
    assert CountsOk(t, max);
    assert QueueOk(t);
  }

  lemma StepKeepsInv(s: State, a: Action, max: int)
    requires Inv(s, max) && Step(s, a, max).Some?
    ensures Inv(Step(s, a, max).value, max)
  {
    match a
    case Arrive => ArriveKeeps(s, max);
    case Leave(who) =>
      if s.callers[who] == Ungated {
        CountRemove(s.callers, who, Fast);
        CountRemove(s.callers, who, Resumed);
        CountRemove(s.callers, who, Woken);
      } else {
        LeftCounts(s, who, max);
        LeftQueue(s, who, max);
        assert s.gate.waiters != [] ==> s.gate.waiters[0] in s.gate.waiters;
      }
    case Resume(who) => ResumeKeeps(s, who, max);
    case TimeOut(who) => RemoveKeeps(s, who, s.lost, max);
    case Disconnect(who) => RemoveKeeps(s, who, if s.callers[who] == Woken then s.lost + 1 else s.lost, max);
  }

  /** Every run keeps the invariant, for every setting of the limit. */
  lemma {:induction false} RunKeepsInv(run: seq<Action>, max: int)
    requires Run(run, max).Some?
    ensures Inv(Run(run, max).value, max)
  {
    if run != [] {
      var before := run[..|run| - 1];
      RunKeepsInv(before, max);
      StepKeepsInv(Run(before, max).value, run[|run| - 1], max);
    } else {
      assert In(map[], Fast) == In(map[], Resumed) == In(map[], Woken) == {};
    }
  }

  // ---------- what follows for every run ----------

  /** The callers inside the gated function. */
  function Inside(s: State): set<nat>
  {
    set c | c in s.callers && (s.callers[c] == Fast || s.callers[c] == Resumed)
  }

  lemma InsideCount(s: State)
    ensures |Inside(s)| == Count(s.callers, Fast) + Count(s.callers, Resumed)
  {
    assert Inside(s) == In(s.callers, Fast) + In(s.callers, Resumed);
  }

  /** `active` counts exactly the callers inside, so the clamp at zero never fires. */
  lemma ActiveIsExact(run: seq<Action>, max: int)
    requires Run(run, max).Some?
    ensures var s := Run(run, max).value;
            && s.gate.active == |Inside(s)|
            && forall c | c in Inside(s) :: Clamped(s.gate.active - 1) == s.gate.active - 1
  {
    RunKeepsInv(run, max);
    hide Run, QueueOk;
    var s := Run(run, max).value;
    InsideCount(s);
    forall c | c in Inside(s) ensures s.gate.active >= 1 {
      assert |Inside(s)| == |Inside(s) - {c}| + 1;
    }
  }

  lemma RunStep(run: seq<Action>, a: Action, max: int)
    requires Run(run, max).Some?
    ensures Run(run + [a], max) == Step(Run(run, max).value, a, max)
  {
    assert (run + [a])[..|run|] == run;
  }

  /** When each action can happen: a time-out only to a caller whose event is not set, a disconnect
      to any that waits, a resumption to a woken one, a return to one that is past the gate. */
  lemma EnabledExactly(run: seq<Action>, who: nat, max: int)
    requires Run(run, max).Some?
    ensures var callers := Run(run, max).value.callers;
            && (Run(run + [TimeOut(who)], max).Some? <==> who in In(callers, Queued))
            && (Run(run + [Disconnect(who)], max).Some? <==> who in In(callers, Queued) + In(callers, Woken))
            && (Run(run + [Resume(who)], max).Some? <==> who in In(callers, Woken))
            && (Run(run + [Leave(who)], max).Some? <==>
                  who in In(callers, Ungated) + In(callers, Fast) + In(callers, Resumed))
            && Run(run + [Arrive], max).Some?
  {
    hide Run, Left, Arrived, Remove, Reenter;
    RunStep(run, TimeOut(who), max);
    RunStep(run, Disconnect(who), max);
    RunStep(run, Resume(who), max);
    RunStep(run, Leave(who), max);
    RunStep(run, Arrive, max);
  }

  /** A caller that gave up is gone, from the deque too; nobody else is touched, and a wakeup is lost
      exactly when it had been woken. */
  lemma GiverUpIsGone(run: seq<Action>, a: Action, who: nat, max: int)
    requires a == TimeOut(who) || a == Disconnect(who)
    requires Run(run, max).Some? && Run(run + [a], max).Some?
    ensures var s, t := Run(run, max).value, Run(run + [a], max).value;
            && who in s.callers && t.callers == s.callers - {who} && t.gate.active == s.gate.active
            && (forall c :: c in t.gate.waiters <==> c in s.gate.waiters && c != who)
            && t.lost == s.lost + if s.callers[who] == Woken then 1 else 0
  {
    RunKeepsInv(run, max);
    RunStep(run, a, max);
    WithoutMembers(Run(run, max).value.gate.waiters, who);
    hide Run, CountsOk, Left, Arrived;
  }

  /** A freed place wakes the latest arrival that still waits, whenever anybody waits. */
  lemma NewestIsWoken(run: seq<Action>, who: nat, max: int)
    requires Run(run, max).Some?
    requires who in Run(run, max).value.callers
    requires Run(run, max).value.callers[who] == Fast || Run(run, max).value.callers[who] == Resumed
    ensures var s := Run(run, max).value;
            var woken := Release(s.gate).0;
            && (woken == None <==> In(s.callers, Queued) == {})
            && (woken.Some? ==> woken.value in In(s.callers, Queued))
            && (woken.Some? ==> forall c | c in In(s.callers, Queued) :: c <= woken.value)
  {
    RunKeepsInv(run, max);
    var s := Run(run, max).value;
    if s.gate.waiters != [] {
      var w := s.gate.waiters[0];
      assert w in s.gate.waiters && w in In(s.callers, Queued);
      forall c | c in In(s.callers, Queued) ensures c <= w {
        var j :| 0 <= j < |s.gate.waiters| && s.gate.waiters[j] == c;
        assert j == 0 || s.gate.waiters[0] > s.gate.waiters[j];
      }
    } else {
      assert In(s.callers, Queued) == {};
    }
  }

  /** While fewer wakeups were lost than the limit allows callers, nobody waits in front of a gate
      that no one will release: somebody is inside or about to enter. */
  lemma NeverStranded(run: seq<Action>, max: int)
    requires Run(run, max).Some? && Run(run, max).value.gate.waiters != [] && Run(run, max).value.lost < max
    ensures var s := Run(run, max).value; Inside(s) + In(s.callers, Woken) != {}
  {
    RunKeepsInv(run, max);
    ActiveIsExact(run, max);
  }

  /** No newcomer arrives while a wakeup is outstanding. */
  predicate Orderly(run: seq<Action>, max: int)
  {
    run == []
    || (var before := run[..|run| - 1];
        && Orderly(before, max)
        && (run[|run| - 1].Arrive? && Run(before, max).Some? ==> Count(Run(before, max).value.callers, Woken) == 0))
  }

  /** In an orderly run the limit is a hard cap, wakeups included. */
  lemma {:induction false} OrderlyRunsAreCapped(run: seq<Action>, max: int)
    requires Orderly(run, max) && Run(run, max).Some?
    ensures var s := Run(run, max).value;
            s.barges == 0 && |Inside(s)| + Count(s.callers, Woken) <= Clamped(max)
  {
    if run != [] {
      OrderlyRunsAreCapped(run[..|run| - 1], max);
    }
    RunKeepsInv(run, max);
    ActiveIsExact(run, max);
  }

  /** In any run the excess over the limit is at most the number of barges. */
  lemma ExcessIsBarges(run: seq<Action>, max: int)
    requires Run(run, max).Some?
    ensures var s := Run(run, max).value; |Inside(s)| + Count(s.callers, Woken) <= Clamped(max) + s.barges
  {
    RunKeepsInv(run, max);
    ActiveIsExact(run, max);
  }

  /** At every moment of the run, callers inside and woken ones together stay within the limit. */
  predicate AlwaysPromised(run: seq<Action>, max: int)
    requires Run(run, max).Some?
  {
    var s := Run(run, max).value;
    && |Inside(s)| + Count(s.callers, Woken) <= Clamped(max)
    && (run == [] || AlwaysPromised(run[..|run| - 1], max))
  }

  lemma ArriveBarges(s: State, max: int)
    requires Inv(s, max) && s.barges == 0
    ensures var t := Arrived(s, max);
            t.barges == 0 <==> t.gate.active + Count(t.callers, Woken) <= Clamped(max)
  {
    var t := Arrived(s, max);
    CountAdd(s.callers, s.next, t.callers[s.next], Woken);
  }

  lemma OnlyArrivalsBarge(s: State, a: Action, max: int)
    requires Step(s, a, max).Some? && !a.Arrive?
    ensures Step(s, a, max).value.barges == s.barges
  {
  }

  /** Exactly the runs without a barge keep within the limit, wakeups included. */
  lemma {:induction false} PromisedIffNoBarge(run: seq<Action>, max: int)
    requires Run(run, max).Some?
    ensures AlwaysPromised(run, max) <==> Run(run, max).value.barges == 0
  {
    RunKeepsInv(run, max);
    ActiveIsExact(run, max);
    if run != [] {
      var before, a := run[..|run| - 1], run[|run| - 1];
      PromisedIffNoBarge(before, max);
      RunKeepsInv(before, max);
      ActiveIsExact(before, max);
      var s := Run(before, max).value;
      if a.Arrive? {
        if s.barges == 0 {
          ArriveBarges(s, max);
        }
      } else {
        OnlyArrivalsBarge(s, a, max);
      }
    }
  }

  /** At every moment of the run, the callers inside stay within the limit. */
  predicate AlwaysCapped(run: seq<Action>, max: int)
    requires Run(run, max).Some?
  {
    |Inside(Run(run, max).value)| <= Clamped(max) && (run == [] || AlwaysCapped(run[..|run| - 1], max))
  }

  /** No woken caller counts itself in while the gate is full, which the code does not check. */
  predicate NoFullResume(run: seq<Action>, max: int)
    requires Run(run, max).Some?
  {
    run == []
    || (&& NoFullResume(run[..|run| - 1], max)
        && (run[|run| - 1].Resume? ==> Run(run[..|run| - 1], max).value.gate.active < max))
  }

  lemma StepActive(s: State, a: Action, max: int)
    requires Inv(s, max) && Step(s, a, max).Some? && s.gate.active <= Clamped(max)
    ensures Step(s, a, max).value.gate.active <= Clamped(max) <==> !(a.Resume? && s.gate.active >= max)
  {
    match a
    case Leave(who) =>
      if s.callers[who] != Ungated {
        LeftCounts(s, who, max);
      }
    case _ =>
  }

  /** The limit is a hard cap in exactly the runs in which no woken caller resumes at a full gate. */
  lemma {:induction false} CappedIffNoFullResume(run: seq<Action>, max: int)
    requires Run(run, max).Some?
    ensures AlwaysCapped(run, max) <==> NoFullResume(run, max)
  {
    RunKeepsInv(run, max);
    ActiveIsExact(run, max);
    if run != [] {
      var before := run[..|run| - 1];
      CappedIffNoFullResume(before, max);
      RunKeepsInv(before, max);
      ActiveIsExact(before, max);
      if AlwaysCapped(before, max) {
        StepActive(Run(before, max).value, run[|run| - 1], max);
      }
    }
  }

  // ---------- both bounds are reached ----------

  lemma Extend(run: seq<Action>, a: Action, max: int)
    requires Run(run, max).Some?
    ensures Run(run + [a], max) == Step(Run(run, max).value, a, max)
  {
    assert (run + [a])[..|run + [a]| - 1] == run;
  }

  /** max callers inside, n waiting, nothing else has happened. */
  lemma {:induction false} Crowd(max: nat, fast: nat, n: nat) returns (run: seq<Action>)
    requires max > 0 && fast <= max && (n > 0 ==> fast == max)
    ensures Run(run, max).Some?
    ensures var s := Run(run, max).value;
            && s.gate.active == Count(s.callers, Fast) == fast && |s.gate.waiters| == n
            && Count(s.callers, Woken) == s.lost == s.barges == 0
    decreases fast + n
  {
    if fast == 0 {
      run := [];
      assert In(map[], Fast) == In(map[], Woken) == {};
    } else {
      run := Crowd(max, if n == 0 then fast - 1 else fast, if n == 0 then 0 else n - 1);
      var s := Run(run, max).value;
      RunKeepsInv(run, max);
      Extend(run, Arrive, max);
      var p := Arrived(s, max).callers[s.next];
      CountAdd(s.callers, s.next, p, Fast);
      CountAdd(s.callers, s.next, p, Woken);
      run := run + [Arrive];
    }
  }

  lemma OneOf(callers: map<nat, Phase>, p: Phase) returns (c: nat)
    requires Count(callers, p) > 0
    ensures c in callers && callers[c] == p
  {
    assert In(callers, p) != {};
    c :| c in In(callers, p);
  }

  /** j times: a caller leaves, a waiter is woken, a newcomer takes the place first. */
  lemma {:induction false} BargeIn(max: nat, n: nat, j: nat) returns (run: seq<Action>)
    requires max > 0 && j <= n
    ensures Run(run, max).Some?
    ensures var s := Run(run, max).value;
            && s.gate.active == Count(s.callers, Fast) == max && |s.gate.waiters| == n - j
            && Count(s.callers, Woken) == s.barges == j
  {
    if j == 0 {
      run := Crowd(max, max, n);
    } else {
      run := BargeIn(max, n, j - 1);
      var s := Run(run, max).value;
      RunKeepsInv(run, max);
      var who := OneOf(s.callers, Fast);
      LeftCounts(s, who, max);
      Extend(run, Leave(who), max);
      run := run + [Leave(who)];
      RunKeepsInv(run, max);
      var t := Run(run, max).value;
      Extend(run, Arrive, max);
      CountAdd(t.callers, t.next, Fast, Fast);
      CountAdd(t.callers, t.next, Fast, Woken);
      run := run + [Arrive];
    }
  }

  /** The limit is no hard cap: for every limit and every k, k barges can put k callers too many
      inside. */
  lemma {:induction false} ExcessIsReached(max: nat, k: nat, j: nat) returns (run: seq<Action>)
    requires max > 0 && j <= k
    ensures Run(run, max).Some?
    ensures var s := Run(run, max).value;
            |Inside(s)| == max + j && Count(s.callers, Woken) == k - j && s.barges == k
  {
    if j == 0 {
      run := BargeIn(max, k, k);
    } else {
      run := ExcessIsReached(max, k, j - 1);
      var s := Run(run, max).value;
      RunKeepsInv(run, max);
      ActiveIsExact(run, max);
      var who := OneOf(s.callers, Woken);
      ResumeKeeps(s, who, max);
      Extend(run, Resume(who), max);
      run := run + [Resume(who)];
    }
    ActiveIsExact(run, max);
  }

  /** For every limit, that many lost wakeups can strand a waiter in front of an empty gate. */
  lemma {:induction false} Strand(max: nat, j: nat) returns (run: seq<Action>)
    requires max > 0 && j <= max
    ensures Run(run, max).Some?
    ensures var s := Run(run, max).value;
            && s.gate.active == Count(s.callers, Fast) == max - j && |s.gate.waiters| == max + 1 - j
            && s.lost == j && Count(s.callers, Woken) == 0
  {
    hide Inv, QueueOk, CountsOk, Run, Count;
    if j == 0 {
      run := Crowd(max, max, max + 1);
    } else {
      run := Strand(max, j - 1);
      var s := Run(run, max).value;
      RunKeepsInv(run, max);
      var who := OneOf(s.callers, Fast);
      LeftCounts(s, who, max);
      Extend(run, Leave(who), max);
      run := run + [Leave(who)];
      RunKeepsInv(run, max);
      var t := Run(run, max).value;
      var woken := OneOf(t.callers, Woken);
      Extend(run, Disconnect(woken), max);
      CountRemove(t.callers, woken, Fast);
      CountRemove(t.callers, woken, Woken);
      WokenIsOff(t, woken, max);
      run := run + [Disconnect(woken)];
    }
  }

  lemma WokenIsOff(s: State, who: nat, max: int)
    requires Inv(s, max) && who in s.callers && s.callers[who] == Woken
    ensures Remove(s.gate, who) == s.gate
  {
    WithoutAbsent(s.gate.waiters, who);
  }

  lemma {:induction false} WithoutAbsent(s: seq<nat>, ev: nat)
    requires ev !in s
    ensures Without(s, ev) == s
  {
    if s != [] {
      assert s[0] in s && forall c | c in s[1..] :: c in s;
      WithoutAbsent(s[1..], ev);
    }
  }

  lemma StrandedWaiter(max: nat) returns (run: seq<Action>)
    requires max > 0
    ensures Run(run, max).Some?
    ensures var s := Run(run, max).value;
            Inside(s) + In(s.callers, Woken) == {} && In(s.callers, Queued) != {} && s.lost == max
  {
    run := Strand(max, max);
    RunKeepsInv(run, max);
    ActiveIsExact(run, max);
    var s := Run(run, max).value;
    assert s.gate.waiters[0] in In(s.callers, Queued);
  }

  /** Callers wait, and nobody is inside or about to enter. */
  predicate Stranded(s: State)
  {
    In(s.callers, Queued) != {} && Inside(s) + In(s.callers, Woken) == {}
  }

  lemma StrandedLost(run: seq<Action>, max: int)
    requires Run(run, max).Some? && Stranded(Run(run, max).value)
    ensures 0 < max <= Run(run, max).value.lost
  {
    RunKeepsInv(run, max);
    var s := Run(run, max).value;
    var c :| c in In(s.callers, Queued);
    assert c in s.gate.waiters;
    if s.lost < max {
      NeverStranded(run, max);
    }
  }

  /** Runs that lose at most `losses` wakeups never strand a waiter exactly when fewer are lost than
      the limit admits callers (or the gate is switched off). */
  lemma StrandedIff(losses: nat, max: int)
    ensures (forall run | Run(run, max).Some? && Run(run, max).value.lost <= losses :: !Stranded(Run(run, max).value))
            <==> losses < max || max <= 0
  {
    if losses < max || max <= 0 {
      forall run | Run(run, max).Some? && Run(run, max).value.lost <= losses
        ensures !Stranded(Run(run, max).value)
      {
        if Stranded(Run(run, max).value) {
          StrandedLost(run, max);
        }
      }
    } else {
      var run := StrandedWaiter(max);
    }
  }
}
