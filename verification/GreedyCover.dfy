/** Greedy cover of an area of interest by scene footprints. Areas are finite sets of unit cells,
    so an area is a cardinality. */
module GreedyCover {
  import opened FiniteSets
  import opened Wrappers
  import opened Lexicographic

  datatype Cell = Cell(x: int, y: int)

  datatype Candidate = Candidate(key: string, cells: set<Cell>, cloud: Option<real>, time: Option<real>)

  datatype SortMode = LowestCloud | Newest

  /** The sort-mode key, compared as a pair. */
  datatype Tie = Tie(rank: real, key: string)

  function TieOf(c: Candidate, mode: SortMode): Tie
  {
    match mode
    case LowestCloud => Tie(if c.cloud.None? then 1000000000.0 else c.cloud.value, c.key)
    case Newest => Tie(if c.time.None? then -1000000000.0 else -c.time.value, c.key)
  }

  predicate TieLess(a: Tie, b: Tie)
  {
    a.rank < b.rank || (a.rank == b.rank && Less(a.key, b.key))
  }

  const GAIN_TOLERANCE: real := 0.000000000001
  const RATIO_TOLERANCE: real := 0.000000000000001

  /** True if candidate 1 is strictly better than 2. */
  predicate PickBetter(g1: real, r1: real, t1: Tie, g2: real, r2: real, t2: Tie)
  {
    if g1 > g2 + GAIN_TOLERANCE then true
    else if g2 > g1 + GAIN_TOLERANCE then false
    else if r1 > r2 + RATIO_TOLERANCE then true
    else if r2 > r1 + RATIO_TOLERANCE then false
    else TieLess(t1, t2)
  }

  function Gain(remaining: set<Cell>, c: Candidate): nat
  {
    |remaining * c.cells|
  }

  function Ratio(gain: nat, c: Candidate): real
  {
    if |c.cells| > 0 then gain as real / |c.cells| as real else 0.0
  }

  function Clamp01(x: real): (r: real)
    ensures 0.0 <= r <= 1.0
    ensures x <= 0.0 ==> r == 0.0
    ensures x >= 1.0 ==> r == 1.0
    ensures 0.0 <= x <= 1.0 ==> r == x
  {
    if x < 0.0 then 0.0 else if x > 1.0 then 1.0 else x
  }

  function Keys(s: seq<Candidate>): set<string>
  {
    set c | c in s :: c.key
  }

  /** What is left of the area after the picks so far. */
  function Left(aoi: set<Cell>, picks: seq<Candidate>): set<Cell>
  {
    if picks == [] then aoi else Left(aoi, picks[..|picks| - 1]) - picks[|picks| - 1].cells
  }

  /** No other candidate has this one's key. */
  ghost predicate Sole(candidates: seq<Candidate>, c: Candidate)
  {
    c in candidates && forall d | d in candidates && d.key == c.key :: d == c
  }

  /** The order the picks are meant to follow: higher gain, then the smaller footprint, then the
      sort-mode key. */
  ghost predicate Beats(remaining: set<Cell>, a: Candidate, b: Candidate, mode: SortMode)
  {
    || Gain(remaining, a) > Gain(remaining, b)
    || (Gain(remaining, a) == Gain(remaining, b) &&
        (|a.cells| < |b.cells| || (|a.cells| == |b.cells| && TieLess(TieOf(a, mode), TieOf(b, mode)))))
  }

  // ---------- the comparison ----------

  /** At equal gain g, two different areas whose ratios are within the tolerance of each other. */
  predicate NearTie(g: nat, a: nat, b: nat)
  {
    var gap := if a < b then b - a else a - b;
    gap > 0 && g as real * gap as real <= RATIO_TOLERANCE * (a as real * b as real)
  }

  /** No two candidates of equal gain are so close that the tolerance hides their difference. */
  ghost predicate Clear(left: set<Cell>, candidates: seq<Candidate>)
  {
    forall a, b | a in candidates && b in candidates && Gain(left, a) == Gain(left, b) > 0 ::
      !NearTie(Gain(left, a), |a.cells|, |b.cells|)
  }

  lemma RatioOver(g: real, a: real, b: real)
    requires g > 0.0 && a > 0.0 && b > 0.0
    ensures g / a > g / b + RATIO_TOLERANCE <==> g * (b - a) > RATIO_TOLERANCE * (a * b)
  {
    var u, v, p := g / a, g / b, a * b;
    ProductPositive(a, b);
    assert u * a == g && v * b == g;
    calc {
      (u - v) * p;
      { Distributes(u, v, p); }
      u * p - v * p;
      { Regroups(u, a, b); Regroups(v, b, a); Commutes(a, b); }
      g * b - g * a;
      { Distributes(b, a, g); Commutes(g, b); Commutes(g, a); Commutes(g, b - a); }
      g * (b - a);
    }
    TimesOrders(u - v, RATIO_TOLERANCE, p);
  }

  lemma ProductPositive(a: real, b: real)
    requires a > 0.0 && b > 0.0
    ensures a * b > 0.0
  {
  }

  lemma Distributes(a: real, b: real, c: real)
    ensures (a - b) * c == a * c - b * c
  {
  }

  lemma Regroups(a: real, b: real, c: real)
    ensures a * (b * c) == (a * b) * c
  {
  }

  lemma TimesOrders(a: real, b: real, c: real)
    requires c > 0.0
    ensures a > b <==> a * c > b * c
  {
    if a > b {
      StrictTimes(b, a, c);
    } else {
      TimesGrows(a, b, c);
    }
  }

  lemma AreaProduct(y: real, z: real)
    requires 0.0 <= y <= 10000000.0 && 0.0 <= z <= 10000000.0
    ensures y * z <= 100000000000000.0
  {
    calc {
      y * z;
      <= { TimesGrows(y, 10000000.0, z); }
      10000000.0 * z;
      <=
      100000000000000.0;
    }
  }

  lemma Commutes(a: real, b: real)
    ensures a * b == b * a
  {
  }

  lemma TimesGrows(a: real, b: real, c: real)
    requires a <= b && c >= 0.0
    ensures a * c <= b * c
  {
  }

  /** The toleranced comparison is the intended order, except that a near tie goes to the sort-mode
      key. */
  lemma PickBetterExactly(remaining: set<Cell>, a: Candidate, b: Candidate, mode: SortMode)
    requires Gain(remaining, a) > 0 && Gain(remaining, b) > 0
    ensures var g, h := Gain(remaining, a), Gain(remaining, b);
            PickBetter(g as real, Ratio(g, a), TieOf(a, mode), h as real, Ratio(h, b), TieOf(b, mode))
            <==> if g == h && NearTie(g, |a.cells|, |b.cells|) then TieLess(TieOf(a, mode), TieOf(b, mode))
                 else Beats(remaining, a, b, mode)
  {
    var g, h := Gain(remaining, a), Gain(remaining, b);
    GainWithinArea(remaining, a);
    GainWithinArea(remaining, b);
    if g == h {
      RatioGap(g, |a.cells|, |b.cells|);
      RatioGap(g, |b.cells|, |a.cells|);
    }
  }

  /** Of two areas at equal gain, the smaller has the larger ratio exactly when they are no near tie. */
  lemma RatioGap(g: nat, a: nat, b: nat)
    requires g > 0 && a > 0 && b > 0
    ensures g as real / a as real > g as real / b as real + RATIO_TOLERANCE <==> a < b && !NearTie(g, a, b)
  {
    var x, y, z := g as real, a as real, b as real;
    RatioOver(x, y, z);
    ProductPositive(y, z);
    if a >= b {
      TimesGrows(z - y, 0.0, x);
      Commutes(x, z - y);
    } else {
      assert (b - a) as real == z - y;
    }
  }

  /** With footprints of at most ten million cells there are no near ties. */
  lemma SmallIsClear(left: set<Cell>, candidates: seq<Candidate>)
    requires forall c | c in candidates :: |c.cells| <= 10_000_000
    ensures Clear(left, candidates)
  {
    forall a, b | a in candidates && b in candidates && Gain(left, a) == Gain(left, b) > 0
      ensures !NearTie(Gain(left, a), |a.cells|, |b.cells|)
    {
      SmallIsNoNearTie(Gain(left, a), |a.cells|, |b.cells|);
    }
  }

  lemma SmallIsNoNearTie(g: nat, a: nat, b: nat)
    requires g > 0 && a <= 10_000_000 && b <= 10_000_000
    ensures !NearTie(g, a, b)
  {
    var gap := if a < b then b - a else a - b;
    var x, y, p := g as real, gap as real, a as real * b as real;
    AreaProduct(a as real, b as real);
    assert RATIO_TOLERANCE * p <= 0.1;
    if gap > 0 {
      assert 1.0 <= x * y by {
        TimesGrows(1.0, x, y);
      }
    }
  }

  lemma GainWithinArea(remaining: set<Cell>, c: Candidate)
    ensures Gain(remaining, c) <= |c.cells| && Gain(remaining, c) <= |remaining|
  {
    SubsetSize(remaining * c.cells, c.cells);
    SubsetSize(remaining * c.cells, remaining);
  }

  lemma TieLessOrders(a: Tie, b: Tie, c: Tie)
    ensures TieLess(a, b) && TieLess(b, c) ==> TieLess(a, c)
    ensures a.key != b.key ==> TieLess(a, b) || TieLess(b, a)
  {
    LessTotal(a.key, b.key);
    if Less(a.key, b.key) && Less(b.key, c.key) {
      LessTransitive(a.key, b.key, c.key);
    }
  }

  lemma BeatsOrders(remaining: set<Cell>, a: Candidate, b: Candidate, c: Candidate, mode: SortMode)
    ensures Beats(remaining, a, b, mode) && Beats(remaining, b, c, mode) ==> Beats(remaining, a, c, mode)
    ensures a.key != b.key ==> Beats(remaining, a, b, mode) || Beats(remaining, b, a, mode)
  {
    TieLessOrders(TieOf(a, mode), TieOf(b, mode), TieOf(c, mode));
  }

  // ---------- runs of picks ----------

  /** The `t`-th pick is a candidate not picked before, covers something new, and no candidate with
      a key of its own covers more; without near ties it also wins against each of these. */
  ghost predicate GreedyPick(aoi: set<Cell>, candidates: seq<Candidate>, picks: seq<Candidate>, t: nat, mode: SortMode)
    requires t < |picks|
  {
    var left, best := Left(aoi, picks[..t]), picks[t];
    && best in candidates && best.key !in Keys(picks[..t]) && Gain(left, best) > 0
    && (forall c | Sole(candidates, c) && c.key !in Keys(picks[..t]) :: Gain(left, c) <= Gain(left, best))
    && (Clear(left, candidates) ==>
          forall c | Sole(candidates, c) && c.key !in Keys(picks[..t]) && c != best :: Beats(left, best, c, mode))
  }

  ghost predicate GreedyRun(aoi: set<Cell>, candidates: seq<Candidate>, picks: seq<Candidate>, mode: SortMode)
  {
    forall t | 0 <= t < |picks| :: GreedyPick(aoi, candidates, picks, t, mode)
  }

  function UncoveredFraction(aoi: set<Cell>, left: set<Cell>): real
    requires aoi != {}
  {
    |left| as real / |aoi| as real
  }

  predicate CoveredEnough(aoi: set<Cell>, left: set<Cell>, minCoverage: real)
    requires aoi != {}
  {
    left == {} || UncoveredFraction(aoi, left) <= 1.0 - minCoverage
  }

  predicate IsShare(x: real, part: set<Cell>, whole: set<Cell>)
  {
    x * |whole| as real == |part| as real
  }

  /** In numbers of cells: no more is left than the target coverage allows. */
  lemma CoveredMeans(aoi: set<Cell>, left: set<Cell>, minCoverage: real)
    requires aoi != {}
    ensures CoveredEnough(aoi, left, minCoverage)
            <==> left == {} || |left| as real <= (1.0 - minCoverage) * |aoi| as real
    ensures IsShare(UncoveredFraction(aoi, left), left, aoi)
  {
    var x, n, m := UncoveredFraction(aoi, left), |aoi| as real, 1.0 - minCoverage;
    assert n > 0.0;
    assert x * n == |left| as real;
    TimesOrders(x, m, n);
  }

  /** No pick was made once enough was covered, nor, after the first, one that gains less than the
      fraction. */
  ghost predicate PicksNeeded(aoi: set<Cell>, picks: seq<Candidate>, minCoverage: real, fraction: real)
  {
    forall t | 0 <= t < |picks| :: PickNeeded(aoi, Left(aoi, picks[..t]), picks[t], t > 0, minCoverage, fraction)
  }

  predicate PickNeeded(aoi: set<Cell>, left: set<Cell>, pick: Candidate, later: bool, minCoverage: real, fraction: real)
  {
    && |left| as real > (1.0 - minCoverage) * |aoi| as real
    && (later ==> Gain(left, pick) as real >= |left| as real * fraction)
  }

  /** No more is left than the target coverage allows, or no free candidate with a key of its own
      gains enough: anything at all on the first pick, the fraction of what is left on a later one. */
  ghost predicate NoneNeeded(aoi: set<Cell>, candidates: seq<Candidate>, picks: seq<Candidate>, minCoverage: real,
                             fraction: real)
  {
    var left := Left(aoi, picks);
    || |left| as real <= (1.0 - minCoverage) * |aoi| as real
    || forall c | Sole(candidates, c) && c.key !in Keys(picks) && Gain(left, c) > 0 ::
         picks != [] && Gain(left, c) as real < |left| as real * fraction
  }

  /** Why the loop stopped before its iteration cap. */
  ghost predicate Stopped(aoi: set<Cell>, candidates: seq<Candidate>, picks: seq<Candidate>, minCoverage: real,
                          fraction: real)
    requires aoi != {}
  {
    var left := Left(aoi, picks);
    || CoveredEnough(aoi, left, minCoverage)
    || (forall c | Sole(candidates, c) && c.key !in Keys(picks) :: Gain(left, c) == 0)
    || (&& picks != [] && fraction > 0.0
        && forall c | Sole(candidates, c) && c.key !in Keys(picks) :: Gain(left, c) as real < |left| as real * fraction)
  }

  // ---------- the loop ----------

  /** What the spatial index may answer, in any order and with repeats: candidates only, and all that
      overlap what is left. */
  ghost predicate PoolOk(candidates: seq<Candidate>, remaining: set<Cell>, pool: seq<Candidate>)
  {
    && (forall c | c in pool :: c in candidates)
    && (forall c | c in candidates && Gain(remaining, c) > 0 :: c in pool)
  }

  /** The one candidate of a key that the loop looks at: the first in the pool. */
  function FirstWithKey(pool: seq<Candidate>, key: string): Option<Candidate>
  {
    if pool == [] then None else if pool[0].key == key then Some(pool[0]) else FirstWithKey(pool[1..], key)
  }

  lemma {:induction false} FirstIsMember(pool: seq<Candidate>, key: string)
    ensures match FirstWithKey(pool, key)
            case None => forall c | c in pool :: c.key != key
            case Some(c) => c in pool && c.key == key
  {
    if pool != [] {
      assert pool == [pool[0]] + pool[1..];
      FirstIsMember(pool[1..], key);
    }
  }

  /** A candidate is looked at whatever the index answers exactly when no other has its key. */
  lemma SeenIffSole(candidates: seq<Candidate>, remaining: set<Cell>, c: Candidate)
    requires c in candidates && Gain(remaining, c) > 0
    ensures (forall pool | PoolOk(candidates, remaining, pool) :: FirstWithKey(pool, c.key) == Some(c))
            <==> Sole(candidates, c)
  {
    if Sole(candidates, c) {
      forall pool | PoolOk(candidates, remaining, pool) ensures FirstWithKey(pool, c.key) == Some(c) {
        FirstIsMember(pool, c.key);
      }
    } else {
      var d :| d in candidates && d.key == c.key && d != c;
      var pool := [d] + candidates;
      assert PoolOk(candidates, remaining, pool) && FirstWithKey(pool, c.key) == Some(d);
    }
  }

  method TreeQuery(candidates: seq<Candidate>, remaining: set<Cell>) returns (pool: seq<Candidate>)
    ensures PoolOk(candidates, remaining, pool)
  {
    pool := [];
    for i := 0 to |candidates|
      invariant forall c | c in pool :: c in candidates
      invariant forall k | 0 <= k < i && Gain(remaining, candidates[k]) > 0 :: candidates[k] in pool
    {
      if remaining * candidates[i].cells != {} {
        pool := pool + [candidates[i]];
      }
    }
  }

  /** The best of the candidates offered so far. */
  ghost predicate BestOffered(remaining: set<Cell>, candidates: seq<Candidate>, offered: seq<Candidate>,
                              best: Option<Candidate>, mode: SortMode)
  {
    && (best.None? <==> offered == [])
    && (best.Some? ==> best.value in offered)
    && (forall c | c in offered :: best.Some? && Gain(remaining, c) <= Gain(remaining, best.value))
    && (Clear(remaining, candidates) ==>
          forall c | c in offered && best != Some(c) :: best.Some? && Beats(remaining, best.value, c, mode))
  }

  /** The offered candidates gain something and are unused, one for each key. */
  ghost predicate Offers(remaining: set<Cell>, candidates: seq<Candidate>, offered: seq<Candidate>, used: set<string>)
  {
    && (forall c | c in offered :: c in candidates && c.key !in used && Gain(remaining, c) > 0)
    && forall c, d | c in offered && d in offered && c.key == d.key :: c == d
  }

  /** The best of a round: unused, gaining, and against candidates with a key of their own as good
      as the loop can tell. */
  ghost predicate BestOf(remaining: set<Cell>, candidates: seq<Candidate>, used: set<string>,
                         best: Option<Candidate>, mode: SortMode)
  {
    && (best.Some? ==> best.value in candidates && best.value.key !in used && Gain(remaining, best.value) > 0)
    && (forall c | Sole(candidates, c) && c.key !in used && Gain(remaining, c) > 0 ::
          best.Some? && Gain(remaining, c) <= Gain(remaining, best.value))
    && (Clear(remaining, candidates) ==>
          forall c | Sole(candidates, c) && c.key !in used && Gain(remaining, c) > 0 && best != Some(c) ::
            best.Some? && Beats(remaining, best.value, c, mode))
  }

  /** The comparison as the loop makes it. */
  predicate Better(remaining: set<Cell>, c: Candidate, d: Candidate, mode: SortMode)
  {
    PickBetter(Gain(remaining, c) as real, Ratio(Gain(remaining, c), c), TieOf(c, mode),
               Gain(remaining, d) as real, Ratio(Gain(remaining, d), d), TieOf(d, mode))
  }

  lemma BetterGains(remaining: set<Cell>, c: Candidate, d: Candidate, mode: SortMode)
    ensures Better(remaining, c, d, mode) ==> Gain(remaining, c) >= Gain(remaining, d)
    ensures !Better(remaining, c, d, mode) ==> Gain(remaining, c) <= Gain(remaining, d)
  {
  }

  lemma ClearBetter(remaining: set<Cell>, candidates: seq<Candidate>, c: Candidate, d: Candidate, mode: SortMode)
    requires Clear(remaining, candidates) && c in candidates && d in candidates
    requires Gain(remaining, c) > 0 && Gain(remaining, d) > 0
    ensures Better(remaining, c, d, mode) <==> Beats(remaining, c, d, mode)
  {
    PickBetterExactly(remaining, c, d, mode);
  }

  /** Offering one more candidate keeps the best of those offered best. */
  lemma OfferKeepsBest(remaining: set<Cell>, candidates: seq<Candidate>, offered: seq<Candidate>, used: set<string>,
                       best: Option<Candidate>, mode: SortMode, c: Candidate, best': Option<Candidate>)
    requires BestOffered(remaining, candidates, offered, best, mode)
    requires Offers(remaining, candidates, offered + [c], used) && c !in offered
    requires best' == if best.None? || Better(remaining, c, best.value, mode) then Some(c) else best
    ensures BestOffered(remaining, candidates, offered + [c], best', mode)
  {
    hide Beats, Better, Clear;
    assert c in offered + [c];
    assert forall d | d in offered :: d in offered + [c];
    if best.Some? {
      BetterGains(remaining, c, best.value, mode);
      if Clear(remaining, candidates) {
        ClearBetter(remaining, candidates, c, best.value, mode);
        forall d | d in offered + [c] && best' != Some(d) ensures Beats(remaining, best'.value, d, mode) {
          BeatsOrders(remaining, c, best.value, d, mode);
          assert d == c || d in offered;
        }
      }
    }
  }

  /** One round: the best unused candidate of the pool, or none when nothing unused overlaps. */
  method BestCandidate(candidates: seq<Candidate>, remaining: set<Cell>, used: set<string>, mode: SortMode)
    returns (best: Option<Candidate>, bestGain: nat)
    ensures BestOf(remaining, candidates, used, best, mode)
    ensures best.Some? ==> bestGain == Gain(remaining, best.value)
  {
    hide Gain, Beats, Clear;
    var pool := TreeQuery(candidates, remaining);
    if pool == [] {
      pool := candidates;
    }
    best, bestGain := None, 0;
    var seenPool: set<string> := {};
    ghost var offered: seq<Candidate> := [];
    for i := 0 to |pool|
      invariant best.Some? ==> bestGain == Gain(remaining, best.value)
      invariant BestOffered(remaining, candidates, offered, best, mode)
      invariant Offers(remaining, candidates, offered, used)
      invariant forall c | c in offered :: c.key in seenPool
      invariant forall k | 0 <= k < i && Sole(candidates, pool[k]) && pool[k].key !in used
          && Gain(remaining, pool[k]) > 0 ::
          pool[k] in offered
      invariant forall x | x in seenPool :: exists k :: 0 <= k < i && pool[k].key == x
    {
      var c := pool[i];
      if c.key in used || c.key in seenPool {
        continue;
      }
      seenPool := seenPool + {c.key};
      var gain := Gain(remaining, c);
      if gain <= 0 {
        continue;
      }
      var better := best.None? ||
                    PickBetter(gain as real, Ratio(gain, c), TieOf(c, mode),
                               bestGain as real, Ratio(bestGain, best.value), TieOf(best.value, mode));
      ghost var best' := if better then Some(c) else best;
      OfferKeepsBest(remaining, candidates, offered, used, best, mode, c, best');
      if better {
        best, bestGain := Some(c), gain;
      }
      offered := offered + [c];
    }
    forall c | Sole(candidates, c) && c.key !in used && Gain(remaining, c) > 0
      ensures c in offered
    {
      var k :| 0 <= k < |pool| && pool[k] == c;
    }
  }

  /** Picks candidates until the area is covered well enough, nothing more can be gained, the best
      gain falls below a fraction of the hole, or the iteration cap is reached. */
  method GreedyCoverAoi(aoi: set<Cell>, candidates: seq<Candidate>, mode: SortMode,
                        minCoverage: real, maxIterations: nat, minFraction: Option<real>, configured: real)
    returns (selected: seq<Candidate>, remaining: Option<set<Cell>>, uncovered: real)
    ensures candidates == [] || aoi == {} ==> selected == [] && remaining == Some(aoi) && uncovered == 1.0
    ensures GreedyRun(aoi, candidates, selected, mode) && |selected| <= maxIterations
    ensures candidates != [] && aoi != {} ==>
              var left := Left(aoi, selected);
              && remaining == (if left == {} then None else Some(left))
              && IsShare(uncovered, left, aoi)
              && (|selected| == maxIterations ||
                  Stopped(aoi, candidates, selected, minCoverage, Fraction(minFraction, configured)))
    ensures var fraction := Clamp01(if minFraction.None? then configured else minFraction.value);
            && PicksNeeded(aoi, selected, minCoverage, fraction)
            && (candidates != [] && aoi != {} && |selected| < maxIterations ==>
                  NoneNeeded(aoi, candidates, selected, minCoverage, fraction))
  {
    selected, remaining, uncovered := [], Some(aoi), 1.0;
    RunStarts(aoi, candidates, mode);
    if candidates == [] || aoi == {} {
      return;
    }
    hide GreedyRun, Stopped, CoveredEnough, UncoveredFraction, Left, Keys, PicksNeeded, NoneNeeded;
    var fraction := Fraction(minFraction, configured);
    assert fraction == Clamp01(if minFraction.None? then configured else minFraction.value);
    hide Fraction, Clamp01, IsShare;
    var left := aoi;
    var used: set<string> := {};
    for n := 0 to maxIterations
      invariant |selected| == n && left == Left(aoi, selected) && used == Keys(selected)
      invariant GreedyRun(aoi, candidates, selected, mode) && PicksNeeded(aoi, selected, minCoverage, fraction)
    {
      var next := NextPick(aoi, candidates, selected, left, used, mode, minCoverage, fraction);
      if next.None? {
        break;
      }
      selected := selected + [next.value];
      used := used + {next.value.key};
      left := left - next.value.cells;
      if left == {} {
        StoppedCovered(aoi, candidates, selected, minCoverage, fraction);
        break;
      }
    }
    CoveredMeans(aoi, left, minCoverage);
    if |selected| < maxIterations {
      StoppedMeans(aoi, candidates, selected, minCoverage, fraction);
    }
    uncovered := UncoveredFraction(aoi, left);
    remaining := if left == {} then None else Some(left);
  }

  /** Why the loop stopped, in numbers of cells. */
  lemma StoppedMeans(aoi: set<Cell>, candidates: seq<Candidate>, picks: seq<Candidate>, minCoverage: real,
                     fraction: real)
    requires aoi != {} && Stopped(aoi, candidates, picks, minCoverage, fraction)
    ensures NoneNeeded(aoi, candidates, picks, minCoverage, fraction)
  {
    CoveredMeans(aoi, Left(aoi, picks), minCoverage);
    hide CoveredEnough, Left, Keys, Sole;
  }

  /** One round of the loop: the next pick, or none for one of the reasons to stop. */
  method NextPick(aoi: set<Cell>, candidates: seq<Candidate>, selected: seq<Candidate>, left: set<Cell>,
                  used: set<string>, mode: SortMode, minCoverage: real, fraction: real)
    returns (next: Option<Candidate>)
    requires aoi != {} && left == Left(aoi, selected) && used == Keys(selected)
    requires GreedyRun(aoi, candidates, selected, mode) && PicksNeeded(aoi, selected, minCoverage, fraction)
    ensures next.None? ==> Stopped(aoi, candidates, selected, minCoverage, fraction)
    ensures next.Some? ==>
              var picks := selected + [next.value];
              && GreedyRun(aoi, candidates, picks, mode) && PicksNeeded(aoi, picks, minCoverage, fraction)
              && Keys(picks) == used + {next.value.key} && Left(aoi, picks) == left - next.value.cells
  {
    hide GreedyRun, BestOf, Stopped, CoveredEnough, Gain, Left, Keys, PicksNeeded;
    CoveredMeans(aoi, left, minCoverage);
    if CoveredEnough(aoi, left, minCoverage) {
      StoppedCovered(aoi, candidates, selected, minCoverage, fraction);
      return None;
    }
    var best, bestGain := BestCandidate(candidates, left, used, mode);
    if best.None? {
      StoppedNoGain(aoi, candidates, selected, mode, minCoverage, fraction);
      return None;
    }
    if selected != [] && fraction > 0.0 && bestGain as real < |left| as real * fraction {
      StoppedSmallGain(aoi, candidates, selected, mode, best.value, minCoverage, fraction);
      return None;
    }
    PickExtendsRun(aoi, candidates, selected, mode, left, used, best.value);
    PickIsNeeded(aoi, selected, best.value, minCoverage, fraction);
    next := best;
  }

  lemma PickIsNeeded(aoi: set<Cell>, selected: seq<Candidate>, best: Candidate, minCoverage: real, fraction: real)
    requires PicksNeeded(aoi, selected, minCoverage, fraction)
    requires PickNeeded(aoi, Left(aoi, selected), best, selected != [], minCoverage, fraction)
    ensures PicksNeeded(aoi, selected + [best], minCoverage, fraction)
  {
    var picks := selected + [best];
    hide Left, PickNeeded;
    forall t | 0 <= t < |picks|
      ensures PickNeeded(aoi, Left(aoi, picks[..t]), picks[t], t > 0, minCoverage, fraction)
    {
      assert picks[..t] == selected[..t];
      if t == |selected| {
        assert selected[..t] == selected;
      }
    }
  }

  lemma RunStarts(aoi: set<Cell>, candidates: seq<Candidate>, mode: SortMode)
    ensures GreedyRun(aoi, candidates, [], mode) && Left(aoi, []) == aoi && Keys([]) == {}
    ensures forall minCoverage, fraction :: PicksNeeded(aoi, [], minCoverage, fraction)
  {
  }

  lemma StoppedCovered(aoi: set<Cell>, candidates: seq<Candidate>, picks: seq<Candidate>, minCoverage: real,
                       fraction: real)
    requires aoi != {} && (CoveredEnough(aoi, Left(aoi, picks), minCoverage) || Left(aoi, picks) == {})
    ensures Stopped(aoi, candidates, picks, minCoverage, fraction)
  {
  }

  lemma StoppedNoGain(aoi: set<Cell>, candidates: seq<Candidate>, picks: seq<Candidate>, mode: SortMode,
                      minCoverage: real, fraction: real)
    requires aoi != {} && BestOf(Left(aoi, picks), candidates, Keys(picks), None, mode)
    ensures Stopped(aoi, candidates, picks, minCoverage, fraction)
  {
    hide CoveredEnough, Left, Keys, Sole, Clear, Beats;
    forall c | Sole(candidates, c) && c.key !in Keys(picks) ensures Gain(Left(aoi, picks), c) == 0 {
    }
  }

  lemma StoppedSmallGain(aoi: set<Cell>, candidates: seq<Candidate>, picks: seq<Candidate>, mode: SortMode,
                         best: Candidate, minCoverage: real, fraction: real)
    requires aoi != {} && BestOf(Left(aoi, picks), candidates, Keys(picks), Some(best), mode)
    requires picks != [] && fraction > 0.0
    requires Gain(Left(aoi, picks), best) as real < |Left(aoi, picks)| as real * fraction
    ensures Stopped(aoi, candidates, picks, minCoverage, fraction)
  {
    hide CoveredEnough, Left, Keys, Sole, Gain, Clear, Beats;
    var left, limit := Left(aoi, picks), |Left(aoi, picks)| as real * fraction;
    forall c | Sole(candidates, c) && c.key !in Keys(picks) ensures Gain(left, c) as real < limit {
      assert Gain(left, c) <= Gain(left, best);
    }
  }

  function Fraction(minFraction: Option<real>, configured: real): real
  {
    Clamp01(if minFraction.None? then configured else minFraction.value)
  }

  /** A pick is judged by what was picked before it. */
  lemma SamePick(aoi: set<Cell>, candidates: seq<Candidate>, a: seq<Candidate>, b: seq<Candidate>, t: nat,
                 mode: SortMode)
    requires t < |a| && t < |b| && a[..t] == b[..t] && a[t] == b[t]
    ensures GreedyPick(aoi, candidates, a, t, mode) == GreedyPick(aoi, candidates, b, t, mode)
  {
    hide Left, Gain, Keys, Beats;
  }

  lemma BestIsPick(aoi: set<Cell>, candidates: seq<Candidate>, selected: seq<Candidate>, mode: SortMode,
                   best: Candidate)
    requires BestOf(Left(aoi, selected), candidates, Keys(selected), Some(best), mode)
    ensures GreedyPick(aoi, candidates, selected + [best], |selected|, mode)
  {
    assert (selected + [best])[..|selected|] == selected;
    hide Left, Keys, Beats, Sole, Clear;
    var left := Left(aoi, selected);
    if Clear(left, candidates) {
      forall c | Sole(candidates, c) && c.key !in Keys(selected) && c != best ensures Beats(left, best, c, mode) {
        if Gain(left, c) == 0 {
          GainBeatsNone(left, best, c, mode);
        }
      }
    }
  }

  lemma GainBeatsNone(left: set<Cell>, best: Candidate, c: Candidate, mode: SortMode)
    requires Gain(left, best) > 0 && Gain(left, c) == 0
    ensures Beats(left, best, c, mode)
  {
  }

  lemma PickExtendsRun(aoi: set<Cell>, candidates: seq<Candidate>, selected: seq<Candidate>, mode: SortMode,
                       left: set<Cell>, used: set<string>, best: Candidate)
    requires GreedyRun(aoi, candidates, selected, mode) && left == Left(aoi, selected) && used == Keys(selected)
    requires BestOf(left, candidates, used, Some(best), mode)
    ensures GreedyRun(aoi, candidates, selected + [best], mode)
    ensures Keys(selected + [best]) == used + {best.key}
    ensures Left(aoi, selected + [best]) == left - best.cells
  {
    var picks := selected + [best];
    BestIsPick(aoi, candidates, selected, mode, best);
    assert picks[..|picks| - 1] == selected;
    hide GreedyPick, BestOf;
    forall t | 0 <= t < |selected| ensures GreedyPick(aoi, candidates, picks, t, mode) {
      assert picks[..t] == selected[..t];
      SamePick(aoi, candidates, selected, picks, t, mode);
    }
  }

  // ---------- the sort modes ----------

  /** How a pick stands to any other free candidate with a key of its own, where no near tie blurs
      the comparison: it gains more, or has the smaller footprint, or comes first in the sort mode. */
  lemma PicksFollowSortMode(aoi: set<Cell>, candidates: seq<Candidate>, picks: seq<Candidate>, mode: SortMode, t: nat,
                            c: Candidate)
    requires GreedyRun(aoi, candidates, picks, mode) && t < |picks| && Clear(Left(aoi, picks[..t]), candidates)
    requires Sole(candidates, c) && c.key !in Keys(picks[..t]) && c != picks[t]
    ensures var left, best := Left(aoi, picks[..t]), picks[t];
            && Gain(left, c) <= Gain(left, best)
            && (Gain(left, c) == Gain(left, best) ==> |best.cells| <= |c.cells|)
            && (Gain(left, c) == Gain(left, best) && |best.cells| == |c.cells| ==>
                  match mode
                  case LowestCloud => LessCloudy(best, c)
                  case Newest => Newer(best, c))
  {
    assert GreedyPick(aoi, candidates, picks, t, mode);
    assert Beats(Left(aoi, picks[..t]), picks[t], c, mode);
    hide GreedyRun, GreedyPick, Clear, Left, Keys, Gain;
  }

  /** The lower cloud cover, an unknown one counting as 1e9; then the smaller key. */
  predicate LessCloudy(a: Candidate, b: Candidate)
  {
    match (a.cloud, b.cloud)
    case (Some(x), Some(y)) => x < y || (x == y && Less(a.key, b.key))
    case (Some(x), None) => x < 1000000000.0 || (x == 1000000000.0 && Less(a.key, b.key))
    case (None, Some(y)) => y > 1000000000.0 || (y == 1000000000.0 && Less(a.key, b.key))
    case (None, None) => Less(a.key, b.key)
  }

  /** The later time, an unknown one counting as second 1e9 of the epoch; then the smaller key. */
  predicate Newer(a: Candidate, b: Candidate)
  {
    match (a.time, b.time)
    case (Some(x), Some(y)) => x > y || (x == y && Less(a.key, b.key))
    case (Some(x), None) => x > 1000000000.0 || (x == 1000000000.0 && Less(a.key, b.key))
    case (None, Some(y)) => y < 1000000000.0 || (y == 1000000000.0 && Less(a.key, b.key))
    case (None, None) => Less(a.key, b.key)
  }

  /** Unknown times do not always come last: a scene of known time comes before one of unknown time
      exactly when it is later than second 1e9 of the epoch, in September 2001. */
  lemma UnknownTimeLastIff(remaining: set<Cell>, known: Candidate, unknown: Candidate)
    requires known.time.Some? && unknown.time.None?
    requires Gain(remaining, known) == Gain(remaining, unknown) && |known.cells| == |unknown.cells|
    ensures Beats(remaining, known, unknown, Newest) <==>
              known.time.value > 1000000000.0 || (known.time.value == 1000000000.0 && Less(known.key, unknown.key))
  {
  }

  // ---------- what the picks guarantee ----------

  function UnionOf(picks: seq<Candidate>): set<Cell>
  {
    set c, x | c in picks && x in c.cells :: x
  }

  /** Throughout, what is left is the area minus the union of the selected footprints. */
  lemma {:induction false} LeftIsAoiMinusUnion(aoi: set<Cell>, picks: seq<Candidate>)
    ensures Left(aoi, picks) == aoi - UnionOf(picks)
  {
    if picks != [] {
      var init, last := picks[..|picks| - 1], picks[|picks| - 1];
      LeftIsAoiMinusUnion(aoi, init);
      assert picks == init + [last];
      forall x ensures x in UnionOf(picks) <==> x in UnionOf(init) + last.cells {
        if x in UnionOf(init) {
          var c :| c in init && x in c.cells;
          assert c in picks;
        }
        if x in last.cells {
          assert last in picks;
        }
      }
    }
  }

  /** Some candidates, none of which shares its key with another candidate, cover the whole area. */
  ghost predicate Covers(cover: set<Candidate>, candidates: seq<Candidate>, aoi: set<Cell>)
  {
    && (forall c | c in cover :: Sole(candidates, c))
    && CoversCells(cover, aoi)
  }

  lemma SomeCell(s: set<Cell>) returns (x: Cell)
    requires s != {}
    ensures x in s
  {
    x :| x in s;
  }

  ghost predicate CoversCells(cover: set<Candidate>, cells: set<Cell>)
  {
    forall x | x in cells :: exists c :: c in cover && x in c.cells
  }

  ghost predicate NoneGainsMore(cover: set<Candidate>, left: set<Cell>, g: nat)
  {
    forall c | c in cover :: Gain(left, c) <= g
  }

  /** An area covered by k sets, each meeting it in at most g cells, has at most k * g cells. */
  lemma {:induction false} CoverCounts(left: set<Cell>, cover: set<Candidate>, g: nat, k: nat)
    requires |cover| == k && CoversCells(cover, left) && NoneGainsMore(cover, left, g)
    ensures |left| <= Repeated(k, g)
    decreases k
  {
    if left != {} {
      var c := SomeCover(left, cover);
      CoverWithout(left, cover, g, c);
      CoverCounts(left - c.cells, cover - {c}, g, k - 1);
      SplitByFootprint(left, c);
    }
  }

  function Repeated(k: nat, g: nat): nat
  {
    if k == 0 then 0 else g + Repeated(k - 1, g)
  }

  lemma {:induction false} RepeatedIsTimes(k: nat, g: nat)
    ensures Repeated(k, g) == k * g
  {
    if k > 0 {
      RepeatedIsTimes(k - 1, g);
    }
  }

  lemma SomeCover(left: set<Cell>, cover: set<Candidate>) returns (c: Candidate)
    requires left != {} && CoversCells(cover, left)
    ensures c in cover
  {
    var x := SomeCell(left);
    c :| c in cover && x in c.cells;
  }

  lemma CoverWithout(left: set<Cell>, cover: set<Candidate>, g: nat, c: Candidate)
    requires c in cover && CoversCells(cover, left) && NoneGainsMore(cover, left, g)
    ensures CoversCells(cover - {c}, left - c.cells) && NoneGainsMore(cover - {c}, left - c.cells, g)
    ensures Gain(left, c) <= g
  {
    var rest := left - c.cells;
    forall d | d in cover - {c} ensures Gain(rest, d) <= g {
      assert Gain(left, d) <= g;
      SubsetSize(rest * d.cells, left * d.cells);
    }
    forall x | x in rest ensures exists d :: d in cover - {c} && x in d.cells {
      var d :| d in cover && x in d.cells;
      assert d in cover - {c};
    }
  }

  lemma SplitByFootprint(left: set<Cell>, c: Candidate)
    ensures |left| == Gain(left, c) + |left - c.cells|
  {
    assert left == (left * c.cells) + (left - c.cells);
  }

  /** If no unused candidate covers more than g cells of what is left, and k candidates cover the
      area, at most k * g cells are left. */
  lemma PickTakesShare(aoi: set<Cell>, candidates: seq<Candidate>, picks: seq<Candidate>, cover: set<Candidate>, g: nat)
    requires Covers(cover, candidates, aoi)
    requires forall c | c in picks :: c in candidates
    requires FreeGainAtMost(aoi, candidates, picks, g)
    ensures |Left(aoi, picks)| <= |cover| * g
  {
    var left := Left(aoi, picks);
    LeftIsAoiMinusUnion(aoi, picks);
    forall c | c in cover ensures Gain(left, c) <= g {
      if c.key in Keys(picks) {
        var d :| d in picks && d.key == c.key;
        assert d == c;
        assert left * c.cells == {};
      }
    }
    assert forall x | x in left :: x in aoi;
    CoverCounts(left, cover, g, |cover|);
    RepeatedIsTimes(|cover|, g);
  }

  function Pow(b: nat, e: nat): nat
  {
    if e == 0 then 1 else b * Pow(b, e - 1)
  }

  /** The greedy guarantee: if k candidates cover the area, then after t picks
      k^t * |left| <= (k-1)^t * |area|. */
  lemma {:induction false} GreedyGuarantee(aoi: set<Cell>, candidates: seq<Candidate>, picks: seq<Candidate>,
                                           mode: SortMode, cover: set<Candidate>, t: nat)
    requires Covers(cover, candidates, aoi) && cover != {}
    requires GreedyRun(aoi, candidates, picks, mode) && t <= |picks|
    ensures Pow(|cover|, t) * |Left(aoi, picks[..t])| <= Pow(|cover| - 1, t) * |aoi|
  {
    if t > 0 {
      GreedyGuarantee(aoi, candidates, picks, mode, cover, t - 1);
      OnePick(aoi, candidates, picks, mode, cover, t);
      var before, after := Left(aoi, picks[..t - 1]), Left(aoi, picks[..t]);
      ShareStep(|cover|, |before|, |after|, Pow(|cover|, t - 1), Pow(|cover| - 1, t - 1), |aoi|);
    }
  }

  /** One pick leaves at most (k-1)/k of what was left. */
  lemma OnePick(aoi: set<Cell>, candidates: seq<Candidate>, picks: seq<Candidate>, mode: SortMode,
                cover: set<Candidate>, t: nat)
    requires Covers(cover, candidates, aoi) && cover != {}
    requires GreedyRun(aoi, candidates, picks, mode) && 0 < t <= |picks|
    ensures |cover| * |Left(aoi, picks[..t])| <= (|cover| - 1) * |Left(aoi, picks[..t - 1])|
  {
    var before, c := Left(aoi, picks[..t - 1]), picks[t - 1];
    assert GreedyPick(aoi, candidates, picks, t - 1, mode);
    PicksAreCandidates(aoi, candidates, picks, mode);
    PickTakesShare(aoi, candidates, picks[..t - 1], cover, Gain(before, c));
    assert picks[..t][..t - 1] == picks[..t - 1];
    var after := Left(aoi, picks[..t]);
    assert after == before - c.cells;
    SplitByFootprint(before, c);
    LeaveShare(|cover|, |before|, |after|, Gain(before, c));
  }

  lemma PicksAreCandidates(aoi: set<Cell>, candidates: seq<Candidate>, picks: seq<Candidate>, mode: SortMode)
    requires GreedyRun(aoi, candidates, picks, mode)
    ensures forall d | d in picks :: d in candidates
  {
    forall d | d in picks ensures d in candidates {
      var i :| 0 <= i < |picks| && picks[i] == d;
      assert GreedyPick(aoi, candidates, picks, i, mode);
    }
  }

  lemma LeaveShare(k: nat, before: nat, after: nat, gain: nat)
    requires k > 0 && before == after + gain && before <= k * gain
    ensures k * after <= (k - 1) * before
  {
    assert k * after == k * before - k * gain;
  }

  lemma ShareStep(k: nat, before: nat, after: nat, p: nat, q: nat, area: nat)
    requires k > 0 && k * after <= (k - 1) * before && p * before <= q * area
    ensures (k * p) * after <= ((k - 1) * q) * area
  {
    assert (k * p) * after == p * (k * after);
    NatTimesGrows(k * after, (k - 1) * before, p);
    assert p * ((k - 1) * before) == (k - 1) * (p * before);
    NatTimesGrows(p * before, q * area, k - 1);
    assert (k - 1) * (q * area) == ((k - 1) * q) * area;
  }

  lemma NatTimesGrows(a: int, b: int, c: nat)
    requires a <= b
    ensures c * a <= c * b
  {
  }

  /** The hypothesis is needed. Two candidates share a key; one covers the area, and the loop looks
      only at the other: one pick, nothing more to gain, and a cell is left. */
  lemma SharedKeyHidesCover(mode: SortMode) returns (aoi: set<Cell>, candidates: seq<Candidate>, picks: seq<Candidate>)
    ensures aoi != {} && (exists c :: c in candidates && aoi <= c.cells)
    ensures GreedyRun(aoi, candidates, picks, mode) && |picks| == 1
    ensures FirstWithKey(candidates, picks[0].key) == Some(picks[0])
    ensures Left(aoi, picks) != {} && forall c | c in candidates :: c.key in Keys(picks)
  {
    var x, y := Cell(0, 0), Cell(1, 0);
    var part, whole := Candidate("k", {x}, None, None), Candidate("k", {x, y}, None, None);
    aoi, candidates, picks := {x, y}, [part, whole], [part];
    assert whole in candidates && part in candidates && !Sole(candidates, part) && !Sole(candidates, whole);
    assert Left(aoi, []) == aoi && picks[..0] == [];
    assert x in aoi * part.cells;
    assert Left(aoi, picks) == aoi - part.cells;
    assert y in Left(aoi, picks);
    assert part in picks && part.key in Keys(picks);
  }

  /** When k candidates cover the area and the marginal fraction is at most 1/k, neither the
      marginal cutoff nor a lack of gain ends the loop: it ends covered, or at the cap. */
  lemma CutoffNeverEarly(aoi: set<Cell>, candidates: seq<Candidate>, picks: seq<Candidate>, mode: SortMode,
                         cover: set<Candidate>, minCoverage: real, fraction: real)
    requires Covers(cover, candidates, aoi) && aoi != {}
    requires GreedyRun(aoi, candidates, picks, mode)
    requires fraction * |cover| as real <= 1.0
    requires Stopped(aoi, candidates, picks, minCoverage, fraction)
    ensures var left := Left(aoi, picks);
            left == {} || |left| as real <= (1.0 - minCoverage) * |aoi| as real
  {
    hide *;
    EndsCovered(aoi, candidates, picks, mode, cover, minCoverage, fraction);
    CoveredMeans(aoi, Left(aoi, picks), minCoverage);
  }

  lemma EndsCovered(aoi: set<Cell>, candidates: seq<Candidate>, picks: seq<Candidate>, mode: SortMode,
                    cover: set<Candidate>, minCoverage: real, fraction: real)
    requires Covers(cover, candidates, aoi) && aoi != {}
    requires GreedyRun(aoi, candidates, picks, mode)
    requires fraction * |cover| as real <= 1.0
    requires Stopped(aoi, candidates, picks, minCoverage, fraction)
    ensures CoveredEnough(aoi, Left(aoi, picks), minCoverage)
  {
    hide CoveredEnough, Stopped, GreedyRun, Gain;
    var left, k := Left(aoi, picks), |cover|;
    if !CoveredEnough(aoi, left, minCoverage) {
      UncoveredLeft(aoi, candidates, picks, cover, minCoverage);
      StoppedBelowShare(aoi, candidates, picks, k, minCoverage, fraction);
      PicksAreCandidates(aoi, candidates, picks, mode);
      DivTimes(|left|, k);
      PickTakesShare(aoi, candidates, picks, cover, (|left| - 1) / k);
    }
  }

  lemma UncoveredLeft(aoi: set<Cell>, candidates: seq<Candidate>, picks: seq<Candidate>, cover: set<Candidate>,
                      minCoverage: real)
    requires Covers(cover, candidates, aoi) && aoi != {} && !CoveredEnough(aoi, Left(aoi, picks), minCoverage)
    ensures |Left(aoi, picks)| > 0 && |cover| > 0
  {
    hide UncoveredFraction;
    assert |Left(aoi, picks)| > 0;
    var c := SomeCover(aoi, cover);
  }

  /** No candidate that is still free and has a key of its own gains more than `g`. */
  ghost predicate FreeGainAtMost(aoi: set<Cell>, candidates: seq<Candidate>, picks: seq<Candidate>, g: nat)
  {
    forall c | Sole(candidates, c) && c.key !in Keys(picks) :: Gain(Left(aoi, picks), c) <= g
  }

  lemma StoppedBelowShare(aoi: set<Cell>, candidates: seq<Candidate>, picks: seq<Candidate>, k: nat,
                          minCoverage: real, fraction: real)
    requires aoi != {} && k > 0 && |Left(aoi, picks)| > 0
    requires Stopped(aoi, candidates, picks, minCoverage, fraction) && fraction * k as real <= 1.0
    requires !CoveredEnough(aoi, Left(aoi, picks), minCoverage)
    ensures FreeGainAtMost(aoi, candidates, picks, (|Left(aoi, picks)| - 1) / k)
  {
    hide CoveredEnough, Keys, Gain, Left, Sole;
    var left := Left(aoi, picks);
    forall c | Sole(candidates, c) && c.key !in Keys(picks) ensures Gain(left, c) <= (|left| - 1) / k {
      GainBelowShare(Gain(left, c), |left|, k, fraction);
    }
  }

  lemma DivTimes(n: nat, k: nat)
    requires n > 0 && k > 0
    ensures k * ((n - 1) / k) < n
  {
  }

  lemma GainBelowShare(gain: nat, left: nat, k: nat, fraction: real)
    requires k > 0 && left > 0 && fraction * k as real <= 1.0
    requires gain == 0 || gain as real < left as real * fraction
    ensures gain <= (left - 1) / k
  {
    if gain > 0 {
      BelowShare(gain, left, k, fraction);
    }
  }

  lemma BelowShare(gain: nat, left: nat, k: nat, fraction: real)
    requires k > 0 && left > 0 && fraction * k as real <= 1.0 && gain as real < left as real * fraction
    ensures gain <= (left - 1) / k
  {
    if gain * k >= left {
      var x, n, m := gain as real, k as real, left as real;
      assert x * n >= m;
      assert (m * fraction) * n == m * (fraction * n) by { RealAssoc(m, fraction, n); }
      TimesGrows(fraction * n, 1.0, m);
      StrictTimes(x, m * fraction, n);
      assert false;
    }
    DivBelow(gain, left, k);
  }

  lemma RealAssoc(a: real, b: real, c: real)
    ensures (a * b) * c == a * (b * c)
  {
  }

  lemma StrictTimes(a: real, b: real, c: real)
    requires a < b && c > 0.0
    ensures a * c < b * c
  {
  }

  lemma DivBelow(g: nat, n: nat, k: nat)
    requires k > 0 && n > 0 && g * k < n
    ensures g <= (n - 1) / k
  {
    var q := (n - 1) / k;
    if g > q {
      NatTimesGrows(q + 1, g, k);
    }
  }
}
