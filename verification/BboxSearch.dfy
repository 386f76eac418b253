/** The adaptive search over boxes: a work queue with a budget of upstream calls, in which boxes
    that failed or returned little are split in four. */
module BboxSearch {
  import opened BboxTiling

  datatype Feature = Feature(key: string, body: int)

  datatype CatalogError = CatalogError(catalog: string, detail: string)

  datatype Fetch = Fetch(feats: seq<Feature>, errs: seq<CatalogError>)

  /** A queued box; `seed` says which seed box it descends from. */
  datatype Item = Item(box: Bbox, depth: nat, seed: nat)

  /** One upstream call and its answer. */
  datatype Call = Call(item: Item, got: Fetch)

  datatype Config = Config(allowSplitting: bool, maxSplitDepth: nat, minDegrees: real, budget: nat, parallelism: nat)
  {
    function MaxDepth(): nat
    {
      if allowSplitting then maxSplitDepth else 0
    }
  }

  function Max(a: real, b: real): real
  {
    if a > b then a else b
  }

  function Width(b: Bbox): real
  {
    Max(0.0, b.maxx - b.minx)
  }

  function Height(b: Bbox): real
  {
    Max(0.0, b.maxy - b.miny)
  }

  /** A call failed, or a very large box returned almost nothing. */
  predicate WantsSplit(cfg: Config, c: Call)
  {
    c.got.errs != [] ||
    (Max(Width(c.item.box), Height(c.item.box)) >= Max(2.0, cfg.minDegrees * 2.0) && |c.got.feats| < 10)
  }

  predicate Splits(cfg: Config, c: Call)
  {
    && cfg.allowSplitting && WantsSplit(cfg, c)
    && c.item.depth < cfg.MaxDepth()
    && !(Width(c.item.box) <= cfg.minDegrees && Height(c.item.box) <= cfg.minDegrees)
  }

  /** When a call is retried in quarters: splitting is on, the depth allows it, the box is wider or
      taller than the least size, and it failed or is large and answered almost nothing. */
  predicate Retried(cfg: Config, c: Call)
  {
    var b, least := c.item.box, cfg.minDegrees;
    var w, h := b.maxx - b.minx, b.maxy - b.miny;
    && cfg.allowSplitting && c.item.depth < cfg.maxSplitDepth
    && (least < 0.0 || w > least || h > least)
    && (c.got.errs != [] ||
        (|c.got.feats| < 10 && ((w >= 2.0 && w >= 2.0 * least) || (h >= 2.0 && h >= 2.0 * least))))
  }

  lemma SplitsMeans(cfg: Config, c: Call)
    ensures Splits(cfg, c) <==> Retried(cfg, c)
  {
  }

  /** The children a split puts in the queue, last child first. */
  function Children(i: Item): seq<Item>
  {
    var parts := Subdivide(i.box);
    seq(|parts|, k requires 0 <= k < |parts| => Item(parts[|parts| - 1 - k], i.depth + 1, i.seed))
  }

  function Seeded(boxes: seq<Bbox>): seq<Item>
  {
    seq(|boxes|, k requires 0 <= k < |boxes| => Item(boxes[k], 0, k))
  }

  // ---------- results ----------

  function MergeFeats(m: map<string, Feature>, feats: seq<Feature>): map<string, Feature>
    decreases feats
  {
    if feats == [] then m else MergeFeats(m[feats[0].key := feats[0]], feats[1..])
  }

  /** Features of all calls by dedupe key, later calls winning. */
  function Merged(calls: seq<Call>): map<string, Feature>
  {
    if calls == [] then map[] else MergeFeats(Merged(calls[..|calls| - 1]), calls[|calls| - 1].got.feats)
  }

  function MergeErrs(m: map<string, string>, errs: seq<CatalogError>): map<string, string>
    decreases errs
  {
    if errs == [] then m
    else MergeErrs(if errs[0].catalog == "" then m else m[errs[0].catalog := errs[0].detail], errs[1..])
  }

  function AllErrs(calls: seq<Call>): seq<CatalogError>
  {
    if calls == [] then [] else AllErrs(calls[..|calls| - 1]) + calls[|calls| - 1].got.errs
  }

  lemma {:induction false} MergeFeatsKeys(m: map<string, Feature>, feats: seq<Feature>)
    ensures MergeFeats(m, feats).Keys == m.Keys + set f | f in feats :: f.key
    decreases feats
  {
    if feats != [] {
      MergeFeatsKeys(m[feats[0].key := feats[0]], feats[1..]);
      assert feats == [feats[0]] + feats[1..];
    }
  }

  /** No feature of any call is lost: its key is in the result, and no other key is. */
  lemma {:induction false} MergedKeys(calls: seq<Call>)
    ensures forall k :: k in Merged(calls) <==> exists c, f :: c in calls && f in c.got.feats && f.key == k
  {
    if calls != [] {
      var init, last := calls[..|calls| - 1], calls[|calls| - 1];
      MergedKeys(init);
      MergeFeatsKeys(Merged(init), last.got.feats);
      assert calls == init + [last];
    }
  }

  /** The last feature of key `k` that some call returned. */
  ghost predicate LastFeature(calls: seq<Call>, k: string, f: Feature)
  {
    exists n: nat, i: nat ::
      && n < |calls| && i < |calls[n].got.feats| && calls[n].got.feats[i] == f && f.key == k
      && (forall m | i < m < |calls[n].got.feats| :: calls[n].got.feats[m].key != k)
      && LaterWithout(calls, n, k)
  }

  ghost predicate LaterWithout(calls: seq<Call>, n: nat, k: string)
  {
    forall m, g | n < m < |calls| && g in calls[m].got.feats :: g.key != k
  }

  lemma {:induction false} MergeFeatsLast(m: map<string, Feature>, feats: seq<Feature>, k: string)
    requires k in MergeFeats(m, feats)
    ensures var v := MergeFeats(m, feats)[k];
            if forall f | f in feats :: f.key != k then k in m && v == m[k]
            else exists i :: 0 <= i < |feats| && feats[i] == v && v.key == k
                             && forall j | i < j < |feats| :: feats[j].key != k
    decreases feats
  {
    if feats != [] {
      var m', rest := m[feats[0].key := feats[0]], feats[1..];
      MergeFeatsLast(m', rest, k);
      assert feats == [feats[0]] + rest;
      if exists f :: f in rest && f.key == k {
        var v := MergeFeats(m, feats)[k];
        var i :| 0 <= i < |rest| && rest[i] == v && v.key == k && forall j | i < j < |rest| :: rest[j].key != k;
        assert feats[i + 1] == v;
        assert forall j | i + 1 < j < |feats| :: feats[j] == rest[j - 1];
      }
    }
  }

  /** The merged value of a key is the last one that was returned for it. */
  lemma {:induction false} MergedLast(calls: seq<Call>, k: string)
    requires k in Merged(calls)
    ensures LastFeature(calls, k, Merged(calls)[k])
  {
    var init, last := calls[..|calls| - 1], calls[|calls| - 1];
    var feats, v := last.got.feats, Merged(calls)[k];
    MergeFeatsLast(Merged(init), feats, k);
    if forall f | f in feats :: f.key != k {
      MergedLast(init, k);
      var n: nat, i: nat :|
        && n < |init| && i < |init[n].got.feats| && init[n].got.feats[i] == v && v.key == k
        && (forall m | i < m < |init[n].got.feats| :: init[n].got.feats[m].key != k)
        && LaterWithout(init, n, k);
      assert calls[n] == init[n];
      forall m, g | n < m < |calls| && g in calls[m].got.feats ensures g.key != k {
        if m < |init| {
          assert calls[m] == init[m];
        }
      }
      assert LaterWithout(calls, n, k);
    } else {
      var i :| 0 <= i < |feats| && feats[i] == v && v.key == k && forall j | i < j < |feats| :: feats[j].key != k;
      assert calls[|calls| - 1].got.feats[i] == v && LaterWithout(calls, |calls| - 1, k);
    }
  }

  /** The errors in the order in which the calls returned them. */
  lemma {:induction false} AllErrsOrder(calls: seq<Call>, n: nat)
    requires n < |calls|
    ensures |AllErrs(calls[..n])| + |calls[n].got.errs| <= |AllErrs(calls)|
    ensures calls[n].got.errs <= AllErrs(calls)[|AllErrs(calls[..n])|..]
  {
    var init := calls[..|calls| - 1];
    if n == |calls| - 1 {
      assert calls[..n] == init;
    } else {
      AllErrsOrder(init, n);
      assert init[..n] == calls[..n];
    }
  }

  /** The reported errors are, for each catalog that has a name, its last one. */
  lemma {:induction false} ErrorsLast(errs: seq<CatalogError>, k: string)
    ensures k in MergeErrs(map[], errs) <==> k != "" && exists e :: e in errs && e.catalog == k
    ensures k in MergeErrs(map[], errs) ==>
              exists i :: 0 <= i < |errs| && errs[i] == CatalogError(k, MergeErrs(map[], errs)[k])
                          && forall j | i < j < |errs| :: errs[j].catalog != k
  {
    if errs != [] {
      var init, e := errs[..|errs| - 1], errs[|errs| - 1];
      ErrorsLast(init, k);
      MergeErrsStep(map[], init, e);
      assert errs == init + [e];
      if k != "" && e.catalog == k {
        assert errs[|errs| - 1] == CatalogError(k, e.detail);
      } else if k in MergeErrs(map[], init) {
        var i :| 0 <= i < |init| && init[i] == CatalogError(k, MergeErrs(map[], init)[k])
          && forall j | i < j < |init| :: init[j].catalog != k;
        assert errs[i] == init[i];
        assert forall j | i < j < |errs| :: errs[j].catalog != k;
      }
    }
  }

  lemma {:induction false} MergeErrsStep(m: map<string, string>, errs: seq<CatalogError>, e: CatalogError)
    ensures MergeErrs(m, errs + [e])
            == if e.catalog == "" then MergeErrs(m, errs) else MergeErrs(m, errs)[e.catalog := e.detail]
    decreases errs
  {
    if errs == [] {
      assert errs + [e] == [e];
      assert MergeErrs(m, [e]) == if e.catalog == "" then m else m[e.catalog := e.detail];
    } else {
      var m' := if errs[0].catalog == "" then m else m[errs[0].catalog := errs[0].detail];
      MergeErrsStep(m', errs[1..], e);
      assert (errs + [e])[1..] == errs[1..] + [e];
    }
  }

  // ---------- how many calls one seed can cause ----------

  /** Boxes in a full split tree of `n` further levels. */
  function Tree(n: nat): nat
  {
    if n == 0 then 1 else 1 + 4 * Tree(n - 1)
  }

  function Pow4(n: nat): nat
  {
    if n == 0 then 1 else 4 * Pow4(n - 1)
  }

  lemma {:induction false} TreeSize(n: nat)
    ensures 3 * Tree(n) == Pow4(n + 1) - 1
    ensures Tree(2) == 21
  {
    if n > 0 {
      TreeSize(n - 1);
    }
    assert Tree(1) == 5;
  }

  /** Calls the items of one seed can still cause. */
  function Weight(items: seq<Item>, depth: nat, seed: nat): nat
  {
    if items == [] then 0
    else Weight(items[..|items| - 1], depth, seed) + ItemWeight(items[|items| - 1], depth, seed)
  }

  function ItemWeight(i: Item, depth: nat, seed: nat): nat
  {
    if i.seed != seed then 0 else if i.depth <= depth then Tree(depth - i.depth) else 1
  }

  function CallsOf(calls: seq<Call>, seed: nat): nat
  {
    if calls == [] then 0
    else CallsOf(calls[..|calls| - 1], seed) + if calls[|calls| - 1].item.seed == seed then 1 else 0
  }

  lemma {:induction false} WeightConcat(a: seq<Item>, b: seq<Item>, depth: nat, seed: nat)
    ensures Weight(a + b, depth, seed) == Weight(a, depth, seed) + Weight(b, depth, seed)
  {
    if b == [] {
      assert a + b == a;
    } else {
      var init := b[..|b| - 1];
      WeightConcat(a, init, depth, seed);
      assert (a + b)[..|a + b| - 1] == a + init;
    }
  }

  lemma {:induction false} EqualWeights(items: seq<Item>, depth: nat, seed: nat, w: nat)
    requires forall i | i in items :: ItemWeight(i, depth, seed) <= w
    ensures Weight(items, depth, seed) <= |items| * w
  {
    if items != [] {
      var init := items[..|items| - 1];
      EqualWeights(init, depth, seed, w);
      assert items[|items| - 1] in items;
      assert |items| * w == |init| * w + w;
    }
  }

  /** A split weighs no more than the box it replaces, the call for the box itself included. */
  lemma SplitWeighsLess(i: Item, depth: nat, seed: nat)
    requires i.depth < depth && |Subdivide(i.box)| <= 4
    ensures Weight(Children(i), depth, seed) + (if i.seed == seed then 1 else 0) <= ItemWeight(i, depth, seed)
  {
    var w := if i.seed == seed then Tree(depth - i.depth - 1) else 0;
    EqualWeights(Children(i), depth, seed, w);
    var n := |Children(i)|;
    assert n * w <= 4 * w;
  }

  lemma {:induction false} SeedsWeigh(boxes: seq<Bbox>, depth: nat, seed: nat)
    ensures Weight(Seeded(boxes), depth, seed) <= Tree(depth)
    ensures seed >= |boxes| ==> Weight(Seeded(boxes), depth, seed) == 0
  {
    if boxes != [] {
      var init := boxes[..|boxes| - 1];
      SeedsWeigh(init, depth, seed);
      assert Seeded(boxes)[..|boxes| - 1] == Seeded(init);
    }
  }

  lemma FewChildren(b: Bbox)
    ensures |Subdivide(b)| <= 4
  {
    DedupedShorter(Quarters(b));
  }

  // ---------- the search ----------

  ghost predicate Called(log: seq<Call>, i: Item)
  {
    exists n :: 0 <= n < |log| && log[n].item == i
  }

  function Items(calls: seq<Call>): seq<Item>
  {
    seq(|calls|, k requires 0 <= k < |calls| => calls[k].item)
  }

  /** `log` holds the calls made; the answers of the first `p` have been dealt with. */
  ghost predicate SearchInv(cfg: Config, boxes: seq<Bbox>, queue: seq<Item>, log: seq<Call>, p: nat, budget: nat)
  {
    && p <= |log| && |log| + budget == cfg.budget
    && (forall i | i in queue :: i.depth <= cfg.MaxDepth())
    && (forall c | c in log :: c.item.depth <= cfg.MaxDepth())
    && (forall i | i in Seeded(boxes) :: i in queue || Called(log, i))
    && (budget > 0 ==>
          forall n, i | 0 <= n < p && Splits(cfg, log[n]) && i in Children(log[n].item) :: i in queue || Called(log, i))
    && (forall s: nat ::
          CallsOf(log[..p], s) + Weight(Items(log[p..]), cfg.MaxDepth(), s) + Weight(queue, cfg.MaxDepth(), s)
          <= Tree(cfg.MaxDepth()))
  }

  /** Every seed box was fetched, and every child of every box that split. */
  ghost predicate Complete(cfg: Config, boxes: seq<Bbox>, log: seq<Call>)
  {
    && (forall i | i in Seeded(boxes) :: Called(log, i))
    && (forall c, i | c in log && Splits(cfg, c) && i in Children(c.item) :: Called(log, i))
  }

  /** The point lies in a fetched box whose answer was kept as it is. */
  ghost predicate PointSearched(cfg: Config, log: seq<Call>, x: real, y: real)
  {
    exists c :: c in log && !Retried(cfg, c) && Holds(c.item.box, x, y)
  }

  ghost predicate AreaSearched(cfg: Config, boxes: seq<Bbox>, log: seq<Call>)
  {
    forall b, x, y | b in boxes && Holds(b, x, y) :: PointSearched(cfg, log, x, y)
  }

  // ---------- where calls come from ----------

  /** The item is a seed, or one of the quarters of a box that was called before and is retried. */
  ghost predicate Grounded(cfg: Config, boxes: seq<Bbox>, log: seq<Call>, i: Item)
  {
    if i.depth == 0 then i.seed < |boxes| && i.box == boxes[i.seed]
    else exists c :: c in log && Retried(cfg, c) && i.box in Subdivide(c.item.box)
                     && c.item.depth == i.depth - 1 && c.item.seed == i.seed
  }

  /** Every call, and everything still queued, has its reason in an earlier call. */
  ghost predicate AllGrounded(cfg: Config, boxes: seq<Bbox>, queue: seq<Item>, log: seq<Call>)
  {
    && (forall i | i in queue :: Grounded(cfg, boxes, log, i))
    && forall n | 0 <= n < |log| :: Grounded(cfg, boxes, log[..n], log[n].item)
  }

  lemma SeedsGrounded(cfg: Config, boxes: seq<Bbox>)
    ensures AllGrounded(cfg, boxes, Seeded(boxes), [])
  {
  }

  lemma GroundedLater(cfg: Config, boxes: seq<Bbox>, log: seq<Call>, more: seq<Call>, i: Item)
    requires Grounded(cfg, boxes, log, i)
    ensures Grounded(cfg, boxes, log + more, i)
  {
    hide Retried;
    if i.depth > 0 {
      var c :| c in log && Retried(cfg, c) && i.box in Subdivide(c.item.box)
        && c.item.depth == i.depth - 1 && c.item.seed == i.seed;
      assert c in log + more;
    }
  }

  lemma WaveGrounded(cfg: Config, boxes: seq<Bbox>, queue: seq<Item>, log: seq<Call>, n: nat, calls: seq<Call>)
    requires AllGrounded(cfg, boxes, queue, log) && n <= |queue| && Items(calls) == queue[..n]
    ensures AllGrounded(cfg, boxes, queue[n..], log + calls)
  {
    hide Grounded;
    var log' := log + calls;
    forall i | i in queue[n..] ensures Grounded(cfg, boxes, log', i) {
      assert i in queue;
      GroundedLater(cfg, boxes, log, calls, i);
    }
    forall k | 0 <= k < |log'| ensures Grounded(cfg, boxes, log'[..k], log'[k].item) {
      if k < |log| {
        assert log'[..k] == log[..k];
      } else {
        assert Items(calls)[k - |log|] == queue[k - |log|];
        assert queue[k - |log|] in queue;
        GroundedLater(cfg, boxes, log, calls[..k - |log|], queue[k - |log|]);
        assert log'[..k] == log + calls[..k - |log|];
      }
    }
  }

  lemma AnswerGrounded(cfg: Config, boxes: seq<Bbox>, queue: seq<Item>, log: seq<Call>, p: nat, budget: nat,
                       queue': seq<Item>)
    requires AllGrounded(cfg, boxes, queue, log) && p < |log|
    requires queue' == (if Splits(cfg, log[p]) && budget > 0 then Children(log[p].item) else []) + queue
    ensures AllGrounded(cfg, boxes, queue', log)
  {
    var c := log[p];
    SplitsMeans(cfg, c);
    hide Retried, Splits;
    forall i | i in queue' ensures Grounded(cfg, boxes, log, i) {
      if i !in queue {
        assert i in Children(c.item);
        assert c in log && i.box in Subdivide(c.item.box);
      }
    }
  }

  /** The quarters of every box that is to be retried were fetched for the same seed. */
  ghost predicate RetriesMade(cfg: Config, log: seq<Call>)
  {
    forall c, b | c in log && Retried(cfg, c) && b in Subdivide(c.item.box) ::
      Called(log, Item(b, c.item.depth + 1, c.item.seed))
  }

  lemma CompleteRetries(cfg: Config, boxes: seq<Bbox>, log: seq<Call>)
    requires Complete(cfg, boxes, log)
    ensures RetriesMade(cfg, log)
  {
    forall c, b | c in log && Retried(cfg, c) && b in Subdivide(c.item.box)
      ensures Called(log, Item(b, c.item.depth + 1, c.item.seed))
    {
      SplitsMeans(cfg, c);
      hide Retried, Splits, Called;
      var parts := Subdivide(c.item.box);
      var k :| 0 <= k < |parts| && parts[k] == b;
      assert Children(c.item)[|parts| - 1 - k] == Item(b, c.item.depth + 1, c.item.seed);
    }
  }

  lemma StartKeepsInv(cfg: Config, boxes: seq<Bbox>)
    ensures SearchInv(cfg, boxes, Seeded(boxes), [], 0, cfg.budget)
  {
    forall s: nat ensures Weight(Seeded(boxes), cfg.MaxDepth(), s) <= Tree(cfg.MaxDepth()) {
      SeedsWeigh(boxes, cfg.MaxDepth(), s);
    }
  }

  /** Taking a wave off the queue and calling upstream for it. */
  lemma WaveKeepsInv(cfg: Config, boxes: seq<Bbox>, queue: seq<Item>, log: seq<Call>, budget: nat, n: nat,
                     calls: seq<Call>)
    requires SearchInv(cfg, boxes, queue, log, |log|, budget) && n <= |queue| && n <= budget
    requires Items(calls) == queue[..n]
    ensures SearchInv(cfg, boxes, queue[n..], log + calls, |log|, budget - n)
  {
    var log', rest := log + calls, queue[n..];
    assert |calls| == |Items(calls)| == n;
    assert queue == queue[..n] + rest;
    forall i | i in queue && i !in rest ensures Called(log', i) {
      var k :| 0 <= k < n && queue[k] == i;
      assert Items(calls)[k] == i;
      assert log'[|log| + k].item == i;
    }
    forall i | Called(log, i) ensures Called(log', i) {
      var k :| 0 <= k < |log| && log[k].item == i;
      assert log'[k].item == i;
    }
    forall c | c in log' ensures c.item.depth <= cfg.MaxDepth() {
      if c !in log {
        var k :| 0 <= k < |calls| && calls[k] == c;
        assert Items(calls)[k] == c.item && queue[k] in queue;
      }
    }
    assert log'[|log|..] == calls && log'[..|log|] == log && log[|log|..] == [];
    forall s: nat ensures Weight(Items(calls), cfg.MaxDepth(), s) + Weight(rest, cfg.MaxDepth(), s)
                          == Weight(queue, cfg.MaxDepth(), s) {
      WeightConcat(queue[..n], rest, cfg.MaxDepth(), s);
    }
    assert log[..|log|] == log;
    assert forall s: nat :: CallsOf(log[..|log|], s) + Weight(queue, cfg.MaxDepth(), s) <= Tree(cfg.MaxDepth());
  }

  /** Dealing with one answer: the children go in front of the queue if the box splits and any
      budget is left. */
  lemma AnswerKeepsInv(cfg: Config, boxes: seq<Bbox>, queue: seq<Item>, log: seq<Call>, p: nat, budget: nat,
                       queue': seq<Item>)
    requires SearchInv(cfg, boxes, queue, log, p, budget) && p < |log|
    requires queue' == (if Splits(cfg, log[p]) && budget > 0 then Children(log[p].item) else []) + queue
    ensures SearchInv(cfg, boxes, queue', log, p + 1, budget)
  {
    var depth := cfg.MaxDepth();
    var i := log[p].item;
    assert log[p] in log;
    var added := if Splits(cfg, log[p]) && budget > 0 then Children(i) else [];
    assert forall x | x in queue :: x in queue';
    assert forall x | x in added :: x in queue';
    forall s: nat
      ensures CallsOf(log[..p + 1], s) + Weight(Items(log[p + 1..]), depth, s) + Weight(queue', depth, s) <= Tree(depth)
    {
      AnswerWeight(log, p, depth, s);
      WeightConcat(added, queue, depth, s);
      if added != [] {
        FewChildren(i.box);
        SplitWeighsLess(i, depth, s);
      }
      assert CallsOf(log[..p], s) + Weight(Items(log[p..]), depth, s) + Weight(queue, depth, s) <= Tree(depth);
    }
  }

  lemma AnswerWeight(log: seq<Call>, p: nat, depth: nat, seed: nat)
    requires p < |log| && log[p].item.depth <= depth
    ensures var one := if log[p].item.seed == seed then 1 else 0;
            && CallsOf(log[..p + 1], seed) == CallsOf(log[..p], seed) + one
            && Weight(Items(log[p..]), depth, seed)
                == ItemWeight(log[p].item, depth, seed) + Weight(Items(log[p + 1..]), depth, seed)
            && one <= ItemWeight(log[p].item, depth, seed)
  {
    assert log[..p + 1][..p] == log[..p];
    var head := [log[p].item];
    assert Items(log[p..]) == head + Items(log[p + 1..]);
    WeightConcat(head, Items(log[p + 1..]), depth, seed);
    assert head[..0] == [];
    assert Weight(head, depth, seed) == Weight([], depth, seed) + ItemWeight(log[p].item, depth, seed);
  }

  /** The answers are those of the fetch calls numbered from `start` on. */
  predicate Answered(calls: seq<Call>, start: nat, fetch: (Bbox, nat) -> Fetch)
  {
    forall k | 0 <= k < |calls| :: calls[k].got == fetch(calls[k].item.box, start + k)
  }

  lemma AnsweredLonger(log: seq<Call>, calls: seq<Call>, fetch: (Bbox, nat) -> Fetch)
    requires Answered(log, 0, fetch) && Answered(calls, |log|, fetch)
    ensures Answered(log + calls, 0, fetch)
  {
  }

  /** One wave of upstream calls; answers come back in the order of the wave. */
  method RunWave(wave: seq<Item>, fetch: (Bbox, nat) -> Fetch, start: nat) returns (calls: seq<Call>)
    ensures Items(calls) == wave
    ensures |calls| == |wave| && Answered(calls, start, fetch)
  {
    calls := [];
    for k := 0 to |wave|
      invariant Items(calls) == wave[..k] && |calls| == k
      invariant forall m | 0 <= m < k :: calls[m].got == fetch(calls[m].item.box, start + m)
    {
      calls := calls + [Call(wave[k], fetch(wave[k].box, start + k))];
    }
  }

  /** Puts the children of a box that splits in front of the queue, so that holes are filled first. */
  method PushChildren(cfg: Config, c: Call, queue: seq<Item>, budget: nat) returns (queue': seq<Item>)
    ensures queue' == (if Splits(cfg, c) && budget > 0 then Children(c.item) else []) + queue
  {
    queue' := queue;
    if !Splits(cfg, c) {
      return;
    }
    var children := Subdivide(c.item.box);
    for m := 0 to |children|
      invariant queue' == (if budget > 0 then Children(c.item)[|children| - m..] else []) + queue
    {
      if budget <= 0 {
        break;
      }
      queue' := [Item(children[m], c.item.depth + 1, c.item.seed)] + queue';
    }
  }

  function Min(a: nat, b: nat): nat
  {
    if a < b then a else b
  }

  lemma MergedStep(calls: seq<Call>, c: Call)
    ensures Merged(calls + [c]) == MergeFeats(Merged(calls), c.got.feats)
    ensures AllErrs(calls + [c]) == AllErrs(calls) + c.got.errs
  {
    assert (calls + [c])[..|calls|] == calls;
  }

  /** Merges the answers of one wave and queues the children of the boxes that split. */
  method HandleAnswers(cfg: Config, ghost boxes: seq<Bbox>, queue: seq<Item>, ghost log: seq<Call>, calls: seq<Call>,
                       budget: nat, features: map<string, Feature>, errs: seq<CatalogError>)
    returns (queue': seq<Item>, features': map<string, Feature>, errs': seq<CatalogError>)
    requires SearchInv(cfg, boxes, queue, log + calls, |log|, budget)
    requires features == Merged(log) && errs == AllErrs(log) && AllGrounded(cfg, boxes, queue, log + calls)
    ensures SearchInv(cfg, boxes, queue', log + calls, |log + calls|, budget)
    ensures AllGrounded(cfg, boxes, queue', log + calls)
    ensures features' == Merged(log + calls) && errs' == AllErrs(log + calls)
  {
    queue', features', errs' := queue, features, errs;
    hide SearchInv, AllGrounded, Splits, Children, MergeFeats, Merged, AllErrs;
    assert log + calls[..0] == log;
    for k := 0 to |calls|
      invariant SearchInv(cfg, boxes, queue', log + calls, |log| + k, budget)
      invariant AllGrounded(cfg, boxes, queue', log + calls)
      invariant features' == Merged(log + calls[..k]) && errs' == AllErrs(log + calls[..k])
    {
      var c := calls[k];
      features' := MergeFeats(features', c.got.feats);
      errs' := errs' + c.got.errs;
      MergedStep(log + calls[..k], c);
      assert log + calls[..k + 1] == (log + calls[..k]) + [c];
      var queue0 := queue';
      queue' := PushChildren(cfg, c, queue0, budget);
      assert (log + calls)[|log| + k] == c;
      AnswerKeepsInv(cfg, boxes, queue0, log + calls, |log| + k, budget, queue');
      AnswerGrounded(cfg, boxes, queue0, log + calls, |log| + k, budget, queue');
    }
    assert log + calls[..|calls|] == log + calls;
  }

  /** Fetches the seed boxes and the boxes split off them. `log` is the list of upstream calls. */
  method FetchBboxesAdaptive(cfg: Config, seeds: seq<Bbox>, fetch: (Bbox, nat) -> Fetch)
    returns (features: map<string, Feature>, errors: map<string, string>, log: seq<Call>)
    ensures features == Merged(log) && errors == MergeErrs(map[], AllErrs(log))
    ensures |log| <= cfg.budget
    ensures forall k | 0 <= k < |log| :: log[k].got == fetch(log[k].item.box, k)
    ensures forall c | c in log :: c.item.depth <= if cfg.allowSplitting then cfg.maxSplitDepth else 0
    ensures forall s: nat :: CallsOf(log, s) <= Tree(if cfg.allowSplitting then cfg.maxSplitDepth else 0)
    ensures forall n | 0 <= n < |log| :: Grounded(cfg, Deduped(seeds), log[..n], log[n].item)
    ensures |log| < cfg.budget ==>
              && (forall k | 0 <= k < |Deduped(seeds)| :: Called(log, Item(Deduped(seeds)[k], 0, k)))
              && RetriesMade(cfg, log) && AreaSearched(cfg, Deduped(seeds), log)
  {
    features, errors, log := map[], map[], [];
    if seeds == [] {
      return;
    }
    var boxes := DedupeBboxes(seeds);
    var queue := Seeded(boxes);
    var budget := cfg.budget;
    var errs: seq<CatalogError> := [];
    StartKeepsInv(cfg, boxes);
    SeedsGrounded(cfg, boxes);
    hide SearchInv, AllGrounded, Grounded, RetriesMade, Splits, Children, MergeFeats, Merged, AllErrs, Seeded, Deduped;
    hide CallsOf, Tree, Called, MergeErrs, Items, Complete, AreaSearched;
    while queue != [] && budget > 0
      invariant SearchInv(cfg, boxes, queue, log, |log|, budget)
      invariant features == Merged(log) && errs == AllErrs(log) && AllGrounded(cfg, boxes, queue, log)
      invariant Answered(log, 0, fetch)
      decreases budget
    {
      var n := Min(|queue|, Min(if cfg.parallelism == 0 then 1 else cfg.parallelism * 2, budget));
      var calls := RunWave(queue[..n], fetch, |log|);
      WaveKeepsInv(cfg, boxes, queue, log, budget, n, calls);
      WaveGrounded(cfg, boxes, queue, log, n, calls);
      AnsweredLonger(log, calls, fetch);
      queue, budget := queue[n..], budget - n;
      queue, features, errs := HandleAnswers(cfg, boxes, queue, log, calls, budget, features, errs);
      log := log + calls;
    }
    errors := MergeErrs(map[], errs);
    SearchEnds(cfg, boxes, queue, log, budget);
    CallsGrounded(cfg, boxes, queue, log);
    if |log| < cfg.budget {
      SearchCoversArea(cfg, seeds, log);
      CompleteRetries(cfg, boxes, log);
      SeedsCalled(cfg, boxes, log);
    }
  }

  lemma CallsGrounded(cfg: Config, boxes: seq<Bbox>, queue: seq<Item>, log: seq<Call>)
    requires AllGrounded(cfg, boxes, queue, log)
    ensures forall n | 0 <= n < |log| :: Grounded(cfg, boxes, log[..n], log[n].item)
  {
  }

  lemma SeedsCalled(cfg: Config, boxes: seq<Bbox>, log: seq<Call>)
    requires Complete(cfg, boxes, log)
    ensures forall k | 0 <= k < |boxes| :: Called(log, Item(boxes[k], 0, k))
  {
    hide Called;
    forall k | 0 <= k < |boxes| ensures Called(log, Item(boxes[k], 0, k)) {
      assert Seeded(boxes)[k] == Item(boxes[k], 0, k);
    }
  }

  lemma SearchEnds(cfg: Config, boxes: seq<Bbox>, queue: seq<Item>, log: seq<Call>, budget: nat)
    requires SearchInv(cfg, boxes, queue, log, |log|, budget) && (queue == [] || budget == 0)
    ensures |log| <= cfg.budget && forall c | c in log :: c.item.depth <= cfg.MaxDepth()
    ensures forall s: nat :: CallsOf(log, s) <= Tree(cfg.MaxDepth())
    ensures |log| < cfg.budget ==> Complete(cfg, boxes, log)
  {
    assert log[..|log|] == log;
    if |log| < cfg.budget {
      forall c, i | c in log && Splits(cfg, c) && i in Children(c.item) ensures Called(log, i) {
        var n :| 0 <= n < |log| && log[n] == c;
      }
    }
  }

  // ---------- the search leaves no hole ----------

  /** A point of a fetched box lies in some fetched box that did not split, because the children of
      every box that did tile it and were fetched too. */
  lemma {:induction false} PointIsSearched(cfg: Config, boxes: seq<Bbox>, log: seq<Call>, i: Item, x: real, y: real)
    requires Complete(cfg, boxes, log) && forall c | c in log :: c.item.depth <= cfg.MaxDepth()
    requires Called(log, i) && Clean(i.box) && Holds(i.box, x, y)
    ensures PointSearched(cfg, log, x, y)
    decreases cfg.MaxDepth() + 1 - i.depth
  {
    var n :| 0 <= n < |log| && log[n].item == i;
    var c := log[n];
    assert c in log;
    SplitsMeans(cfg, c);
    if Splits(cfg, c) {
      CleanSplits(i.box);
      var parts := Subdivide(i.box);
      var k :| 0 <= k < |parts| && Holds(parts[k], x, y);
      var child := Children(i)[|parts| - 1 - k];
      assert child.box == parts[k] && child in Children(i);
      PointIsSearched(cfg, boxes, log, child, x, y);
    }
  }

  lemma SearchCoversArea(cfg: Config, seeds: seq<Bbox>, log: seq<Call>)
    requires Complete(cfg, Deduped(seeds), log) && forall c | c in log :: c.item.depth <= cfg.MaxDepth()
    ensures AreaSearched(cfg, Deduped(seeds), log)
  {
    var boxes := Deduped(seeds);
    DedupedAreClean(seeds);
    forall b, x, y | b in boxes && Holds(b, x, y) ensures PointSearched(cfg, log, x, y) {
      var k :| 0 <= k < |boxes| && boxes[k] == b;
      var i := Seeded(boxes)[k];
      assert i in Seeded(boxes) && i.box == b;
      PointIsSearched(cfg, boxes, log, i, x, y);
    }
  }

  /** Splitting the area of interest and searching the cells leaves no point of its rounding out. */
  lemma SplitThenSearched(b: Bbox, thrCfg: real, gridCfg: int, cfg: Config, log: seq<Call>, x: real, y: real)
    requires b.maxx - b.minx > 0.00000001 && b.maxy - b.miny > 0.00000001
    requires AreaSearched(cfg, Deduped(InitialSplit(b, thrCfg, gridCfg)), log)
    requires Holds(Rounded(b), x, y)
    ensures PointSearched(cfg, log, x, y)
  {
    InitialSplitHolds(b, thrCfg, gridCfg, x, y);
  }
}
