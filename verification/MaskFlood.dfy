/** Flood fills on a preview mask: hole filling from the border and the largest 4-connected blob. */
module MaskFlood {
  import opened FiniteSets

  type Cell = (int, int)

  predicate Adjacent(a: Cell, b: Cell)
  {
    || (a.0 == b.0 && (a.1 == b.1 + 1 || b.1 == a.1 + 1))
    || (a.1 == b.1 && (a.0 == b.0 + 1 || b.0 == a.0 + 1))
  }

  /** The cells of an h by w mask. */
  function Grid(h: nat, w: nat): set<Cell>
  {
    set i, j | 0 <= i < h && 0 <= j < w :: (i, j)
  }

  predicate OnBorder(h: nat, w: nat, c: Cell)
  {
    c.0 == 0 || c.0 == h - 1 || c.1 == 0 || c.1 == w - 1
  }

  /** The true cells of a mask held in an array. */
  function TrueCells(a: array2<bool>): set<Cell>
    reads a
  {
    set i, j | 0 <= i < a.Length0 && 0 <= j < a.Length1 && a[i, j] :: (i, j)
  }

  lemma SplitLast<T>(s: seq<T>)
    requires s != []
    ensures s == s[..|s| - 1] + [s[|s| - 1]] && s[|s| - 1] in s
  {
  }

  // ---------- 4-connectivity ----------

  ghost predicate PathIn(s: set<Cell>, p: seq<Cell>, a: Cell, b: Cell)
  {
    && |p| > 0 && p[0] == a && p[|p| - 1] == b
    && (forall i | 0 <= i < |p| :: p[i] in s)
    && (forall i | 0 < i < |p| :: Adjacent(p[i - 1], p[i]))
  }

  ghost predicate Linked(s: set<Cell>, a: Cell, b: Cell)
  {
    exists p :: PathIn(s, p, a, b)
  }

  ghost predicate Connected(s: set<Cell>)
  {
    forall a, b | a in s && b in s :: Linked(s, a, b)
  }

  ghost function Component(s: set<Cell>, a: Cell): set<Cell>
  {
    set c | c in s && Linked(s, a, c)
  }

  lemma LinkedSelf(s: set<Cell>, a: Cell)
    requires a in s
    ensures Linked(s, a, a)
  {
    assert PathIn(s, [a], a, a);
  }

  lemma LinkedTrans(s: set<Cell>, a: Cell, b: Cell, c: Cell)
    requires Linked(s, a, b) && Linked(s, b, c)
    ensures Linked(s, a, c)
  {
    var p :| PathIn(s, p, a, b);
    var q :| PathIn(s, q, b, c);
    assert PathIn(s, p + q[1..], a, c);
  }

  lemma LinkedStep(s: set<Cell>, a: Cell, b: Cell, c: Cell)
    requires Linked(s, a, b) && c in s && Adjacent(b, c)
    ensures Linked(s, a, c)
  {
    var p :| PathIn(s, p, a, b);
    assert PathIn(s, p + [c], a, c);
  }

  lemma LinkedSym(s: set<Cell>, a: Cell, b: Cell)
    requires Linked(s, a, b)
    ensures Linked(s, b, a)
  {
    var p :| PathIn(s, p, a, b);
    var q := seq(|p|, i requires 0 <= i < |p| => p[|p| - 1 - i]);
    assert PathIn(s, q, b, a);
  }

  lemma LinkedInLarger(s: set<Cell>, t: set<Cell>, a: Cell, b: Cell)
    requires Linked(s, a, b) && s <= t
    ensures Linked(t, a, b)
  {
    var p :| PathIn(s, p, a, b);
    assert PathIn(t, p, a, b);
  }

  /** No cell of `v` has a neighbour in `s` outside `v`. */
  ghost predicate ClosedIn(s: set<Cell>, v: set<Cell>)
  {
    forall c, d | c in v && d in s && Adjacent(c, d) :: d in v
  }

  lemma ClosedHoldsPath(s: set<Cell>, v: set<Cell>, a: Cell, b: Cell)
    requires ClosedIn(s, v) && a in v && Linked(s, a, b)
    ensures b in v
  {
    var p :| PathIn(s, p, a, b);
    PathStays(s, v, p, |p| - 1);
  }

  lemma {:induction false} PathStays(s: set<Cell>, v: set<Cell>, p: seq<Cell>, k: nat)
    requires ClosedIn(s, v) && k < |p| && PathIn(s, p, p[0], p[|p| - 1]) && p[0] in v
    ensures p[k] in v
  {
    if k > 0 {
      PathStays(s, v, p, k - 1);
      assert Adjacent(p[k - 1], p[k]);
    }
  }

  lemma SameComponent(s: set<Cell>, a: Cell, b: Cell)
    requires Linked(s, a, b)
    ensures Component(s, a) == Component(s, b)
  {
    LinkedSym(s, a, b);
    forall c | c in s ensures Linked(s, a, c) <==> Linked(s, b, c) {
      if Linked(s, a, c) { LinkedTrans(s, b, a, c); }
      if Linked(s, b, c) { LinkedTrans(s, a, b, c); }
    }
  }

  lemma {:induction false} PathPrefixLinked(s: set<Cell>, t: set<Cell>, p: seq<Cell>, k: nat)
    requires k < |p| && PathIn(s, p, p[0], p[|p| - 1])
    requires forall c | c in s && Linked(s, p[0], c) :: c in t
    ensures Linked(s, p[0], p[k]) && Linked(t, p[0], p[k])
  {
    assert PathIn(s, p[..k + 1], p[0], p[k]);
    if k == 0 {
      LinkedSelf(s, p[0]);
      LinkedSelf(t, p[0]);
    } else {
      PathPrefixLinked(s, t, p, k - 1);
      LinkedStep(t, p[0], p[k - 1], p[k]);
    }
  }

  /** A component is connected on its own, and no larger connected region contains it. */
  lemma ComponentIsMaximal(s: set<Cell>, a: Cell)
    requires a in s
    ensures a in Component(s, a) && Component(s, a) <= s && Connected(Component(s, a))
    ensures forall t | t <= s && Connected(t) && Component(s, a) <= t :: t == Component(s, a)
    ensures forall t | t <= s && Connected(t) && a in t :: t <= Component(s, a)
  {
    var k := Component(s, a);
    LinkedSelf(s, a);
    forall b, c | b in k && c in k ensures Linked(k, b, c) {
      LinkWithin(s, a, b);
      LinkWithin(s, a, c);
      LinkedSym(k, a, b);
      LinkedTrans(k, b, a, c);
    }
    forall t, c | t <= s && Connected(t) && a in t && c in t ensures c in k {
      LinkedInLarger(t, s, a, c);
    }
  }

  lemma LinkWithin(s: set<Cell>, a: Cell, b: Cell)
    requires b in Component(s, a)
    ensures Linked(Component(s, a), a, b)
  {
    var p :| PathIn(s, p, a, b);
    PathPrefixLinked(s, Component(s, a), p, |p| - 1);
  }

  // ---------- hole filling ----------

  ghost function Background(h: nat, w: nat, on: set<Cell>): set<Cell>
  {
    Grid(h, w) - on
  }

  /** Some background path joins the background cell `c` to the border. */
  ghost predicate ReachesBorder(h: nat, w: nat, on: set<Cell>, c: Cell)
  {
    exists b :: b in Background(h, w, on) && OnBorder(h, w, b) && Linked(Background(h, w, on), b, c)
  }

  /** The mask with every hole filled: a cell is true when it was, or when no background path
      joins it to the border. */
  ghost function Filled(h: nat, w: nat, on: set<Cell>): set<Cell>
  {
    set c | c in Grid(h, w) && (c in on || !ReachesBorder(h, w, on, c))
  }

  ghost predicate Mirrors(a: array2<bool>, v: set<Cell>)
    reads a
  {
    && v <= Grid(a.Length0, a.Length1)
    && forall i, j | 0 <= i < a.Length0 && 0 <= j < a.Length1 :: a[i, j] <==> (i, j) in v
  }

  /** What the seeds and the flood keep true of the stack and the visited cells. */
  ghost predicate FloodInv(h: nat, w: nat, on: set<Cell>, v: set<Cell>, stack: seq<Cell>)
  {
    var bg := Background(h, w, on);
    && v <= bg
    && (forall c | c in v :: ReachesBorder(h, w, on, c))
    && (forall c | c in stack :: c in bg && ReachesBorder(h, w, on, c))
    && (forall c | c in bg && OnBorder(h, w, c) :: c in v || c in stack)
    && (forall c, d | c in v && d in bg && Adjacent(c, d) :: d in v || d in stack)
  }

  lemma FloodDone(h: nat, w: nat, on: set<Cell>, v: set<Cell>)
    requires FloodInv(h, w, on, v, [])
    ensures forall c | c in Grid(h, w) :: c in v <==> c !in Filled(h, w, on)
  {
    var bg := Background(h, w, on);
    assert ClosedIn(bg, v);
    forall c | c in bg && ReachesBorder(h, w, on, c) ensures c in v {
      var b :| b in bg && OnBorder(h, w, b) && Linked(bg, b, c);
      ClosedHoldsPath(bg, v, b, c);
    }
  }

  lemma SeedReaches(h: nat, w: nat, on: set<Cell>, c: Cell)
    requires c in Background(h, w, on) && OnBorder(h, w, c)
    ensures ReachesBorder(h, w, on, c)
  {
    LinkedSelf(Background(h, w, on), c);
  }

  lemma NeighbourReaches(h: nat, w: nat, on: set<Cell>, c: Cell, d: Cell)
    requires ReachesBorder(h, w, on, c) && d in Background(h, w, on) && Adjacent(c, d)
    ensures ReachesBorder(h, w, on, d)
  {
    var bg := Background(h, w, on);
    var b :| b in bg && OnBorder(h, w, b) && Linked(bg, b, c);
    LinkedStep(bg, b, c, d);
  }

  function Neighbours(c: Cell): seq<Cell>
  {
    [(c.0 - 1, c.1), (c.0 + 1, c.1), (c.0, c.1 - 1), (c.0, c.1 + 1)]
  }

  lemma AdjacentIsNeighbour(c: Cell, d: Cell)
    ensures Adjacent(c, d) <==> d in Neighbours(c)
  {
    var n := Neighbours(c);
    assert n[0] in n && n[1] in n && n[2] in n && n[3] in n;
  }

  /** One visit: the popped cell is marked and its unvisited background neighbours are pushed. */
  lemma VisitKeepsInv(h: nat, w: nat, on: set<Cell>, v: set<Cell>, stack: seq<Cell>, c: Cell, pushed: seq<Cell>)
    requires FloodInv(h, w, on, v, stack + [c])
    requires forall d | d in pushed :: d in Background(h, w, on) && Adjacent(c, d)
    requires forall d | d in Background(h, w, on) && Adjacent(c, d) && d !in v && d != c :: d in pushed
    ensures FloodInv(h, w, on, v + {c}, stack + pushed)
  {
    assert c in stack + [c];
    forall d | d in pushed ensures ReachesBorder(h, w, on, d) {
      NeighbourReaches(h, w, on, c, d);
    }
    forall d | d in stack + [c] ensures d in stack || d == c {}
  }

  method BinaryFillHoles(fg: array2<bool>) returns (out: array2<bool>)
    ensures out.Length0 == fg.Length0 && out.Length1 == fg.Length1
    ensures TrueCells(out) == Filled(fg.Length0, fg.Length1, TrueCells(fg))
    ensures fg.Length0 > 0 && fg.Length1 > 0 ==> fresh(out)
  {
    var h, w := fg.Length0, fg.Length1;
    if h == 0 || w == 0 {
      assert TrueCells(fg) == {} == Grid(h, w);
      return fg;
    }
    ghost var on := TrueCells(fg);
    var bg := new bool[h, w]((i, j) requires 0 <= i < h && 0 <= j < w reads fg => !fg[i, j]);
    assert Mirrors(bg, Background(h, w, on));
    var visited, v := FloodFromBorder(bg, on);
    FloodDone(h, w, on, v);
    out := new bool[h, w]((i, j) requires 0 <= i < h && 0 <= j < w reads fg, bg, visited =>
                            fg[i, j] || (bg[i, j] && !visited[i, j]));
    forall i, j | 0 <= i < h && 0 <= j < w
      ensures out[i, j] <==> (i, j) in Filled(h, w, on)
    {
      assert (i, j) in Grid(h, w);
      assert fg[i, j] <==> (i, j) in on;
    }
    assert TrueCells(out) == Filled(h, w, on);
  }

  /** The stack-driven flood. The stack may hold a cell more than once, so a round either visits
      a new cell or shortens the stack. */
  method FloodFromBorder(bg: array2<bool>, ghost on: set<Cell>) returns (visited: array2<bool>, ghost v: set<Cell>)
    requires bg.Length0 > 0 && bg.Length1 > 0
    requires Mirrors(bg, Background(bg.Length0, bg.Length1, on))
    ensures fresh(visited) && visited.Length0 == bg.Length0 && visited.Length1 == bg.Length1
    ensures Mirrors(visited, v) && FloodInv(bg.Length0, bg.Length1, on, v, [])
  {
    var h, w := bg.Length0, bg.Length1;
    ghost var ground := Background(h, w, on);
    visited := new bool[h, w]((i, j) => false);
    var stack := Seeds(bg, on);
    v := {};
    while stack != []
      invariant Mirrors(bg, ground) && Mirrors(visited, v)
      invariant FloodInv(h, w, on, v, stack)
      decreases ground - v, |stack|
    {
      var c := stack[|stack| - 1];
      PopFacts(h, w, on, v, stack);
      stack := stack[..|stack| - 1];
      if !visited[c.0, c.1] && bg[c.0, c.1] {
        stack := Visit(bg, visited, c, stack, on, v);
        assert c in ground - v;
        v := v + {c};
      }
    }
  }

  /** Marks a background cell and pushes its unvisited background neighbours. */
  method Visit(bg: array2<bool>, visited: array2<bool>, c: Cell, rest: seq<Cell>, ghost on: set<Cell>,
               ghost v: set<Cell>)
    returns (stack: seq<Cell>)
    requires bg != visited && bg.Length0 == visited.Length0 && bg.Length1 == visited.Length1
    requires Mirrors(bg, Background(bg.Length0, bg.Length1, on)) && Mirrors(visited, v)
    requires FloodInv(bg.Length0, bg.Length1, on, v, rest + [c]) && c in Grid(bg.Length0, bg.Length1)
    modifies visited
    ensures Mirrors(visited, v + {c})
    ensures FloodInv(bg.Length0, bg.Length1, on, v + {c}, stack)
  {
    ghost var ground := Background(bg.Length0, bg.Length1, on);
    Mark(visited, c.0, c.1, v);
    var pushed := OpenNeighbours(bg, visited, c.0, c.1, ground, v + {c});
    VisitKeepsInv(bg.Length0, bg.Length1, on, v, rest, c, pushed);
    stack := rest + pushed;
  }

  method Mark(a: array2<bool>, i: int, j: int, ghost v: set<Cell>)
    requires 0 <= i < a.Length0 && 0 <= j < a.Length1 && Mirrors(a, v)
    modifies a
    ensures Mirrors(a, v + {(i, j)})
  {
    a[i, j] := true;
  }

  /** The popped cell is background; if it was visited before, dropping it loses nothing. */
  lemma PopFacts(h: nat, w: nat, on: set<Cell>, v: set<Cell>, stack: seq<Cell>)
    requires FloodInv(h, w, on, v, stack) && stack != []
    ensures var c := stack[|stack| - 1];
            var rest := stack[..|stack| - 1];
            && c in Background(h, w, on) && c in Grid(h, w)
            && FloodInv(h, w, on, v, rest + [c])
            && (c in v ==> FloodInv(h, w, on, v, rest))
  {
    var c := stack[|stack| - 1];
    var rest := stack[..|stack| - 1];
    SplitLast(stack);
    assert forall d | d in stack :: d in rest || d == c;
  }

  /** The background neighbours not visited yet. */
  method OpenNeighbours(bg: array2<bool>, visited: array2<bool>, i: int, j: int, ghost ground: set<Cell>,
                        ghost v: set<Cell>)
    returns (pushed: seq<Cell>)
    requires bg.Length0 == visited.Length0 && bg.Length1 == visited.Length1
    requires Mirrors(bg, ground) && Mirrors(visited, v) && 0 <= i < bg.Length0 && 0 <= j < bg.Length1
    ensures forall d :: d in pushed <==> d in ground && Adjacent((i, j), d) && d !in v
  {
    var h, w := bg.Length0, bg.Length1;
    pushed := [];
    if i > 0 && bg[i - 1, j] && !visited[i - 1, j] {
      pushed := pushed + [(i - 1, j)];
    }
    if i + 1 < h && bg[i + 1, j] && !visited[i + 1, j] {
      pushed := pushed + [(i + 1, j)];
    }
    if j > 0 && bg[i, j - 1] && !visited[i, j - 1] {
      pushed := pushed + [(i, j - 1)];
    }
    if j + 1 < w && bg[i, j + 1] && !visited[i, j + 1] {
      pushed := pushed + [(i, j + 1)];
    }
  }

  /** The background cells of the border, corners more than once. */
  method Seeds(bg: array2<bool>, ghost on: set<Cell>) returns (stack: seq<Cell>)
    requires bg.Length0 > 0 && bg.Length1 > 0
    requires Mirrors(bg, Background(bg.Length0, bg.Length1, on))
    ensures FloodInv(bg.Length0, bg.Length1, on, {}, stack)
  {
    var h, w := bg.Length0, bg.Length1;
    ghost var ground := Background(h, w, on);
    stack := [];
    for j := 0 to w
      invariant forall c | c in stack :: c in ground && OnBorder(h, w, c)
      invariant forall c | c in ground && (c.0 == 0 || c.0 == h - 1) && c.1 < j :: c in stack
    {
      if bg[0, j] {
        stack := stack + [(0, j)];
      }
      if bg[h - 1, j] {
        stack := stack + [(h - 1, j)];
      }
    }
    for i := 0 to h
      invariant forall c | c in stack :: c in ground && OnBorder(h, w, c)
      invariant forall c | c in ground && (c.0 == 0 || c.0 == h - 1) :: c in stack
      invariant forall c | c in ground && (c.1 == 0 || c.1 == w - 1) && c.0 < i :: c in stack
    {
      if bg[i, 0] {
        stack := stack + [(i, 0)];
      }
      if bg[i, w - 1] {
        stack := stack + [(i, w - 1)];
      }
    }
    forall c | c in stack ensures ReachesBorder(h, w, on, c) {
      SeedReaches(h, w, on, c);
    }
  }

  // ---------- what filling holes means ----------

  /** Every cell left false has a path of false cells to the border. */
  ghost predicate NoHoles(h: nat, w: nat, on: set<Cell>)
  {
    forall c | c in Background(h, w, on) :: ReachesBorder(h, w, on, c)
  }

  lemma FilledHasNoHoles(h: nat, w: nat, on: set<Cell>)
    ensures NoHoles(h, w, Filled(h, w, on))
  {
    var bg, f := Background(h, w, on), Filled(h, w, on);
    forall c | c in Background(h, w, f) ensures ReachesBorder(h, w, f, c) {
      var b :| b in bg && OnBorder(h, w, b) && Linked(bg, b, c);
      var p :| PathIn(bg, p, b, c);
      forall d | d in bg && Linked(bg, b, d) ensures d in Background(h, w, f) {
        assert ReachesBorder(h, w, on, d);
      }
      LinkedSelf(bg, b);
      PathPrefixLinked(bg, Background(h, w, f), p, |p| - 1);
    }
  }

  /** Filling gives the least mask that contains the old one and has no holes. */
  lemma FilledIsLeast(h: nat, w: nat, on: set<Cell>, other: set<Cell>)
    requires on <= other <= Grid(h, w) && NoHoles(h, w, other)
    ensures on <= Filled(h, w, on) <= other
  {
    hide Linked, OnBorder, ReachesBorder;
    assert Background(h, w, other) <= Background(h, w, on);
    forall c | c in Background(h, w, other) ensures ReachesBorder(h, w, on, c) {
      ReachesInLarger(h, w, on, other, c);
    }
  }

  lemma ReachesInLarger(h: nat, w: nat, on: set<Cell>, other: set<Cell>, c: Cell)
    requires Background(h, w, other) <= Background(h, w, on) && ReachesBorder(h, w, other, c)
    ensures ReachesBorder(h, w, on, c)
  {
    hide Linked, OnBorder, Background;
    var b :| b in Background(h, w, other) && OnBorder(h, w, b) && Linked(Background(h, w, other), b, c);
    LinkedInLarger(Background(h, w, other), Background(h, w, on), b, c);
  }

  lemma FillIdempotent(h: nat, w: nat, on: set<Cell>)
    requires on <= Grid(h, w)
    ensures Filled(h, w, Filled(h, w, on)) == Filled(h, w, on)
  {
    FilledHasNoHoles(h, w, on);
    FilledIsLeast(h, w, Filled(h, w, on), Filled(h, w, on));
  }

  /** Going straight up from a hole one meets the mask before the border. */
  lemma {:induction false} HoleTouchesMask(h: nat, w: nat, on: set<Cell>, c: Cell) returns (m: Cell)
    requires c in Filled(h, w, on) && c !in on
    ensures m in on && Linked(Filled(h, w, on), c, m)
    decreases c.0
  {
    var f := Filled(h, w, on);
    var d := (c.0 - 1, c.1);
    LinkedSelf(f, c);
    if c.0 == 0 {
      SeedReaches(h, w, on, c);
      assert false;
    }
    assert d in Grid(h, w) && Adjacent(c, d);
    if d in on {
      m := d;
      LinkedStep(f, c, c, d);
    } else {
      if ReachesBorder(h, w, on, d) {
        NeighbourReaches(h, w, on, d, c);
        assert false;
      }
      m := HoleTouchesMask(h, w, on, d);
      LinkedStep(f, c, c, d);
      LinkedTrans(f, c, d, m);
    }
  }

  /** Filling the holes of a connected mask leaves it connected. */
  lemma FillKeepsConnected(h: nat, w: nat, on: set<Cell>)
    requires on <= Grid(h, w) && Connected(on)
    ensures Connected(Filled(h, w, on))
  {
    var f := Filled(h, w, on);
    forall a, b | a in f && b in f ensures Linked(f, a, b) {
      var m, n := a, b;
      LinkedSelf(f, a);
      LinkedSelf(f, b);
      if a !in on { m := HoleTouchesMask(h, w, on, a); }
      if b !in on { n := HoleTouchesMask(h, w, on, b); }
      LinkedInLarger(on, f, m, n);
      LinkedSym(f, b, n);
      LinkedTrans(f, a, m, n);
      LinkedTrans(f, a, n, b);
    }
  }

  // ---------- the largest component ----------

  /** Row-major scan order. */
  predicate Before(a: Cell, b: Cell)
  {
    a.0 < b.0 || (a.0 == b.0 && a.1 < b.1)
  }

  /** No component is larger than that of `s`, and none met earlier in the scan is as large. */
  ghost predicate FirstLargest(on: set<Cell>, s: Cell)
  {
    && s in on
    && forall c | c in on ::
         if Before(c, s) then |Component(on, c)| < |Component(on, s)| else |Component(on, c)| <= |Component(on, s)|
  }

  /** No connected region of the mask exceeds the first largest component. */
  lemma FirstLargestIsLargest(on: set<Cell>, s: Cell, region: set<Cell>)
    requires FirstLargest(on, s) && region <= on && Connected(region)
    ensures |region| <= |Component(on, s)|
  {
    if region != {} {
      var a :| a in region;
      ComponentIsMaximal(on, a);
      SubsetSize(region, Component(on, a));
    }
  }

  /** The flood of one component: `done` has been popped, the stack holds `todo` once each. */
  ghost predicate TraceInv(on: set<Cell>, s: Cell, v0: set<Cell>, v: set<Cell>, done: set<Cell>, stack: seq<Cell>)
  {
    && (forall c | c in stack :: c !in done)
    && (forall a, b | 0 <= a < b < |stack| :: stack[a] != stack[b])
    && v == v0 + done + (set c | c in stack)
    && (forall c | c in done || c in stack :: c in on && c !in v0 && Linked(on, s, c))
    && (forall c, d | c in done && d in on && Adjacent(c, d) :: d in v)
    && (s in done || s in stack)
  }

  lemma TraceDone(on: set<Cell>, s: Cell, v0: set<Cell>, v: set<Cell>, done: set<Cell>)
    requires s in on && TraceInv(on, s, v0, v, done, []) && ClosedIn(on, v0)
    ensures done == Component(on, s) && v == v0 + Component(on, s)
  {
    forall c, d | c in done && d in on && Adjacent(c, d) ensures d in done {
      if d in v0 {
        assert Adjacent(d, c);
        assert false;
      }
    }
    forall c | c in Component(on, s) ensures c in done {
      ClosedHoldsPath(on, done, s, c);
    }
  }

  lemma TraceKeepsInv(on: set<Cell>, s: Cell, v0: set<Cell>, v: set<Cell>, done: set<Cell>, rest: seq<Cell>, c: Cell,
                      pushed: seq<Cell>)
    requires TraceInv(on, s, v0, v, done, rest + [c])
    requires forall d :: d in pushed <==> d in on && Adjacent(c, d) && d !in v
    requires forall a, b | 0 <= a < b < |pushed| :: pushed[a] != pushed[b]
    ensures TraceInv(on, s, v0, v + (set d | d in pushed), done + {c}, rest + pushed)
  {
    var old_, new_ := rest + [c], rest + pushed;
    assert old_[|rest|] == c && c in old_;
    assert forall d | d in rest :: d in old_;
    assert forall d | d in old_ :: d in rest || d == c;
    forall a | 0 <= a < |rest| ensures rest[a] != c {
      assert old_[a] == rest[a];
    }
    forall d | d in pushed ensures Linked(on, s, d) {
      LinkedStep(on, s, c, d);
    }
    forall a, b | 0 <= a < b < |new_| ensures new_[a] != new_[b] {
      if b < |rest| {
        assert old_[a] == new_[a] && old_[b] == new_[b];
      } else if a < |rest| {
        assert new_[a] in old_ && new_[b] in pushed;
      }
    }
    assert (set d | d in new_) == (set d | d in rest) + (set d | d in pushed);
    assert (set d | d in old_) == (set d | d in rest) + {c};
  }

  /** Marks and returns the mask neighbours of `c` not visited yet. */
  method MarkNeighbours(fg: array2<bool>, visited: array2<bool>, c: Cell, ghost on: set<Cell>, ghost v: set<Cell>)
    returns (pushed: seq<Cell>)
    requires fg != visited && fg.Length0 == visited.Length0 && fg.Length1 == visited.Length1
    requires Mirrors(fg, on) && Mirrors(visited, v)
    modifies visited
    ensures forall d :: d in pushed <==> d in on && Adjacent(c, d) && d !in v
    ensures forall a, b | 0 <= a < b < |pushed| :: pushed[a] != pushed[b]
    ensures Mirrors(visited, v + set d | d in pushed)
  {
    var h, w := fg.Length0, fg.Length1;
    var around := Neighbours(c);
    pushed := [];
    ghost var seen := v;
    for k := 0 to 4
      invariant seen == v + (set d | d in pushed) && Mirrors(visited, seen)
      invariant forall d :: d in pushed <==> d in around[..k] && d in on && d !in v
      invariant forall a, b | 0 <= a < b < |pushed| :: pushed[a] != pushed[b]
    {
      var (i, j) := around[k];
      assert around[..k + 1] == around[..k] + [(i, j)];
      if 0 <= i < h && 0 <= j < w && fg[i, j] && !visited[i, j] {
        Mark(visited, i, j, seen);
        pushed := pushed + [(i, j)];
        seen := seen + {(i, j)};
      }
    }
    forall d ensures d in around[..4] <==> Adjacent(c, d) {
      AdjacentIsNeighbour(c, d);
      assert around[..4] == around;
    }
  }

  method PopCell(fg: array2<bool>, visited: array2<bool>, comp: array2<bool>, c: Cell, rest: seq<Cell>,
                 ghost on: set<Cell>, ghost s: Cell, ghost v0: set<Cell>, ghost v: set<Cell>, ghost done: set<Cell>)
    returns (stack: seq<Cell>, ghost v': set<Cell>)
    requires fg != visited && comp != visited && comp != fg
    requires fg.Length0 == visited.Length0 == comp.Length0 && fg.Length1 == visited.Length1 == comp.Length1
    requires Mirrors(fg, on) && Mirrors(visited, v) && Mirrors(comp, done)
    requires TraceInv(on, s, v0, v, done, rest + [c]) && c in on
    modifies visited, comp
    ensures Mirrors(visited, v') && Mirrors(comp, done + {c})
    ensures TraceInv(on, s, v0, v', done + {c}, stack)
  {
    Mark(comp, c.0, c.1, done);
    var pushed := MarkNeighbours(fg, visited, c, on, v);
    TraceKeepsInv(on, s, v0, v, done, rest, c, pushed);
    stack := rest + pushed;
    v' := v + set d | d in pushed;
  }

  /** One component, popped off the stack cell by cell; each cell is pushed once. */
  method TraceComponent(fg: array2<bool>, visited: array2<bool>, s: Cell, ghost on: set<Cell>, ghost v0: set<Cell>)
    returns (comp: array2<bool>, n: nat)
    requires fg != visited && fg.Length0 == visited.Length0 && fg.Length1 == visited.Length1
    requires Mirrors(fg, on) && Mirrors(visited, v0) && ClosedIn(on, v0) && s in on && s !in v0
    modifies visited
    ensures fresh(comp) && comp.Length0 == fg.Length0 && comp.Length1 == fg.Length1
    ensures Mirrors(comp, Component(on, s)) && n == |Component(on, s)|
    ensures Mirrors(visited, v0 + Component(on, s))
  {
    comp := new bool[fg.Length0, fg.Length1]((i, j) => false);
    n := 0;
    var stack := [s];
    Mark(visited, s.0, s.1, v0);
    ghost var v, done := v0 + {s}, {};
    LinkedSelf(on, s);
    while stack != []
      invariant Mirrors(visited, v) && Mirrors(comp, done)
      invariant TraceInv(on, s, v0, v, done, stack) && n == |done|
      decreases on - done
    {
      var c := stack[|stack| - 1];
      var rest := stack[..|stack| - 1];
      SplitLast(stack);
      assert c in on - done && |done + {c}| == |done| + 1;
      stack, v := PopCell(fg, visited, comp, c, rest, on, s, v0, v, done);
      n := n + 1;
      done := done + {c};
    }
    TraceDone(on, s, v0, v, done);
  }

  /** The scan has passed every cell before `at`: `v` is the union of the components met, and
      `best` seeds the first largest of them. */
  ghost predicate ScanInv(on: set<Cell>, v: set<Cell>, best: Cell, bestN: nat, at: Cell)
  {
    && v <= on && ClosedIn(on, v)
    && (forall c | c in on && Before(c, at) :: c in v)
    && (bestN == 0 <==> v == {})
    && (bestN > 0 ==> best in v && Before(best, at) && bestN == |Component(on, best)|)
    && (forall c | c in v :: |Component(on, c)| <= bestN && (Before(c, best) ==> |Component(on, c)| < bestN))
  }

  lemma FreshComponent(on: set<Cell>, v: set<Cell>, s: Cell)
    requires v <= on && ClosedIn(on, v) && s in on && s !in v
    ensures Component(on, s) !! v && s in Component(on, s) && |Component(on, s)| > 0
    ensures v + Component(on, s) <= on && ClosedIn(on, v + Component(on, s))
  {
    var k := Component(on, s);
    LinkedSelf(on, s);
    assert s in k && |k| > 0;
    forall c | c in k ensures c !in v {
      if c in v {
        LinkedSym(on, s, c);
        ClosedHoldsPath(on, v, c, s);
      }
    }
    forall c, d | c in k && d in on && Adjacent(c, d) ensures d in k {
      LinkedStep(on, s, c, d);
    }
  }

  lemma ScanMeetsComponent(on: set<Cell>, v: set<Cell>, best: Cell, bestN: nat, s: Cell, best': Cell, bestN': nat)
    requires ScanInv(on, v, best, bestN, s) && s in on && s !in v
    requires var n := |Component(on, s)|;
             if n > bestN then best' == s && bestN' == n else best' == best && bestN' == bestN
    ensures ScanInv(on, v + Component(on, s), best', bestN', (s.0, s.1 + 1))
  {
    FreshComponent(on, v, s);
    NewBest(on, v, best, bestN, s, best', bestN');
    hide Component, ClosedIn;
    forall c | c in on && Before(c, (s.0, s.1 + 1)) ensures c in v + Component(on, s) {
      NextInRow(c, s);
    }
    NextInRow(best', s);
  }

  /** The better of the old best and a component met later is the first largest so far. */
  lemma NewBest(on: set<Cell>, v: set<Cell>, best: Cell, bestN: nat, s: Cell, best': Cell, bestN': nat)
    requires ScanInv(on, v, best, bestN, s) && s in on && s !in v
    requires var n := |Component(on, s)|;
             if n > bestN then best' == s && bestN' == n else best' == best && bestN' == bestN
    ensures forall c | c in v + Component(on, s) ::
              |Component(on, c)| <= bestN' && (Before(c, best') ==> |Component(on, c)| < bestN')
  {
    FreshComponent(on, v, s);
    forall c | c in v + Component(on, s)
      ensures |Component(on, c)| <= bestN' && (Before(c, best') ==> |Component(on, c)| < bestN')
    {
      if c in Component(on, s) {
        SameComponent(on, s, c);
        assert !Before(c, s);
      }
    }
  }

  lemma NextInRow(c: Cell, s: Cell)
    ensures Before(c, (s.0, s.1 + 1)) <==> Before(c, s) || c == s
  {
    assert c == (c.0, c.1) && s == (s.0, s.1);
  }

  lemma ScanPassesCell(on: set<Cell>, v: set<Cell>, best: Cell, bestN: nat, s: Cell)
    requires ScanInv(on, v, best, bestN, s) && (s !in on || s in v)
    ensures ScanInv(on, v, best, bestN, (s.0, s.1 + 1))
  {
  }

  lemma ScanEndsRow(h: nat, w: nat, on: set<Cell>, v: set<Cell>, best: Cell, bestN: nat, i: int)
    requires on <= Grid(h, w) && ScanInv(on, v, best, bestN, (i, w))
    ensures ScanInv(on, v, best, bestN, (i + 1, 0))
  {
  }

  lemma ScanDone(h: nat, w: nat, on: set<Cell>, v: set<Cell>, best: Cell, bestN: nat)
    requires on <= Grid(h, w) && on != {} && ScanInv(on, v, best, bestN, (h, 0))
    ensures bestN > 0 && FirstLargest(on, best)
  {
    assert forall c | c in on :: Before(c, (h, 0));
    var c :| c in on;
  }

  ghost predicate Mask(a: array2<bool>, h: nat, w: nat, on: set<Cell>)
    reads a
  {
    a.Length0 == h && a.Length1 == w && Mirrors(a, on)
  }

  /** One cell of the scan: a new component is traced and compared with the best so far. */
  method ScanCell(fg: array2<bool>, visited: array2<bool>, best: array2<bool>, bestN: nat, at: Cell,
                  ghost on: set<Cell>, ghost s: Cell, ghost v: set<Cell>)
    returns (best': array2<bool>, bestN': nat, ghost s': Cell, ghost v': set<Cell>)
    requires fg != visited && fg.Length0 == visited.Length0 && fg.Length1 == visited.Length1
    requires Mirrors(fg, on) && Mirrors(visited, v) && at in Grid(fg.Length0, fg.Length1)
    requires ScanInv(on, v, s, bestN, at)
    requires bestN > 0 ==> best != visited && Mask(best, fg.Length0, fg.Length1, Component(on, s))
    modifies visited
    ensures Mirrors(visited, v') && ScanInv(on, v', s', bestN', (at.0, at.1 + 1))
    ensures best' == best || fresh(best')
    ensures bestN' >= bestN
    ensures bestN' > 0 ==> best' != visited && Mask(best', fg.Length0, fg.Length1, Component(on, s'))
    ensures bestN' > 0 && best' == best ==> bestN > 0
  {
    best', bestN', s', v' := best, bestN, s, v;
    if !fg[at.0, at.1] || visited[at.0, at.1] {
      ScanPassesCell(on, v, s, bestN, at);
      return;
    }
    var comp, n := TraceComponent(fg, visited, at, on, v);
    v' := v + Component(on, at);
    if n > bestN {
      best', bestN', s' := comp, n, at;
    }
    ScanMeetsComponent(on, v, s, bestN, at, s', bestN');
  }

  /** One row of the scan. */
  method ScanRow(fg: array2<bool>, visited: array2<bool>, best: array2<bool>, bestN: nat, si: nat,
                 ghost on: set<Cell>, ghost s: Cell, ghost v: set<Cell>)
    returns (best': array2<bool>, bestN': nat, ghost s': Cell, ghost v': set<Cell>)
    requires fg != visited && fg.Length0 == visited.Length0 && fg.Length1 == visited.Length1 && si < fg.Length0
    requires Mirrors(fg, on) && Mirrors(visited, v) && ScanInv(on, v, s, bestN, (si, 0))
    requires bestN > 0 ==> best != visited && Mask(best, fg.Length0, fg.Length1, Component(on, s))
    modifies visited
    ensures Mirrors(visited, v') && ScanInv(on, v', s', bestN', (si + 1, 0))
    ensures best' == best || fresh(best')
    ensures bestN' > 0 ==> best' != visited && Mask(best', fg.Length0, fg.Length1, Component(on, s'))
    ensures bestN' > 0 && best' == best ==> bestN > 0
  {
    best', bestN', s', v' := best, bestN, s, v;
    var h, w := fg.Length0, fg.Length1;
    ScanInGrid(fg, on);
    hide ScanInv, Component, Mirrors, Mask;
    for sj := 0 to w
      invariant Mirrors(visited, v') && ScanInv(on, v', s', bestN', (si, sj))
      invariant best' == best || fresh(best')
      invariant bestN' > 0 ==> best' != visited && Mask(best', h, w, Component(on, s'))
      invariant bestN' > 0 && best' == best ==> bestN > 0
      invariant bestN' >= bestN
    {
      best', bestN', s', v' := ScanCell(fg, visited, best', bestN', (si, sj), on, s', v');
    }
    ScanEndsRow(h, w, on, v', s', bestN', si);
  }

  lemma ScanInGrid(fg: array2<bool>, on: set<Cell>)
    requires Mirrors(fg, on)
    ensures on <= Grid(fg.Length0, fg.Length1)
  {
  }

  /** The first largest 4-connected component, or the mask itself when it is empty. */
  method LargestConnectedComponent(fg: array2<bool>) returns (r: array2<bool>, ghost s: Cell)
    ensures r.Length0 == fg.Length0 && r.Length1 == fg.Length1
    ensures TrueCells(fg) == {} ==> r == fg
    ensures TrueCells(fg) != {} ==>
              fresh(r) && FirstLargest(TrueCells(fg), s) && TrueCells(r) == Component(TrueCells(fg), s)
  {
    var h, w := fg.Length0, fg.Length1;
    ghost var on := TrueCells(fg);
    var any := Any(fg);
    s := (0, 0);
    if !any {
      return fg, s;
    }
    assert Mirrors(fg, on);
    var visited := new bool[h, w]((i, j) => false);
    var best := fg;
    var bestN: nat := 0;
    ghost var v: set<Cell> := {};
    ScanInGrid(fg, on);
    ScanStarts(h, w, on);
    assert Mirrors(visited, v);
    hide ScanInv, Component, Mirrors, FirstLargest, TrueCells, Mask, Grid;
    for si := 0 to h
      invariant Mirrors(visited, v) && ScanInv(on, v, s, bestN, (si, 0))
      invariant bestN > 0 ==> fresh(best) && best != visited && Mask(best, h, w, Component(on, s))
    {
      best, bestN, s, v := ScanRow(fg, visited, best, bestN, si, on, s, v);
    }
    ScanDone(h, w, on, v, s, bestN);
    r := best;
    MaskCells(r, h, w, Component(on, s));
  }

  lemma ScanStarts(h: nat, w: nat, on: set<Cell>)
    requires on <= Grid(h, w)
    ensures ScanInv(on, {}, (0, 0), 0, (0, 0))
  {
  }

  lemma MirrorsAll(a: array2<bool>, v: set<Cell>)
    requires Mirrors(a, v)
    ensures TrueCells(a) == v
  {
  }

  lemma MaskCells(a: array2<bool>, h: nat, w: nat, on: set<Cell>)
    requires Mask(a, h, w, on)
    ensures TrueCells(a) == on && a.Length0 == h && a.Length1 == w
  {
    MirrorsAll(a, on);
  }

  method Any(fg: array2<bool>) returns (any: bool)
    ensures any <==> TrueCells(fg) != {}
  {
    for i := 0 to fg.Length0
      invariant forall c | c in TrueCells(fg) :: c.0 >= i
    {
      for j := 0 to fg.Length1
        invariant forall c | c in TrueCells(fg) :: c.0 > i || (c.0 == i && c.1 >= j)
      {
        if fg[i, j] {
          assert (i, j) in TrueCells(fg);
          return true;
        }
      }
    }
    return false;
  }

  /** The refinement of a preview mask: keep the largest blob, then fill its holes. The result is
      one 4-connected region without holes. */
  method RefineMask(fg: array2<bool>) returns (r: array2<bool>, ghost s: Cell)
    ensures r.Length0 == fg.Length0 && r.Length1 == fg.Length1
    ensures Connected(TrueCells(r)) && NoHoles(r.Length0, r.Length1, TrueCells(r))
    ensures TrueCells(fg) == {} ==> TrueCells(r) == {}
    ensures TrueCells(fg) != {} ==>
              FirstLargest(TrueCells(fg), s) &&
              TrueCells(r) == Filled(fg.Length0, fg.Length1, Component(TrueCells(fg), s))
  {
    ghost var h, w, on := fg.Length0, fg.Length1, TrueCells(fg);
    var blob;
    blob, s := LargestConnectedComponent(fg);
    r := BinaryFillHoles(blob);
    FilledHasNoHoles(h, w, TrueCells(blob));
    if on != {} {
      ComponentIsMaximal(on, s);
    }
    FillKeepsConnected(h, w, TrueCells(blob));
    if on == {} {
      assert NoHoles(h, w, {}) by { EmptyHasNoHoles(h, w); }
      FilledIsLeast(h, w, {}, {});
    }
  }

  /** With nothing true, every cell reaches the border: straight up. */
  lemma EmptyHasNoHoles(h: nat, w: nat)
    ensures NoHoles(h, w, {})
  {
    forall c | c in Background(h, w, {}) ensures ReachesBorder(h, w, {}, c) {
      if c in Filled(h, w, {}) {
        var m := HoleTouchesMask(h, w, {}, c);
      }
    }
  }
}
