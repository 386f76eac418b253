/** Splitting a search box into a grid: rounding to six decimals, dropping of flat cells and
    duplicates, and the tiling that survives it. */
module BboxTiling {

  datatype Bbox = Bbox(minx: real, miny: real, maxx: real, maxy: real)

  // ---------- rounding ----------

  /** Nearest integer, ties to the even one. */
  function RoundInt(y: real): int
  {
    var f := y.Floor;
    var d := y - f as real;
    if d < 0.5 then f else if d > 0.5 then f + 1 else if f % 2 == 0 then f else f + 1
  }

  const MICRO: real := 1000000.0

  function Round6(x: real): real
  {
    RoundInt(x * MICRO) as real / MICRO
  }

  lemma RoundIntMonotone(a: real, b: real)
    requires a <= b
    ensures RoundInt(a) <= RoundInt(b)
  {
    assert a.Floor <= b.Floor;
  }

  lemma RoundIntOfInt(n: int)
    ensures RoundInt(n as real) == n
  {
  }

  lemma Round6Monotone(a: real, b: real)
    requires a <= b
    ensures Round6(a) <= Round6(b)
  {
    RoundIntMonotone(a * MICRO, b * MICRO);
  }

  lemma Round6Idempotent(x: real)
    ensures Round6(Round6(x)) == Round6(x)
  {
    assert Round6(x) * MICRO == RoundInt(x * MICRO) as real;
    RoundIntOfInt(RoundInt(x * MICRO));
  }

  lemma Round6Near(x: real)
    ensures x - 0.0000005 <= Round6(x) <= x + 0.0000005
  {
    var n := RoundInt(x * MICRO);
    assert x * MICRO - 0.5 <= n as real <= x * MICRO + 0.5;
  }

  /** The result is a whole number of millionths, the nearest one, and of two the even one. */
  lemma Round6Exactly(x: real) returns (n: int)
    ensures Round6(x) * 1000000.0 == n as real
    ensures -0.5 <= x * 1000000.0 - n as real <= 0.5
    ensures x * 1000000.0 - n as real == 0.5 || x * 1000000.0 - n as real == -0.5 ==> n % 2 == 0
  {
    n := RoundInt(x * MICRO);
  }

  /** Two rounded numbers are equal or a millionth apart, so the 1e-9 slack never bites. */
  lemma Round6Apart(a: real, b: real)
    ensures Round6(a) < Round6(b) <==> !(Round6(a) >= Round6(b) - 0.000000001)
  {
    var m, n := RoundInt(a * MICRO), RoundInt(b * MICRO);
    if m < n {
      assert m as real + 1.0 <= n as real;
    }
  }

  function Rounded(b: Bbox): Bbox
  {
    Bbox(Round6(b.minx), Round6(b.miny), Round6(b.maxx), Round6(b.maxy))
  }

  // ---------- dedupe ----------

  predicate TooFlat(k: Bbox)
  {
    k.minx >= k.maxx - 0.000000001 || k.miny >= k.maxy - 0.000000001
  }

  /** The rounded boxes that are not flat, each at its first occurrence. */
  function Deduped(boxes: seq<Bbox>): seq<Bbox>
  {
    if boxes == [] then []
    else
      var init, k := Deduped(boxes[..|boxes| - 1]), Rounded(boxes[|boxes| - 1]);
      if k in init || TooFlat(k) then init else init + [k]
  }

  method DedupeBboxes(boxes: seq<Bbox>) returns (out: seq<Bbox>)
    ensures out == Deduped(boxes)
  {
    var seen: set<Bbox> := {};
    out := [];
    for i := 0 to |boxes|
      invariant out == Deduped(boxes[..i])
      invariant forall k :: k in seen <==> k in out
    {
      assert boxes[..i + 1][..i] == boxes[..i];
      var key := Rounded(boxes[i]);
      if key in seen {
        continue;
      }
      if key.minx >= key.maxx - 0.000000001 || key.miny >= key.maxy - 0.000000001 {
        continue;
      }
      seen := seen + {key};
      out := out + [key];
    }
    assert boxes[..|boxes|] == boxes;
  }

  /** Exactly the roundings that are not flat are kept, each once. */
  lemma {:induction false} DedupedMembers(boxes: seq<Bbox>)
    ensures forall k :: k in Deduped(boxes) <==> !TooFlat(k) && exists i :: 0 <= i < |boxes| && Rounded(boxes[i]) == k
    ensures forall i, j | 0 <= i < j < |Deduped(boxes)| :: Deduped(boxes)[i] != Deduped(boxes)[j]
  {
    if boxes != [] {
      var init, last := boxes[..|boxes| - 1], boxes[|boxes| - 1];
      DedupedMembers(init);
      forall k
        ensures k in Deduped(boxes) <==> !TooFlat(k) && exists i :: 0 <= i < |boxes| && Rounded(boxes[i]) == k
      {
        if i :| 0 <= i < |boxes| && Rounded(boxes[i]) == k {
          assert i < |init| ==> Rounded(init[i]) == k;
        }
        if i :| 0 <= i < |init| && Rounded(init[i]) == k {
          assert Rounded(boxes[i]) == k;
        }
      }
    }
  }

  /** Rounded already, and not flat. */
  predicate Clean(b: Bbox)
  {
    Rounded(b) == b && !TooFlat(b)
  }

  lemma DedupedAreClean(boxes: seq<Bbox>)
    ensures forall k | k in Deduped(boxes) :: Clean(k)
  {
    DedupedMembers(boxes);
    forall k | k in Deduped(boxes) ensures Clean(k) {
      var i :| 0 <= i < |boxes| && Rounded(boxes[i]) == k;
      Round6Idempotent(boxes[i].minx);
      Round6Idempotent(boxes[i].miny);
      Round6Idempotent(boxes[i].maxx);
      Round6Idempotent(boxes[i].maxy);
    }
  }

  /** Boxes that are clean survive another round of rounding and dedupe. */
  lemma CleanSurvive(boxes: seq<Bbox>, b: Bbox)
    requires b in boxes && Clean(b)
    ensures b in Deduped(boxes)
  {
    DedupedMembers(boxes);
    var i :| 0 <= i < |boxes| && boxes[i] == b;
    assert Rounded(boxes[i]) == b;
  }

  // ---------- grids ----------

  ghost predicate Rising(xs: seq<real>)
  {
    |xs| >= 2 && forall i, j | 0 <= i <= j < |xs| :: xs[i] <= xs[j]
  }

  function CellAt(xs: seq<real>, ys: seq<real>, i: nat, j: nat): Bbox
    requires i + 1 < |xs| && j + 1 < |ys|
  {
    Bbox(xs[i], ys[j], xs[i + 1], ys[j + 1])
  }

  /** `cells` are the cells between consecutive grid lines, in any order, perhaps repeated. */
  ghost predicate IsGrid(cells: seq<Bbox>, xs: seq<real>, ys: seq<real>)
    requires |xs| >= 2 && |ys| >= 2
  {
    && (forall c | c in cells :: exists i: nat, j: nat :: i + 1 < |xs| && j + 1 < |ys| && c == CellAt(xs, ys, i, j))
    && (forall i: nat, j: nat | i + 1 < |xs| && j + 1 < |ys| :: CellAt(xs, ys, i, j) in cells)
  }

  /** The point lies in the box, its lower and left edges included. */
  predicate Holds(b: Bbox, x: real, y: real)
  {
    b.minx <= x < b.maxx && b.miny <= y < b.maxy
  }

  predicate Inside(inner: Bbox, outer: Bbox)
  {
    outer.minx <= inner.minx && inner.maxx <= outer.maxx && outer.miny <= inner.miny && inner.maxy <= outer.maxy
  }

  /** `cells` partition `whole`: each lies in it, and each of its points is in exactly one. */
  ghost predicate Tiles(cells: seq<Bbox>, whole: Bbox)
  {
    && (forall c | c in cells :: Inside(c, whole))
    && (forall x, y | Holds(whole, x, y) :: exists i :: 0 <= i < |cells| && Holds(cells[i], x, y))
    && (forall x, y, i, j | 0 <= i < |cells| && 0 <= j < |cells| && Holds(cells[i], x, y)
        && Holds(cells[j], x, y) :: i == j)
  }

  /** The gap of the rounded lines that holds `x`. */
  lemma {:induction false} FindGap(xs: seq<real>, x: real, n: nat) returns (i: nat)
    requires Rising(xs) && 0 < n < |xs| && Round6(xs[0]) <= x < Round6(xs[n])
    ensures i < n && Round6(xs[i]) <= x < Round6(xs[i + 1])
  {
    if x < Round6(xs[n - 1]) {
      i := FindGap(xs, x, n - 1);
    } else {
      i := n - 1;
    }
  }

  lemma GapUnique(xs: seq<real>, x: real, i: nat, j: nat)
    requires Rising(xs) && i + 1 < |xs| && j + 1 < |xs|
    requires Round6(xs[i]) <= x < Round6(xs[i + 1]) && Round6(xs[j]) <= x < Round6(xs[j + 1])
    ensures i == j
  {
    if i < j { Round6Monotone(xs[i + 1], xs[j]); }
    if j < i { Round6Monotone(xs[j + 1], xs[i]); }
  }

  /** Rounding, dropping flat cells and removing duplicates leave a partition of the rounded box. */
  lemma RoundedGridTiles(cells: seq<Bbox>, xs: seq<real>, ys: seq<real>)
    requires Rising(xs) && Rising(ys) && IsGrid(cells, xs, ys)
    ensures Tiles(Deduped(cells), Rounded(Bbox(xs[0], ys[0], xs[|xs| - 1], ys[|ys| - 1])))
  {
    var out := Deduped(cells);
    var whole := Rounded(Bbox(xs[0], ys[0], xs[|xs| - 1], ys[|ys| - 1]));
    DedupedMembers(cells);
    forall k | k in out ensures Inside(k, whole) {
      var i, j := OriginOf(cells, xs, ys, k);
      Round6Monotone(xs[0], xs[i]); Round6Monotone(xs[i + 1], xs[|xs| - 1]);
      Round6Monotone(ys[0], ys[j]); Round6Monotone(ys[j + 1], ys[|ys| - 1]);
    }
    forall x, y | Holds(whole, x, y) ensures exists m :: 0 <= m < |out| && Holds(out[m], x, y) {
      var i := FindGap(xs, x, |xs| - 1);
      var j := FindGap(ys, y, |ys| - 1);
      var c := CellAt(xs, ys, i, j);
      Round6Apart(xs[i], xs[i + 1]);
      Round6Apart(ys[j], ys[j + 1]);
      assert c in cells && !TooFlat(Rounded(c));
      assert Rounded(c) in out;
    }
    forall x, y, m, n | 0 <= m < |out| && 0 <= n < |out| && Holds(out[m], x, y) && Holds(out[n], x, y)
      ensures m == n
    {
      var i, j := OriginOf(cells, xs, ys, out[m]);
      var p, q := OriginOf(cells, xs, ys, out[n]);
      GapUnique(xs, x, i, p);
      GapUnique(ys, y, j, q);
    }
  }

  lemma OriginOf(cells: seq<Bbox>, xs: seq<real>, ys: seq<real>, k: Bbox) returns (i: nat, j: nat)
    requires |xs| >= 2 && |ys| >= 2 && IsGrid(cells, xs, ys) && k in Deduped(cells)
    ensures i + 1 < |xs| && j + 1 < |ys| && k == Rounded(CellAt(xs, ys, i, j))
  {
    DedupedMembers(cells);
    var m :| 0 <= m < |cells| && Rounded(cells[m]) == k;
    assert cells[m] in cells;
    i, j :| i + 1 < |xs| && j + 1 < |ys| && cells[m] == CellAt(xs, ys, i, j);
  }

  // ---------- the 2x2 split ----------

  predicate IsDegenerate(b: Bbox)
  {
    b.minx >= b.maxx - 0.000000000001 || b.miny >= b.maxy - 0.000000000001
  }

  function Quarters(b: Bbox): seq<Bbox>
  {
    var mx, my := (b.minx + b.maxx) / 2.0, (b.miny + b.maxy) / 2.0;
    [Bbox(b.minx, b.miny, mx, my), Bbox(mx, b.miny, b.maxx, my),
     Bbox(b.minx, my, mx, b.maxy), Bbox(mx, my, b.maxx, b.maxy)]
  }

  function Subdivide(b: Bbox): seq<Bbox>
  {
    if IsDegenerate(b) then [] else Deduped(Quarters(b))
  }

  lemma QuartersAreGrid(b: Bbox)
    requires b.minx <= b.maxx && b.miny <= b.maxy
    ensures var xs := [b.minx, (b.minx + b.maxx) / 2.0, b.maxx];
            var ys := [b.miny, (b.miny + b.maxy) / 2.0, b.maxy];
            Rising(xs) && Rising(ys) && IsGrid(Quarters(b), xs, ys)
  {
    var xs := [b.minx, (b.minx + b.maxx) / 2.0, b.maxx];
    var ys := [b.miny, (b.miny + b.maxy) / 2.0, b.maxy];
    var cells := Quarters(b);
    assert cells[0] == CellAt(xs, ys, 0, 0) && cells[1] == CellAt(xs, ys, 1, 0) &&
           cells[2] == CellAt(xs, ys, 0, 1) && cells[3] == CellAt(xs, ys, 1, 1);
    forall i: nat, j: nat | i + 1 < |xs| && j + 1 < |ys| ensures CellAt(xs, ys, i, j) in cells {
      assert CellAt(xs, ys, i, j) == cells[i + 2 * j];
    }
    forall c | c in cells ensures exists i: nat, j: nat :: i + 1 < |xs| && j + 1 < |ys| && c == CellAt(xs, ys, i, j) {
      var k :| 0 <= k < |cells| && cells[k] == c;
    }
  }

  /** The children of a box that is not degenerate partition its rounding; there are at most four. */
  lemma SubdivideTiles(b: Bbox)
    requires !IsDegenerate(b)
    ensures Tiles(Subdivide(b), Rounded(b)) && |Subdivide(b)| <= 4
  {
    QuartersAreGrid(b);
    RoundedGridTiles(Quarters(b), [b.minx, (b.minx + b.maxx) / 2.0, b.maxx], [b.miny, (b.miny + b.maxy) / 2.0, b.maxy]);
    DedupedShorter(Quarters(b));
  }

  /** The children of a clean box are clean and partition the box itself. */
  lemma CleanSplits(b: Bbox)
    requires Clean(b)
    ensures Tiles(Subdivide(b), b) && forall k | k in Subdivide(b) :: Clean(k)
  {
    SubdivideTiles(b);
    DedupedAreClean(Quarters(b));
  }

  lemma {:induction false} DedupedShorter(boxes: seq<Bbox>)
    ensures |Deduped(boxes)| <= |boxes|
  {
    if boxes != [] {
      DedupedShorter(boxes[..|boxes| - 1]);
    }
  }

  // ---------- the initial split ----------

  function Threshold(configured: real): real
  {
    var t := if configured == 0.0 then 6.0 else configured;
    if t < 0.1 then 0.1 else t
  }

  function Ceil(x: real): int
  {
    -((-x).Floor)
  }

  function Min10(n: int): int
  {
    if n < 10 then n else 10
  }

  /** Cells along one axis of length `w`. */
  function Divisions(w: real, thr: real, gridCfg: int): (n: nat)
    requires thr > 0.0
    ensures 2 <= n <= 10
  {
    if gridCfg > 1 then Min10(gridCfg)
    else Min10(if Ceil(w / thr) > 2 then Ceil(w / thr) else 2)
  }

  /** The i-th grid line; the last one is the box's own edge. */
  function Line(lo: real, hi: real, n: nat, i: nat): real
    requires n > 0
  {
    if i == n then hi else lo + i as real * ((hi - lo) / n as real)
  }

  function Lines(lo: real, hi: real, n: nat): (xs: seq<real>)
    requires n > 0
    ensures |xs| == n + 1
  {
    seq(n + 1, i requires 0 <= i < n + 1 => Line(lo, hi, n, i))
  }

  /** Row by row, the cells that are wider and taller than 1e-9. */
  function RowCells(xs: seq<real>, ys: seq<real>, iy: nat, n: nat): seq<Bbox>
    requires n < |xs| && iy + 1 < |ys|
  {
    if n == 0 then []
    else
      var c := CellAt(xs, ys, n - 1, iy);
      RowCells(xs, ys, iy, n - 1) + if c.minx < c.maxx - 0.000000001 && c.miny < c.maxy - 0.000000001 then [c] else []
  }

  function GridCells(xs: seq<real>, ys: seq<real>, m: nat): seq<Bbox>
    requires |xs| >= 2 && m < |ys|
  {
    if m == 0 then [] else GridCells(xs, ys, m - 1) + RowCells(xs, ys, m - 1, |xs| - 1)
  }

  /** What the initial split answers. */
  function InitialSplit(b: Bbox, thrCfg: real, gridCfg: int): seq<Bbox>
  {
    var thr := Threshold(thrCfg);
    var w, h := b.maxx - b.minx, b.maxy - b.miny;
    if b.minx >= b.maxx - 0.000000001 || b.miny >= b.maxy - 0.000000001 then []
    else if w <= thr && h <= thr then [b]
    else
      var gx, gy := Divisions(w, thr, gridCfg), Divisions(h, thr, gridCfg);
      Deduped(GridCells(Lines(b.minx, b.maxx, gx), Lines(b.miny, b.maxy, gy), gy))
  }

  method SplitInitialSearchBboxes(b: Bbox, thrCfg: real, gridCfg: int) returns (out: seq<Bbox>)
    ensures out == InitialSplit(b, thrCfg, gridCfg)
  {
    hide GridCells, Lines, Deduped, Divisions;
    if b.minx >= b.maxx - 0.000000001 || b.miny >= b.maxy - 0.000000001 {
      return [];
    }
    var w, h := b.maxx - b.minx, b.maxy - b.miny;
    var thr := Threshold(thrCfg);
    if w <= thr && h <= thr {
      return [b];
    }
    var gx, gy := Divisions(w, thr, gridCfg), Divisions(h, thr, gridCfg);
    var cells := EvenGrid(b, gx, gy);
    out := DedupeBboxes(cells);
  }

  /** The cells of the grid, bottom row first. */
  method EvenGrid(b: Bbox, gx: nat, gy: nat) returns (cells: seq<Bbox>)
    requires gx > 0 && gy > 0
    ensures cells == GridCells(Lines(b.minx, b.maxx, gx), Lines(b.miny, b.maxy, gy), gy)
  {
    var dx, dy := (b.maxx - b.minx) / gx as real, (b.maxy - b.miny) / gy as real;
    ghost var xs, ys := Lines(b.minx, b.maxx, gx), Lines(b.miny, b.maxy, gy);
    hide Lines;
    cells := [];
    for iy := 0 to gy
      invariant cells == GridCells(xs, ys, iy)
    {
      ghost var below := cells;
      for ix := 0 to gx
        invariant cells == below + RowCells(xs, ys, iy, ix)
      {
        var c := CornersOf(b, gx, gy, ix, iy, dx, dy);
        if c.minx < c.maxx - 0.000000001 && c.miny < c.maxy - 0.000000001 {
          cells := cells + [c];
        }
      }
    }
  }

  /** The corners of one cell; the last column and row end at the box's own edge. */
  method CornersOf(b: Bbox, gx: nat, gy: nat, ix: nat, iy: nat, dx: real, dy: real) returns (c: Bbox)
    requires ix < gx && iy < gy
    requires dx == (b.maxx - b.minx) / gx as real && dy == (b.maxy - b.miny) / gy as real
    ensures c == CellAt(Lines(b.minx, b.maxx, gx), Lines(b.miny, b.maxy, gy), ix, iy)
  {
    LineSteps(b.minx, b.maxx, gx, ix, dx);
    LineSteps(b.miny, b.maxy, gy, iy, dy);
    var x0 := b.minx + ix as real * dx;
    var x1 := if ix == gx - 1 then b.maxx else b.minx + (ix + 1) as real * dx;
    var y0 := b.miny + iy as real * dy;
    var y1 := if iy == gy - 1 then b.maxy else b.miny + (iy + 1) as real * dy;
    c := Bbox(x0, y0, x1, y1);
  }

  /** The two lines that bound cell `i`, as the loop computes them. */
  lemma LineSteps(lo: real, hi: real, n: nat, i: nat, d: real)
    requires n > 0 && i < n && d == (hi - lo) / n as real
    ensures Lines(lo, hi, n)[i] == lo + i as real * d
    ensures Lines(lo, hi, n)[i + 1] == if i == n - 1 then hi else lo + (i + 1) as real * d
  {
  }

  /** Every line, the last one included, is a whole number of steps from the first. */
  lemma LineAt(lo: real, hi: real, n: nat, i: nat, d: real)
    requires n > 0 && i <= n && d == (hi - lo) / n as real
    ensures Lines(lo, hi, n)[i] == lo + i as real * d
  {
    if i == n {
      QuotientTimes(hi - lo, n as real);
    }
  }

  lemma LinesRise(lo: real, hi: real, n: nat)
    requires n > 0 && lo <= hi
    ensures Rising(Lines(lo, hi, n)) && Lines(lo, hi, n)[0] == lo && Lines(lo, hi, n)[n] == hi
  {
    forall i, j | 0 <= i <= j <= n ensures Lines(lo, hi, n)[i] <= Lines(lo, hi, n)[j] {
      LineOrder(lo, hi, n, i, j);
    }
    assert Lines(lo, hi, n)[0] == lo by {
      LineAt(lo, hi, n, 0, (hi - lo) / n as real);
    }
  }

  function StepAt(lo: real, i: nat, d: real): real
  {
    lo + i as real * d
  }

  lemma LineIsStep(lo: real, hi: real, n: nat, i: nat, d: real)
    requires n > 0 && i <= n && d == (hi - lo) / n as real
    ensures Lines(lo, hi, n)[i] == StepAt(lo, i, d)
  {
    LineAt(lo, hi, n, i, d);
  }

  lemma StepsRise(lo: real, i: nat, j: nat, d: real)
    requires i <= j && d >= 0.0
    ensures StepAt(lo, i, d) <= StepAt(lo, j, d)
  {
    TimesRises(i as real, j as real, d);
  }

  lemma LineOrder(lo: real, hi: real, n: nat, i: nat, j: nat)
    requires n > 0 && lo <= hi && i <= j <= n
    ensures Lines(lo, hi, n)[i] <= Lines(lo, hi, n)[j]
  {
    hide Lines, StepAt;
    var d := (hi - lo) / n as real;
    QuotientSign(hi - lo, n as real);
    LineIsStep(lo, hi, n, i, d);
    LineIsStep(lo, hi, n, j, d);
    StepsRise(lo, i, j, d);
  }

  lemma QuotientSign(w: real, n: real)
    requires w >= 0.0 && n > 0.0
    ensures w / n >= 0.0
  {
  }

  lemma TimesRises(a: real, b: real, d: real)
    requires a <= b && d >= 0.0
    ensures a * d <= b * d
  {
  }

  /** All cells of an axis are equally long. */
  lemma CellLength(lo: real, hi: real, n: nat, i: nat)
    requires 0 < n && i < n
    ensures Lines(lo, hi, n)[i + 1] - Lines(lo, hi, n)[i] == (hi - lo) / n as real
  {
    var d := (hi - lo) / n as real;
    LineAt(lo, hi, n, i, d);
    LineAt(lo, hi, n, i + 1, d);
    hide Lines;
    NextLine(i as real, d);
    assert (i + 1) as real == i as real + 1.0;
  }

  /** On an axis longer than 1e-8, each of at most ten cells is longer than 1e-9. */
  lemma CellsAreWide(lo: real, hi: real, n: nat, i: nat)
    requires 0 < n <= 10 && hi - lo > 0.00000001 && i < n
    ensures Lines(lo, hi, n)[i] < Lines(lo, hi, n)[i + 1] - 0.000000001
  {
    hide Lines;
    var parts := n as real;
    assert 0.0 < parts <= 10.0;
    StepIsWide(hi - lo, parts);
    CellLength(lo, hi, n, i);
  }

  lemma QuotientTimes(w: real, n: real)
    requires n > 0.0
    ensures n * (w / n) == w
  {
  }

  lemma TimesIsWide(n: real, d: real, w: real)
    requires 0.0 < n <= 10.0 && n * d == w && w > 0.00000001
    ensures d > 0.000000001
  {
    if d <= 0.000000001 {
      TimesRises(d, 0.000000001, n);
    }
  }

  lemma StepIsWide(w: real, n: real)
    requires 0.0 < n <= 10.0 && w > 0.00000001
    ensures w / n > 0.000000001
  {
    var d := w / n;
    assert n * d == w by { QuotientTimes(w, n); }
    TimesIsWide(n, d, w);
  }

  lemma NextLine(a: real, d: real)
    ensures (a + 1.0) * d == a * d + d
  {
  }

  /** Neighbouring grid lines are further apart than the flatness test sees. */
  predicate Spaced(xs: seq<real>)
  {
    forall i | 0 <= i < |xs| - 1 :: xs[i] < xs[i + 1] - 0.000000001
  }

  lemma CellIsKept(xs: seq<real>, ys: seq<real>, i: nat, iy: nat)
    requires Spaced(xs) && Spaced(ys) && i + 1 < |xs| && iy + 1 < |ys|
    ensures RowCells(xs, ys, iy, i + 1) == RowCells(xs, ys, iy, i) + [CellAt(xs, ys, i, iy)]
  {
  }

  lemma {:induction false} RowHasCell(xs: seq<real>, ys: seq<real>, iy: nat, n: nat, i: nat)
    requires i < n < |xs| && iy + 1 < |ys| && Spaced(xs) && Spaced(ys)
    ensures CellAt(xs, ys, i, iy) in RowCells(xs, ys, iy, n)
  {
    hide Spaced, RowCells, CellAt;
    CellIsKept(xs, ys, n - 1, iy);
    if i < n - 1 {
      RowHasCell(xs, ys, iy, n - 1, i);
    }
  }

  lemma {:induction false} RowOnlyCells(xs: seq<real>, ys: seq<real>, iy: nat, n: nat, c: Bbox) returns (i: nat)
    requires n < |xs| && iy + 1 < |ys| && c in RowCells(xs, ys, iy, n)
    ensures i < n && c == CellAt(xs, ys, i, iy)
  {
    if c == CellAt(xs, ys, n - 1, iy) {
      i := n - 1;
    } else {
      i := RowOnlyCells(xs, ys, iy, n - 1, c);
    }
  }

  lemma {:induction false} GridHasCell(xs: seq<real>, ys: seq<real>, m: nat, i: nat, j: nat)
    requires |xs| >= 2 && j < m < |ys| && i + 1 < |xs| && Spaced(xs) && Spaced(ys)
    ensures CellAt(xs, ys, i, j) in GridCells(xs, ys, m)
  {
    hide Spaced, RowCells, CellAt;
    if j == m - 1 {
      RowHasCell(xs, ys, j, |xs| - 1, i);
    } else {
      GridHasCell(xs, ys, m - 1, i, j);
    }
  }

  lemma {:induction false} GridOnlyCells(xs: seq<real>, ys: seq<real>, m: nat, c: Bbox) returns (i: nat, j: nat)
    requires |xs| >= 2 && m < |ys| && c in GridCells(xs, ys, m)
    ensures i + 1 < |xs| && j < m && c == CellAt(xs, ys, i, j)
  {
    hide RowCells, CellAt;
    if c in RowCells(xs, ys, m - 1, |xs| - 1) {
      j := m - 1;
      i := RowOnlyCells(xs, ys, j, |xs| - 1, c);
    } else {
      i, j := GridOnlyCells(xs, ys, m - 1, c);
    }
  }

  lemma GridCellsAreGrid(xs: seq<real>, ys: seq<real>)
    requires |xs| >= 2 && |ys| >= 2 && Spaced(xs) && Spaced(ys)
    ensures IsGrid(GridCells(xs, ys, |ys| - 1), xs, ys)
  {
    hide Spaced, GridCells, CellAt;
    var m := |ys| - 1;
    forall i: nat, j: nat | i + 1 < |xs| && j + 1 < |ys| ensures CellAt(xs, ys, i, j) in GridCells(xs, ys, m) {
      GridHasCell(xs, ys, m, i, j);
    }
    forall c | c in GridCells(xs, ys, m)
      ensures exists i: nat, j: nat :: i + 1 < |xs| && j + 1 < |ys| && c == CellAt(xs, ys, i, j)
    {
      var i, j := GridOnlyCells(xs, ys, m, c);
    }
  }

  /** A search box wider and taller than 1e-8 is either kept whole or split into cells that
      partition its rounding. */
  lemma InitialSplitTiles(b: Bbox, thrCfg: real, gridCfg: int)
    requires b.maxx - b.minx > 0.00000001 && b.maxy - b.miny > 0.00000001
    ensures InitialSplit(b, thrCfg, gridCfg) == [b] || Tiles(InitialSplit(b, thrCfg, gridCfg), Rounded(b))
  {
    hide Divisions, GridCells, Deduped, Tiles, Lines, Rounded;
    var thr := Threshold(thrCfg);
    var gx, gy := Divisions(b.maxx - b.minx, thr, gridCfg), Divisions(b.maxy - b.miny, thr, gridCfg);
    EvenGridTiles(b, gx, gy);
  }

  lemma LinesAreSpaced(lo: real, hi: real, n: nat)
    requires 0 < n <= 10 && hi - lo > 0.00000001
    ensures Spaced(Lines(lo, hi, n))
  {
    forall i: nat | i < n ensures Lines(lo, hi, n)[i] < Lines(lo, hi, n)[i + 1] - 0.000000001 {
      CellsAreWide(lo, hi, n, i);
    }
  }

  lemma EvenGridTiles(b: Bbox, gx: nat, gy: nat)
    requires b.maxx - b.minx > 0.00000001 && b.maxy - b.miny > 0.00000001
    requires 0 < gx <= 10 && 0 < gy <= 10
    ensures Tiles(Deduped(GridCells(Lines(b.minx, b.maxx, gx), Lines(b.miny, b.maxy, gy), gy)), Rounded(b))
  {
    var xs, ys := Lines(b.minx, b.maxx, gx), Lines(b.miny, b.maxy, gy);
    LinesRise(b.minx, b.maxx, gx);
    LinesRise(b.miny, b.maxy, gy);
    LinesAreSpaced(b.minx, b.maxx, gx);
    LinesAreSpaced(b.miny, b.maxy, gy);
    GridCellsAreGrid(xs, ys);
    hide Lines, GridCells, Round6, Spaced, IsGrid;
    RoundedGridTiles(GridCells(xs, ys, gy), xs, ys);
  }

  /** Each point of the rounded box lies in a box of the initial split, as the search dedupes them. */
  lemma InitialSplitHolds(b: Bbox, thrCfg: real, gridCfg: int, x: real, y: real)
    requires b.maxx - b.minx > 0.00000001 && b.maxy - b.miny > 0.00000001 && Holds(Rounded(b), x, y)
    ensures exists k :: k in Deduped(InitialSplit(b, thrCfg, gridCfg)) && Holds(k, x, y)
  {
    var boxes := InitialSplit(b, thrCfg, gridCfg);
    InitialSplitTiles(b, thrCfg, gridCfg);
    if boxes == [b] {
      Round6Apart(b.minx, b.maxx);
      Round6Apart(b.miny, b.maxy);
      DedupedMembers(boxes);
      assert Rounded(boxes[0]) == Rounded(b);
      assert Rounded(b) in Deduped(boxes);
    } else {
      var i :| 0 <= i < |boxes| && Holds(boxes[i], x, y);
      InitialSplitIsClean(b, thrCfg, gridCfg);
      assert boxes[i] in boxes;
      CleanSurvive(boxes, boxes[i]);
    }
  }

  lemma InitialSplitIsClean(b: Bbox, thrCfg: real, gridCfg: int)
    ensures InitialSplit(b, thrCfg, gridCfg) == [b] || forall k | k in InitialSplit(b, thrCfg, gridCfg) :: Clean(k)
  {
    var thr := Threshold(thrCfg);
    var gx, gy := Divisions(b.maxx - b.minx, thr, gridCfg), Divisions(b.maxy - b.miny, thr, gridCfg);
    DedupedAreClean(GridCells(Lines(b.minx, b.maxx, gx), Lines(b.miny, b.maxy, gy), gy));
    hide Clean, Deduped, Lines, GridCells, Divisions;
  }

  /** The number of cells on an axis of length `w`: the configured one, or the least from two to ten
      that keeps a cell within the threshold; never more than ten. */
  ghost predicate CellsPerAxis(w: real, thr: real, gridCfg: int, n: nat)
  {
    if gridCfg > 1 then n <= 10 && n <= gridCfg && (n == 10 || n == gridCfg)
    else 2 <= n <= 10 && (n == 10 || w <= n as real * thr) && (n == 2 || w > (n - 1) as real * thr)
  }

  lemma DivisionsAre(w: real, thr: real, gridCfg: int)
    requires thr > 0.0
    ensures CellsPerAxis(w, thr, gridCfg, Divisions(w, thr, gridCfg))
  {
    if gridCfg <= 1 {
      var n := Divisions(w, thr, gridCfg);
      CeilIsLeast(w / thr, n);
      CeilIsLeast(w / thr, n - 1);
      QuotientOrders(w, thr, n as real);
      QuotientOrders(w, thr, (n - 1) as real);
    }
  }

  lemma QuotientOrders(w: real, thr: real, x: real)
    requires thr > 0.0
    ensures w / thr <= x <==> w <= x * thr
  {
    ProductOrders(w / thr, w, thr, x);
  }

  lemma ProductOrders(q: real, w: real, thr: real, x: real)
    requires thr > 0.0 && q * thr == w
    ensures q <= x <==> w <= x * thr
  {
    if q <= x {
      TimesRises(q, x, thr);
    } else {
      StrictRise(x, q, thr);
    }
  }

  /** A box is kept whole exactly when neither side exceeds the threshold (6 degrees unless set, at
      least 0.1); otherwise it is cut into an even grid. */
  lemma InitialSplitWhole(b: Bbox, thrCfg: real, gridCfg: int) returns (gx: nat, gy: nat)
    requires b.maxx - b.minx > 0.00000001 && b.maxy - b.miny > 0.00000001
    ensures var thr := if thrCfg == 0.0 then 6.0 else if thrCfg < 0.1 then 0.1 else thrCfg;
            var w, h := b.maxx - b.minx, b.maxy - b.miny;
            && (InitialSplit(b, thrCfg, gridCfg) == [b] <==> w <= thr && h <= thr)
            && (w > thr || h > thr ==>
                  && CellsPerAxis(w, thr, gridCfg, gx) && CellsPerAxis(h, thr, gridCfg, gy) && gx > 0 && gy > 0
                  && InitialSplit(b, thrCfg, gridCfg)
                      == Deduped(GridCells(Lines(b.minx, b.maxx, gx), Lines(b.miny, b.maxy, gy), gy)))
  {
    hide Divisions, GridCells, Deduped, Lines, CellsPerAxis;
    var thr := Threshold(thrCfg);
    var w, h := b.maxx - b.minx, b.maxy - b.miny;
    gx, gy := Divisions(w, thr, gridCfg), Divisions(h, thr, gridCfg);
    DivisionsAre(w, thr, gridCfg);
    DivisionsAre(h, thr, gridCfg);
    if w > thr || h > thr {
      CellsAreSmaller(b, gx, gy);
    }
  }

  /** No rounded cell is the whole box. */
  lemma CellsAreSmaller(b: Bbox, gx: nat, gy: nat)
    requires 2 <= gx <= 10 && 2 <= gy <= 10 && (b.maxx - b.minx >= 0.1 || b.maxy - b.miny >= 0.1)
    requires b.maxx > b.minx && b.maxy > b.miny
    ensures b !in Deduped(GridCells(Lines(b.minx, b.maxx, gx), Lines(b.miny, b.maxy, gy), gy))
  {
    hide Lines, GridCells, Deduped, Round6;
    var xs, ys := Lines(b.minx, b.maxx, gx), Lines(b.miny, b.maxy, gy);
    var cells := GridCells(xs, ys, gy);
    DedupedMembers(cells);
    if b in Deduped(cells) {
      var c :| c in cells && Rounded(c) == b;
      var i, j := GridOnlyCells(xs, ys, gy, c);
      CellLength(b.minx, b.maxx, gx, i);
      CellLength(b.miny, b.maxy, gy, j);
      if b.maxx - b.minx >= 0.1 {
        SideShrinks(b.minx, b.maxx, gx, c.minx, c.maxx);
      } else {
        SideShrinks(b.miny, b.maxy, gy, c.miny, c.maxy);
      }
    }
  }

  lemma SideShrinks(lo: real, hi: real, n: nat, from: real, to: real)
    requires n >= 2 && hi - lo >= 0.1 && to - from == (hi - lo) / n as real
    ensures Round6(to) - Round6(from) < hi - lo
  {
    HalfAtMost(hi - lo, n);
    Round6Near(from);
    Round6Near(to);
    hide Round6;
  }

  lemma HalfAtMost(w: real, n: nat)
    requires n >= 2 && w > 0.0
    ensures w / n as real <= w / 2.0
  {
    var m := n as real;
    assert m >= 2.0;
    QuotientTimes(w, m);
    if w / m > w / 2.0 {
      StrictRise(w / 2.0, w / m, m);
      TimesRises(2.0, m, w / 2.0);
      assert false;
    }
  }

  /** No cell of the axis, before rounding, is longer than the threshold. */
  ghost predicate CellsFit(lo: real, hi: real, n: nat, thr: real)
    requires n > 0
  {
    forall i: nat | i < n :: Lines(lo, hi, n)[i + 1] - Lines(lo, hi, n)[i] <= thr
  }

  /** All cells are equally long, so they fit exactly when n thresholds span the axis. */
  lemma CellsFitIff(lo: real, hi: real, n: nat, thr: real)
    requires n > 0 && thr > 0.0
    ensures CellsFit(lo, hi, n, thr) <==> (hi - lo) / thr <= n as real
  {
    forall i: nat | i < n ensures Lines(lo, hi, n)[i + 1] - Lines(lo, hi, n)[i] == (hi - lo) / n as real {
      CellLength(lo, hi, n, i);
    }
    hide Lines;
    if (hi - lo) / thr <= n as real {
      ShareFits(hi - lo, thr, n as real);
    } else {
      ShareExceeds(hi - lo, thr, n as real);
      assert Lines(lo, hi, n)[1] - Lines(lo, hi, n)[0] > thr;
    }
  }

  /** In automatic mode the cells of an axis are all at most the threshold exactly when no more than
      ten are needed; with the cap in force every cell is too long. */
  lemma AutoCellsFitIff(lo: real, hi: real, thrCfg: real, gridCfg: int)
    requires gridCfg <= 1
    ensures var thr := Threshold(thrCfg);
            CellsFit(lo, hi, Divisions(hi - lo, thr, gridCfg), thr) <==> Ceil((hi - lo) / thr) <= 10
  {
    var thr, w := Threshold(thrCfg), hi - lo;
    var n := Divisions(w, thr, gridCfg);
    CellsFitIff(lo, hi, n, thr);
    CeilIsLeast(w / thr, n);
    CeilIsLeast(w / thr, 10);
  }

  lemma CeilIsLeast(x: real, n: int)
    ensures Ceil(x) <= n <==> x <= n as real
  {
  }

  lemma ShareFits(w: real, thr: real, n: real)
    requires thr > 0.0 && n > 0.0 && w / thr <= n
    ensures w / n <= thr
  {
    var q, d := w / thr, w / n;
    assert q * thr == w && d * n == w;
    TimesRises(q, n, thr);
    if d > thr {
      StrictRise(thr, d, n);
      assert false;
    }
  }

  lemma StrictRise(a: real, b: real, c: real)
    requires a < b && c > 0.0
    ensures a * c < b * c
  {
  }

  lemma ShareExceeds(w: real, thr: real, n: real)
    requires thr > 0.0 && n > 0.0 && w / thr > n
    ensures w / n > thr
  {
    var q, d := w / thr, w / n;
    assert q * thr == w && d * n == w;
    StrictRise(n, q, thr);
    if d <= thr {
      TimesRises(d, thr, n);
    }
  }

  /** A 100 degree box at threshold 6 gets ten cells of 10 degrees each. */
  lemma CapExceedsThreshold()
    ensures Divisions(100.0, Threshold(6.0), 0) == 10
    ensures !CellsFit(0.0, 100.0, 10, Threshold(6.0))
  {
    assert 100.0 / 6.0 > 16.0;
    assert -(100.0 / 6.0) < -16.0;
    CellsFitIff(0.0, 100.0, 10, 6.0);
  }
}
