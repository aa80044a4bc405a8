/**
 Cave generation (lines 63-109 of IS-N1/Automaton_2D.py): a random seed
 with a wall border, smoothed by the B678/S2345678 rule on wall cells.
 */
module Cave {
  import opened Lattice
  import opened Tick

  /** The integer part of a cell's code: the element code the neighbour
      count compares against. */
  function KindOf(c: Cell): int {
    Code(c).Floor
  }

  /** The 3x3 block of offsets (dx, dy) in the order the count visits them:
      dy outer, dx inner, both from -1 to 1. */
  function Around(): (r: seq<Pos>)
    ensures |r| == 9
  {
    [(-1, -1), (0, -1), (1, -1), (-1, 0), (0, 0), (1, 0), (-1, 1), (0, 1), (1, 1)]
  }

  /** Entry 3i + j of the block is (j - 1, i - 1). */
  lemma AroundAt(i: int, j: int)
    requires 0 <= i < 3 && 0 <= j < 3
    ensures Around()[3 * i + j] == (j - 1, i - 1)
  {
    var r := Around();
    if i == 0 {
      assert r[0] == (-1, -1) && r[1] == (0, -1) && r[2] == (1, -1);
    } else if i == 1 {
      assert r[3] == (-1, 0) && r[4] == (0, 0) && r[5] == (1, 0);
    } else {
      assert r[6] == (-1, 1) && r[7] == (0, 1) && r[8] == (1, 1);
    }
  }

  /** 1 when the offset is not the centre and reaches an in-range cell of
      element code k. */
  function HitAt(g: Grid, w: nat, h: nat, x: int, y: int, k: int, d: Pos): nat
    requires Rect(g, w, h)
  {
    if d == (0, 0) then 0
    else if InBounds(w, h, x + d.0, y + d.1) && KindOf(g[y + d.1][x + d.0]) == k then 1
    else 0
  }

  function Hits(g: Grid, w: nat, h: nat, x: int, y: int, k: int, ds: seq<Pos>): nat
    requires Rect(g, w, h)
    decreases |ds|
  {
    if |ds| == 0 then 0 else Hits(g, w, h, x, y, k, ds[..|ds| - 1]) + HitAt(g, w, h, x, y, k, ds[|ds| - 1])
  }

  /** The number of the eight neighbours of (x, y) with element code k. */
  function NeighbourCount(g: Grid, w: nat, h: nat, x: int, y: int, k: int): nat
    requires Rect(g, w, h)
  {
    Hits(g, w, h, x, y, k, Around())
  }

  /** The neighbour count as the source computes it: two nested loops over
      the offsets, skipping the centre. */
  method CountNeighbors(g: Grid, w: nat, h: nat, x: int, y: int, k: int) returns (count: nat)
    requires Rect(g, w, h)
    ensures count == NeighbourCount(g, w, h, x, y, k)
  {
    count := 0;
    for i := 0 to 3
      invariant count == Hits(g, w, h, x, y, k, Around()[..3 * i])
    {
      var dy := i - 1;
      for j := 0 to 3
        invariant count == Hits(g, w, h, x, y, k, Around()[..3 * i + j])
      {
        var dx := j - 1;
        CountStep(g, w, h, x, y, k, i, j);
        if dx == 0 && dy == 0 {
          continue;
        }
        var nx, ny := x + dx, y + dy;
        if 0 <= nx < w && 0 <= ny < h && KindOf(g[ny][nx]) == k {
          count := count + 1;
        }
      }
    }
    assert Around()[..9] == Around();
  }

  /** One pass of the inner loop body: offset (j - 1, i - 1) adds one
      exactly when it is not the centre and reaches an in-range cell of
      code k. */
  lemma CountStep(g: Grid, w: nat, h: nat, x: int, y: int, k: int, i: int, j: int)
    requires Rect(g, w, h) && 0 <= i < 3 && 0 <= j < 3
    ensures Hits(g, w, h, x, y, k, Around()[..3 * i + j + 1])
         == Hits(g, w, h, x, y, k, Around()[..3 * i + j])
            + if j - 1 == 0 && i - 1 == 0 then 0
              else if 0 <= x + j - 1 < w && 0 <= y + i - 1 < h && KindOf(g[y + i - 1][x + j - 1]) == k then 1
              else 0
  {
    AroundAt(i, j);
    HitsStep(g, w, h, x, y, k, Around(), 3 * i + j);
  }

  /** Extending a prefix by one offset adds that offset's hit. */
  lemma HitsStep(g: Grid, w: nat, h: nat, x: int, y: int, k: int, ds: seq<Pos>, n: nat)
    requires Rect(g, w, h) && n < |ds|
    ensures Hits(g, w, h, x, y, k, ds[..n + 1]) == Hits(g, w, h, x, y, k, ds[..n]) + HitAt(g, w, h, x, y, k, ds[n])
  {
    assert ds[..n + 1][..n] == ds[..n];
  }

  /** At most n of any n offsets hit. */
  lemma {:induction false} HitsBounded(g: Grid, w: nat, h: nat, x: int, y: int, k: int, ds: seq<Pos>)
    requires Rect(g, w, h)
    ensures Hits(g, w, h, x, y, k, ds) <= |ds|
    decreases |ds|
  {
    if |ds| > 0 {
      HitsBounded(g, w, h, x, y, k, ds[..|ds| - 1]);
    }
  }

  /** A cell has at most eight neighbours of any kind. */
  lemma NeighbourCountAtMostEight(g: Grid, w: nat, h: nat, x: int, y: int, k: int)
    requires Rect(g, w, h)
    ensures NeighbourCount(g, w, h, x, y, k) <= 8
  {
    HitsBounded(g, w, h, x, y, k, Around()[..4]);
    HitsBounded(g, w, h, x, y, k, Around()[5..]);
    HitsSplit(g, w, h, x, y, k, Around()[..4], [Around()[4]]);
    HitsSplit(g, w, h, x, y, k, Around()[..5], Around()[5..]);
    assert Around()[..4] + [Around()[4]] == Around()[..5];
    assert Around()[..5] + Around()[5..] == Around();
  }

  /** Sums over a concatenation add up. */
  lemma {:induction false} HitsSplit(g: Grid, w: nat, h: nat, x: int, y: int, k: int, a: seq<Pos>, b: seq<Pos>)
    requires Rect(g, w, h)
    ensures Hits(g, w, h, x, y, k, a + b) == Hits(g, w, h, x, y, k, a) + Hits(g, w, h, x, y, k, b)
    decreases |b|
  {
    if |b| == 0 {
      assert a + b == a;
    } else {
      assert (a + b)[..|a + b| - 1] == a + b[..|b| - 1];
      HitsSplit(g, w, h, x, y, k, a, b[..|b| - 1]);
    }
  }

  /** The count never looks at the cell itself: changing it leaves the
      count unchanged. */
  lemma {:induction false} HitsIgnoreCentre(g: Grid, w: nat, h: nat, x: int, y: int, k: int, c: Cell, ds: seq<Pos>)
    requires Rect(g, w, h) && InBounds(w, h, x, y)
    ensures Hits(Put(g, w, h, x, y, c), w, h, x, y, k, ds) == Hits(g, w, h, x, y, k, ds)
    decreases |ds|
  {
    if |ds| > 0 {
      HitsIgnoreCentre(g, w, h, x, y, k, c, ds[..|ds| - 1]);
    }
  }

  lemma NeighbourCountIgnoresCentre(g: Grid, w: nat, h: nat, x: int, y: int, k: int, c: Cell)
    requires Rect(g, w, h) && InBounds(w, h, x, y)
    ensures NeighbourCount(Put(g, w, h, x, y, c), w, h, x, y, k) == NeighbourCount(g, w, h, x, y, k)
  {
    HitsIgnoreCentre(g, w, h, x, y, k, c, Around());
  }

  /** Every cell of grid `a` that is a wall is a wall in `b`. */
  predicate WallsWithin(a: Grid, b: Grid, w: nat, h: nat)
    requires Rect(a, w, h) && Rect(b, w, h)
  {
    forall y, x :: 0 <= y < h && 0 <= x < w && a[y][x] == Wall ==> b[y][x] == Wall
  }

  /** More walls around give at least as high a wall count. */
  lemma {:induction false} HitsMonotone(a: Grid, b: Grid, w: nat, h: nat, x: int, y: int, ds: seq<Pos>)
    requires Rect(a, w, h) && Rect(b, w, h) && CaveLayout(a, w, h) && WallsWithin(a, b, w, h)
    ensures Hits(a, w, h, x, y, KindOf(Wall), ds) <= Hits(b, w, h, x, y, KindOf(Wall), ds)
    decreases |ds|
  {
    if |ds| > 0 {
      HitsMonotone(a, b, w, h, x, y, ds[..|ds| - 1]);
      var d := ds[|ds| - 1];
      if HitAt(a, w, h, x, y, KindOf(Wall), d) == 1 {
        assert a[y + d.1][x + d.0] == Wall;
      }
    }
  }

  /** The border cell test of line 69. */
  predicate OnBorder(w: nat, h: nat, x: int, y: int) {
    x == 0 || x == w - 1 || y == 0 || y == h - 1
  }

  /** A cave grid: only walls and empty cells, walls all along the border. */
  predicate CaveLayout(g: Grid, w: nat, h: nat)
    requires Rect(g, w, h)
  {
    forall y, x :: 0 <= y < h && 0 <= x < w ==>
      (g[y][x] == Wall || g[y][x] == Empty) && (OnBorder(w, h, x, y) ==> g[y][x] == Wall)
  }

  /** The new state of an interior cell under B678/S2345678, read from the
      old grid: an empty cell with at least six wall neighbours becomes a
      wall, any other cell with fewer than two becomes empty. */
  function Smoothed(g: Grid, w: nat, h: nat, x: int, y: int): Cell
    requires Rect(g, w, h) && InBounds(w, h, x, y)
  {
    var n := NeighbourCount(g, w, h, x, y, KindOf(Wall));
    if g[y][x] == Empty then (if n >= 6 then Wall else Empty)
    else if n < 2 then Empty
    else g[y][x]
  }

  /** One smoothing pass (lines 78-94): the border is copied, every
      interior cell is rewritten from the old grid. */
  function CaveStep(g: Grid, w: nat, h: nat): (r: Grid)
    requires Rect(g, w, h)
    ensures Rect(r, w, h)
    ensures CaveLayout(g, w, h) ==> CaveLayout(r, w, h)
  {
    seq(h, y requires 0 <= y < h =>
      seq(w, x requires 0 <= x < w =>
        if OnBorder(w, h, x, y) then g[y][x] else Smoothed(g, w, h, x, y)))
  }

  /** On a cave grid a pass is B678/S2345678 on walls: an interior cell is
      a wall afterwards exactly when it was a wall with at least two wall
      neighbours or was empty with at least six; the border is kept. */
  lemma CaveStepRule(g: Grid, w: nat, h: nat)
    requires Rect(g, w, h) && CaveLayout(g, w, h)
    ensures var r := CaveStep(g, w, h);
            forall y, x :: 0 <= y < h && 0 <= x < w ==>
              if OnBorder(w, h, x, y) then r[y][x] == g[y][x]
              else
                r[y][x] == Wall <==>
                  (g[y][x] == Wall && NeighbourCount(g, w, h, x, y, KindOf(Wall)) >= 2)
                  || (g[y][x] == Empty && NeighbourCount(g, w, h, x, y, KindOf(Wall)) >= 6)
  {
  }

  /** The smoothing rule is monotone: a grid with more walls smooths to a
      grid with more walls. */
  lemma CaveStepMonotone(a: Grid, b: Grid, w: nat, h: nat)
    requires Rect(a, w, h) && Rect(b, w, h) && CaveLayout(a, w, h) && CaveLayout(b, w, h)
    requires WallsWithin(a, b, w, h)
    ensures WallsWithin(CaveStep(a, w, h), CaveStep(b, w, h), w, h)
  {
    var ra, rb := CaveStep(a, w, h), CaveStep(b, w, h);
    CaveStepRule(a, w, h);
    CaveStepRule(b, w, h);
    forall y, x | 0 <= y < h && 0 <= x < w && ra[y][x] == Wall
      ensures rb[y][x] == Wall
    {
      if !OnBorder(w, h, x, y) {
        HitsMonotone(a, b, w, h, x, y, Around());
      }
    }
  }

  /** `n` smoothing passes; a non-positive count runs none. */
  function Smooth(g: Grid, w: nat, h: nat, n: int): (r: Grid)
    requires Rect(g, w, h)
    ensures Rect(r, w, h)
    decreases n
  {
    if n <= 0 then g else Smooth(CaveStep(g, w, h), w, h, n - 1)
  }

  /** Smoothing keeps a cave a cave. */
  lemma {:induction false} SmoothKeepsLayout(g: Grid, w: nat, h: nat, n: int)
    requires Rect(g, w, h) && CaveLayout(g, w, h)
    ensures CaveLayout(Smooth(g, w, h, n), w, h)
    decreases n
  {
    if n > 0 {
      SmoothKeepsLayout(CaveStep(g, w, h), w, h, n - 1);
    }
  }

  lemma {:induction false} SmoothMonotone(a: Grid, b: Grid, w: nat, h: nat, n: int)
    requires Rect(a, w, h) && Rect(b, w, h) && CaveLayout(a, w, h) && CaveLayout(b, w, h)
    requires WallsWithin(a, b, w, h)
    ensures WallsWithin(Smooth(a, w, h, n), Smooth(b, w, h, n), w, h)
    decreases n
  {
    if n > 0 {
      CaveStepMonotone(a, b, w, h);
      SmoothMonotone(CaveStep(a, w, h), CaveStep(b, w, h), w, h, n - 1);
    }
  }

  /** The random seed (lines 65-75): the border is wall, an interior cell
      is wall when its draw from `noise` falls below the fill ratio. */
  function Seed(w: nat, h: nat, noise: seq<seq<real>>, fillRatio: real): (r: Grid)
    requires Rect(noise, w, h)
    ensures Rect(r, w, h) && CaveLayout(r, w, h)
    ensures forall y, x :: 0 <= y < h && 0 <= x < w && !OnBorder(w, h, x, y) ==>
              (r[y][x] == Wall <==> noise[y][x] < fillRatio)
  {
    seq(h, y requires 0 <= y < h =>
      seq(w, x requires 0 <= x < w =>
        if OnBorder(w, h, x, y) then Wall
        else if noise[y][x] < fillRatio then Wall
        else Empty))
  }

  /** The cave generator: seed, then smooth `iterations` times. The
      countdown map is left as it was. */
  function GenerateCave(a: Automaton, noise: seq<seq<real>>, fillRatio: real, iterations: int): (r: Automaton)
    requires a.Valid() && Rect(noise, a.width, a.height)
    ensures r.Valid() && r.width == a.width && r.height == a.height && r.lifetimes == a.lifetimes
    ensures CaveLayout(r.grid, r.width, r.height)
  {
    var g := Smooth(Seed(a.width, a.height, noise, fillRatio), a.width, a.height, iterations);
    SmoothKeepsLayout(Seed(a.width, a.height, noise, fillRatio), a.width, a.height, iterations);
    Automaton(a.width, a.height, g, a.lifetimes)
  }

  /** A higher fill ratio, with the same draws, never yields fewer walls. */
  lemma MoreFillMoreRock(a: Automaton, noise: seq<seq<real>>, lo: real, hi: real, iterations: int)
    requires a.Valid() && Rect(noise, a.width, a.height) && lo <= hi
    ensures WallsWithin(GenerateCave(a, noise, lo, iterations).grid, GenerateCave(a, noise, hi, iterations).grid, a.width, a.height)
  {
    SmoothMonotone(Seed(a.width, a.height, noise, lo), Seed(a.width, a.height, noise, hi), a.width, a.height, iterations);
  }

  /** Solid rock stays solid: every interior cell has wall neighbours
      enough to survive. */
  lemma SolidRockIsStable(g: Grid, w: nat, h: nat)
    requires Rect(g, w, h) && forall y, x :: 0 <= y < h && 0 <= x < w ==> g[y][x] == Wall
    ensures CaveStep(g, w, h) == g
  {
    var r := CaveStep(g, w, h);
    forall y, x | 0 <= y < h && 0 <= x < w && !OnBorder(w, h, x, y)
      ensures r[y][x] == g[y][x]
    {
      SolidCellSurvives(g, w, h, x, y);
    }
    GridExt(r, g, w, h);
  }

  /** An interior cell of solid rock has at least two wall neighbours. */
  lemma SolidCellSurvives(g: Grid, w: nat, h: nat, x: int, y: int)
    requires Rect(g, w, h) && forall y, x :: 0 <= y < h && 0 <= x < w ==> g[y][x] == Wall
    requires 1 <= x < w - 1 && 1 <= y < h - 1
    ensures NeighbourCount(g, w, h, x, y, KindOf(Wall)) >= 2
  {
    AllWallsCount(g, w, h, x, y, Around()[..2]);
    HitsSplit(g, w, h, x, y, KindOf(Wall), Around()[..2], Around()[2..]);
    assert Around()[..2] + Around()[2..] == Around();
  }

  /** Around an interior cell of solid rock every non-centre offset hits. */
  lemma {:induction false} AllWallsCount(g: Grid, w: nat, h: nat, x: int, y: int, ds: seq<Pos>)
    requires Rect(g, w, h) && forall y, x :: 0 <= y < h && 0 <= x < w ==> g[y][x] == Wall
    requires 1 <= x < w - 1 && 1 <= y < h - 1
    requires forall i :: 0 <= i < |ds| ==> -1 <= ds[i].0 <= 1 && -1 <= ds[i].1 <= 1 && ds[i] != (0, 0)
    ensures Hits(g, w, h, x, y, KindOf(Wall), ds) == |ds|
    decreases |ds|
  {
    if |ds| > 0 {
      AllWallsCount(g, w, h, x, y, ds[..|ds| - 1]);
    }
  }
}
