/**
 One generation of the automaton (lines 111-155 of IS-N1/Automaton_2D.py):
 the scratch buffer starts as a copy of the grid, every in-range cell is
 dispatched once in a shuffled order to the rule for the kind the current
 buffer holds there, the scratch buffer becomes the grid, and the smoke
 countdowns are swept.
 */
module Tick {
  import opened Lattice
  import opened Rules
  import opened Water

  /** The scratch buffer together with the countdown map, as the rules see
      them during a tick. */
  datatype Scratch = Scratch(next: Grid, lifetimes: Lifetimes)

  /** No countdown is negative. */
  predicate CountdownsNonNegative(life: Lifetimes) {
    forall p :: p in life ==> life[p] >= 0
  }

  /** Writes that keep every cell storable keep the grid storable. */
  lemma ApplyKeepsValid(g: Grid, w: nat, h: nat, ws: seq<Write>)
    requires Rect(g, w, h) && WritesInBounds(ws, w, h) && ValidGrid(g, w, h) && ValidWrites(ws)
    ensures ValidGrid(Apply(g, w, h, ws), w, h)
  {
    var r := Apply(g, w, h, ws);
    forall y, x | 0 <= y < h && 0 <= x < w
      ensures ValidCell(r[y][x])
    {
      if r[y][x] != g[y][x] {
        var i :| 0 <= i < |ws| && ws[i] == Write(x, y, r[y][x]);
      }
    }
  }

  /** Performs a rule's writes on the scratch buffer. */
  function Commit(w: nat, h: nat, cur: Grid, next: Grid, ws: seq<Write>): (r: Grid)
    requires Rect(cur, w, h) && Rect(next, w, h) && WallsAgree(cur, next, w, h)
    requires SafeWrites(ws, w, h, cur, next) && ValidWrites(ws)
    ensures Rect(r, w, h) && WallsAgree(cur, r, w, h)
    ensures ValidGrid(next, w, h) ==> ValidGrid(r, w, h)
    ensures forall px, py :: InBounds(w, h, px, py) && !Targets(ws, px, py) ==> r[py][px] == next[py][px]
  {
    SafeWritesKeepWalls(ws, w, h, cur, next);
    if ValidGrid(next, w, h) then
      ApplyKeepsValid(next, w, h, ws);
      Apply(next, w, h, ws)
    else
      Apply(next, w, h, ws)
  }

  /** Writes that are all near (x, y) do not target a far cell. */
  lemma NearTargets(ws: seq<Write>, x: int, y: int, px: int, py: int)
    requires Near(ws, x, y) && Targets(ws, px, py)
    ensures x - 1 <= px <= x + 1 && y - 1 <= py <= y + 1
  {
  }

  /** The smoke rule leaves no countdown negative: a relocated countdown
      keeps its value and a fresh one lies in its `randint` range. */
  lemma SmokeKeepsCountdowns(w: nat, h: nat, cur: Grid, next: Grid, life: Lifetimes, x: int, y: int, kind: Cell, d: Draw)
    requires Rect(cur, w, h) && Rect(next, w, h) && InBounds(w, h, x, y)
    requires IsSmoke(kind) && cur[y][x] == kind
    ensures CountdownsNonNegative(life) ==> CountdownsNonNegative(SmokeRule(w, h, cur, next, life, x, y, kind, d).lifetimes)
  {
  }

  /** The writes the rule for the kind at (x, y) makes, and the countdown
      map after it. */
  function RuleFor(w: nat, h: nat, cur: Grid, s: Scratch, x: int, y: int, d: Draw): (r: SmokeStep)
    requires Rect(cur, w, h) && Rect(s.next, w, h) && InBounds(w, h, x, y)
    ensures SafeWrites(r.writes, w, h, cur, s.next)
    ensures cur[y][x] == Empty || cur[y][x] == Wall ==> r.writes == []
    ensures !IsSmoke(cur[y][x]) ==> r.lifetimes == s.lifetimes
    ensures CountdownsNonNegative(s.lifetimes) ==> CountdownsNonNegative(r.lifetimes)
  {
    match cur[y][x]
    case Empty => SmokeStep([], s.lifetimes)
    case Wall => SmokeStep([], s.lifetimes)
    case Sand => SmokeStep(SandRule(w, h, cur, s.next, x, y, d.pickRight), s.lifetimes)
    case Wood => SmokeStep(WoodRule(w, h, cur, s.next, x, y), s.lifetimes)
    case Fire => SmokeStep(FireRule(w, h, cur, s.next, x, y, d.shuffle), s.lifetimes)
    case DarkSmoke =>
      SmokeKeepsCountdowns(w, h, cur, s.next, s.lifetimes, x, y, DarkSmoke, d);
      SmokeRule(w, h, cur, s.next, s.lifetimes, x, y, DarkSmoke, d)
    case LightSmoke =>
      SmokeKeepsCountdowns(w, h, cur, s.next, s.lifetimes, x, y, LightSmoke, d);
      SmokeRule(w, h, cur, s.next, s.lifetimes, x, y, LightSmoke, d)
    case Balloon => SmokeStep(BalloonRule(w, h, cur, s.next, x, y, d.shuffle), s.lifetimes)
    case Water(_) => SmokeStep(WaterRule(w, h, cur, s.next, x, y), s.lifetimes)
  }

  /** Every rule writes storable cells near (x, y); sand, wood and smoke
      either stay or move into an empty scratch cell. */
  lemma RuleShape(w: nat, h: nat, cur: Grid, s: Scratch, x: int, y: int, d: Draw)
    requires Rect(cur, w, h) && Rect(s.next, w, h) && InBounds(w, h, x, y)
    ensures var ws := RuleFor(w, h, cur, s, x, y, d).writes;
            && ValidWrites(ws) && Near(ws, x, y)
            && (cur[y][x] in {Sand, Wood, DarkSmoke, LightSmoke} ==> ws == [] || IsMove(ws, s.next, w, h, x, y, cur[y][x]))
  {
  }

  /** Dispatches the cell at (x, y) (lines 120-138): empty cells and walls
      are skipped, every other kind runs its rule against the scratch
      buffer. Only the 3x3 neighbourhood of (x, y) can change, walls stay
      where the current buffer has them, and only smoke touches the
      countdowns. */
  function Dispatch(w: nat, h: nat, cur: Grid, s: Scratch, x: int, y: int, d: Draw): (r: Scratch)
    requires Rect(cur, w, h) && Rect(s.next, w, h) && WallsAgree(cur, s.next, w, h) && InBounds(w, h, x, y)
    ensures Rect(r.next, w, h) && WallsAgree(cur, r.next, w, h)
    ensures ValidGrid(s.next, w, h) ==> ValidGrid(r.next, w, h)
    ensures cur[y][x] == Empty || cur[y][x] == Wall ==> r == s
    ensures !IsSmoke(cur[y][x]) ==> r.lifetimes == s.lifetimes
    ensures CountdownsNonNegative(s.lifetimes) ==> CountdownsNonNegative(r.lifetimes)
    ensures forall px, py :: InBounds(w, h, px, py) && !(x - 1 <= px <= x + 1 && y - 1 <= py <= y + 1) ==>
              r.next[py][px] == s.next[py][px]
  {
    var step := RuleFor(w, h, cur, s, x, y, d);
    RuleShape(w, h, cur, s, x, y, d);
    var next := Commit(w, h, cur, s.next, step.writes);
    assert forall px, py :: Targets(step.writes, px, py) ==> x - 1 <= px <= x + 1 && y - 1 <= py <= y + 1 by {
      forall px, py | Targets(step.writes, px, py) ensures x - 1 <= px <= x + 1 && y - 1 <= py <= y + 1 {
        NearTargets(step.writes, x, y, px, py);
      }
    }
    assert step.writes == [] ==> next == s.next;
    Scratch(next, step.lifetimes)
  }

  /** When the scratch buffer still holds the moving kind at (x, y), the
      dispatch of sand, wood or smoke creates and destroys nothing: every
      kind keeps its number of cells. */
  lemma MovingKindsConserve(w: nat, h: nat, cur: Grid, s: Scratch, x: int, y: int, d: Draw)
    requires Rect(cur, w, h) && Rect(s.next, w, h) && WallsAgree(cur, s.next, w, h) && InBounds(w, h, x, y)
    requires cur[y][x] in {Sand, Wood, DarkSmoke, LightSmoke} && s.next[y][x] == cur[y][x]
    ensures forall c :: CountOf(Dispatch(w, h, cur, s, x, y, d).next, c) == CountOf(s.next, c)
  {
    var step := RuleFor(w, h, cur, s, x, y, d);
    RuleShape(w, h, cur, s, x, y, d);
    if step.writes != [] {
      MoveKeepsCounts(step.writes, s.next, w, h, x, y, cur[y][x]);
    }
  }

  /** Every in-range position is listed exactly once. */
  predicate IsOrdering(order: seq<Pos>, w: nat, h: nat) {
    && (forall i :: 0 <= i < |order| ==> InBounds(w, h, order[i].0, order[i].1))
    && (forall y, x :: 0 <= y < h && 0 <= x < w ==> (x, y) in order)
    && (forall i, j :: 0 <= i < j < |order| ==> order[i] != order[j])
  }

  /** Row y of the coordinate list: (0, y), (1, y), ..., (w - 1, y). */
  function Row(w: nat, y: int): (r: seq<Pos>)
    ensures |r| == w && forall i :: 0 <= i < w ==> r[i] == (i, y)
  {
    seq(w, i => (i, y))
  }

  /** The coordinates of the grid in row-major order (line 116), before
      they are shuffled. */
  function Coordinates(w: nat, h: nat): (r: seq<Pos>)
    ensures |r| == w * h
    ensures IsOrdering(r, w, h)
  {
    if h == 0 then []
    else
      var prev := Coordinates(w, h - 1);
      var row := Row(w, h - 1);
      assert forall x, y :: InBounds(w, h, x, y) ==> (x, y) in prev + row by {
        forall x, y | InBounds(w, h, x, y) ensures (x, y) in prev + row {
          if y < h - 1 {
            assert InBounds(w, h - 1, x, y);
          } else {
            assert row[x] == (x, y);
          }
        }
      }
      assert forall i :: 0 <= i < |prev| ==> prev[i].1 < h - 1;
      prev + row
  }

  /** Dispatches the cells in the given order, each with its own draw. */
  function Run(w: nat, h: nat, cur: Grid, s: Scratch, order: seq<Pos>, draws: seq<Draw>): (r: Scratch)
    requires Rect(cur, w, h) && Rect(s.next, w, h) && WallsAgree(cur, s.next, w, h)
    requires |draws| == |order| && forall i :: 0 <= i < |order| ==> InBounds(w, h, order[i].0, order[i].1)
    ensures Rect(r.next, w, h) && WallsAgree(cur, r.next, w, h)
    ensures ValidGrid(s.next, w, h) ==> ValidGrid(r.next, w, h)
    ensures CountdownsNonNegative(s.lifetimes) ==> CountdownsNonNegative(r.lifetimes)
    decreases |order|
  {
    if |order| == 0 then s
    else
      var s1 := Dispatch(w, h, cur, s, order[0].0, order[0].1, draws[0]);
      Run(w, h, cur, s1, order[1..], draws[1..])
  }

  /** Only empty cells and walls. */
  predicate Inert(g: Grid, w: nat, h: nat)
    requires Rect(g, w, h)
  {
    forall y, x :: 0 <= y < h && 0 <= x < w ==> g[y][x] == Empty || g[y][x] == Wall
  }

  /** A grid of nothing but empty cells and walls makes no rule fire. */
  lemma {:induction false} InertRunIsIdle(w: nat, h: nat, cur: Grid, s: Scratch, order: seq<Pos>, draws: seq<Draw>)
    requires Rect(cur, w, h) && Rect(s.next, w, h) && WallsAgree(cur, s.next, w, h) && Inert(cur, w, h)
    requires |draws| == |order| && forall i :: 0 <= i < |order| ==> InBounds(w, h, order[i].0, order[i].1)
    ensures Run(w, h, cur, s, order, draws) == s
    decreases |order|
  {
    if |order| > 0 {
      assert Dispatch(w, h, cur, s, order[0].0, order[0].1, draws[0]) == s;
      InertRunIsIdle(w, h, cur, s, order[1..], draws[1..]);
    }
  }

  /** The countdown at p has run out. */
  predicate Expired(life: Lifetimes, p: Pos) {
    p in life && life[p] <= 0
  }

  /** The grid after the sweep: smoke whose countdown has run out is
      cleared, everything else is kept. */
  function SweepGrid(g: Grid, w: nat, h: nat, life: Lifetimes): (r: Grid)
    requires Rect(g, w, h)
    ensures Rect(r, w, h)
    ensures forall y, x :: 0 <= y < h && 0 <= x < w ==>
              r[y][x] == (if Expired(life, (x, y)) && IsSmoke(g[y][x]) then Empty else g[y][x])
  {
    seq(h, y requires 0 <= y < h =>
      seq(w, x requires 0 <= x < w =>
        if Expired(life, (x, y)) && IsSmoke(g[y][x]) then Empty else g[y][x]))
  }

  /** The countdowns after the sweep: run-out ones are dropped, the others
      count down by one. */
  function SweepLifetimes(life: Lifetimes): (r: Lifetimes)
    ensures forall p :: p in r <==> p in life && life[p] > 0
    ensures forall p :: p in r ==> r[p] == life[p] - 1
  {
    map p | p in life && life[p] > 0 :: life[p] - 1
  }

  /** The sweep at the end of a tick (lines 142-155). */
  function Sweep(a: Automaton): (r: Automaton)
    requires a.Valid()
    ensures r.Valid() && r.width == a.width && r.height == a.height
    ensures r.lifetimes == SweepLifetimes(a.lifetimes)
    ensures r.grid == SweepGrid(a.grid, a.width, a.height, a.lifetimes)
  {
    Automaton(a.width, a.height, SweepGrid(a.grid, a.width, a.height, a.lifetimes), SweepLifetimes(a.lifetimes))
  }

  /** The sweep only ever clears smoke. */
  lemma SweepKeepsWalls(g: Grid, w: nat, h: nat, life: Lifetimes)
    requires Rect(g, w, h)
    ensures WallsAgree(g, SweepGrid(g, w, h, life), w, h)
  {
  }

  /** Two rectangular grids that agree cell by cell are equal. */
  lemma GridExt(a: Grid, b: Grid, w: nat, h: nat)
    requires Rect(a, w, h) && Rect(b, w, h)
    requires forall y, x :: 0 <= y < h && 0 <= x < w ==> a[y][x] == b[y][x]
    ensures a == b
  {
    forall y | 0 <= y < h ensures a[y] == b[y] {
      assert forall x :: 0 <= x < w ==> a[y][x] == b[y][x];
    }
  }

  /** The countdown map is determined by which keys survive and their
      values. */
  lemma SweptLifetimes(life: Lifetimes, before: Lifetimes)
    requires forall p :: p in life <==> p in before && before[p] > 0
    requires forall p :: p in life ==> life[p] == before[p] - 1
    ensures life == SweepLifetimes(before)
  {
  }

  /** The sweep as the source performs it: one pass over the entries in the
      dictionary's iteration order `keys`, collecting the run-out positions
      (clearing their cell when it still holds smoke) and counting the rest
      down, then a pass deleting the collected positions. The result is the
      same whatever the iteration order. */
  method SweepLoop(a: Automaton, keys: seq<Pos>) returns (r: Automaton)
    requires a.Valid()
    requires forall p :: p in keys <==> p in a.lifetimes
    requires forall i, j :: 0 <= i < j < |keys| ==> keys[i] != keys[j]
    ensures r == Sweep(a)
  {
    var g, life, expired := SweepPass(a, keys);
    life := DropAll(life, expired);
    SweptLifetimes(life, a.lifetimes);
    r := Automaton(a.width, a.height, g, life);
  }

  /** The first pass of the sweep: clears run-out smoke, counts the live
      countdowns down and collects the run-out positions. */
  method SweepPass(a: Automaton, keys: seq<Pos>) returns (g: Grid, life: Lifetimes, expired: seq<Pos>)
    requires a.Valid()
    requires forall p :: p in keys <==> p in a.lifetimes
    requires forall i, j :: 0 <= i < j < |keys| ==> keys[i] != keys[j]
    ensures g == SweepGrid(a.grid, a.width, a.height, a.lifetimes)
    ensures forall p :: p in life <==> p in a.lifetimes
    ensures forall p :: p in life ==> life[p] == (if a.lifetimes[p] > 0 then a.lifetimes[p] - 1 else a.lifetimes[p])
    ensures forall p :: p in expired <==> Expired(a.lifetimes, p)
  {
    var w, h := a.width, a.height;
    g := a.grid;
    life := a.lifetimes;
    expired := [];
    ghost var seen: set<Pos> := {};
    for i := 0 to |keys|
      invariant Rect(g, w, h)
      invariant forall k :: 0 <= k < i ==> keys[k] in seen
      invariant forall k :: i <= k < |keys| ==> keys[k] !in seen
      invariant forall y, x :: 0 <= y < h && 0 <= x < w ==>
                  g[y][x] == (if (x, y) in seen && Expired(a.lifetimes, (x, y)) && IsSmoke(a.grid[y][x]) then Empty else a.grid[y][x])
      invariant forall p :: p in life <==> p in a.lifetimes
      invariant forall p :: p in life ==> life[p] == (if p in seen && a.lifetimes[p] > 0 then a.lifetimes[p] - 1 else a.lifetimes[p])
      invariant forall p :: p in expired <==> p in seen && Expired(a.lifetimes, p)
    {
      var p := keys[i];
      var lifetime := life[p];
      if lifetime <= 0 {
        if 0 <= p.0 < w && 0 <= p.1 < h && IsSmoke(g[p.1][p.0]) {
          g := Put(g, w, h, p.0, p.1, Empty);
        }
        expired := expired + [p];
      } else {
        life := life[p := lifetime - 1];
      }
      seen := seen + {p};
    }
    assert forall p :: p in a.lifetimes ==> p in seen;
    GridExt(g, SweepGrid(a.grid, w, h, a.lifetimes), w, h);
  }

  /** The second pass of the sweep: deletes every listed key. */
  method DropAll(life: Lifetimes, keys: seq<Pos>) returns (r: Lifetimes)
    ensures forall p :: p in r <==> p in life && p !in keys
    ensures forall p :: p in r ==> r[p] == life[p]
  {
    r := life;
    for j := 0 to |keys|
      invariant forall p :: p in r <==> p in life && p !in keys[..j]
      invariant forall p :: p in r ==> r[p] == life[p]
    {
      assert keys[..j + 1] == keys[..j] + [keys[j]];
      r := r - {keys[j]};
    }
    assert keys[..|keys|] == keys;
  }

  /** The countdowns after n sweeps. */
  function Countdown(life: Lifetimes, n: nat): Lifetimes
    decreases n
  {
    if n == 0 then life else Countdown(SweepLifetimes(life), n - 1)
  }

  /** A countdown of v counts down by one per sweep while it stays
      positive. */
  lemma {:induction false} CountdownTicks(life: Lifetimes, p: Pos, n: nat)
    requires p in life && life[p] >= n
    ensures p in Countdown(life, n) && Countdown(life, n)[p] == life[p] - n
    decreases n
  {
    if n > 0 {
      var next := SweepLifetimes(life);
      assert p in next && next[p] == life[p] - 1;
      CountdownTicks(next, p, n - 1);
    }
  }

  /** An entry holding v >= 0 survives v sweeps and is removed by sweep
      number v + 1; an entry that never was is never created by sweeping. */
  lemma CountdownExpiry(life: Lifetimes, p: Pos)
    requires p in life && life[p] >= 0
    ensures p in Countdown(life, life[p]) && Expired(Countdown(life, life[p]), p)
    ensures p !in Countdown(life, life[p] + 1)
  {
    var v := life[p];
    CountdownTicks(life, p, v);
    var last := Countdown(life, v);
    CountdownAppend(life, v);
    assert Countdown(life, v + 1) == SweepLifetimes(last);
  }

  /** One more sweep after n sweeps. */
  lemma {:induction false} CountdownAppend(life: Lifetimes, n: nat)
    ensures Countdown(life, n + 1) == SweepLifetimes(Countdown(life, n))
    decreases n
  {
    if n > 0 {
      CountdownAppend(SweepLifetimes(life), n - 1);
    }
  }

  /** One generation: every cell is dispatched once, in the shuffled order
      `order`, against a scratch buffer that starts as a copy of the grid;
      the scratch buffer becomes the grid and the sweep follows. Walls never
      move, appear or disappear, and every cell stays storable. */
  function Update(a: Automaton, order: seq<Pos>, draws: seq<Draw>): (r: Automaton)
    requires a.Valid() && IsOrdering(order, a.width, a.height) && |draws| == |order|
    ensures r.Valid() && r.width == a.width && r.height == a.height
    ensures forall y, x :: 0 <= y < a.height && 0 <= x < a.width ==> (r.grid[y][x] == Wall <==> a.grid[y][x] == Wall)
    ensures CountdownsNonNegative(a.lifetimes) ==> CountdownsNonNegative(r.lifetimes)
  {
    var s := Run(a.width, a.height, a.grid, Scratch(a.grid, a.lifetimes), order, draws);
    Settle(a, s);
    Sweep(Automaton(a.width, a.height, s.next, s.lifetimes))
  }

  /** Sweeping a scratch buffer that kept the walls and the storable cells
      of `a` gives a valid automaton with the walls of `a`. */
  lemma Settle(a: Automaton, s: Scratch)
    requires a.Valid() && Rect(s.next, a.width, a.height) && ValidGrid(s.next, a.width, a.height)
    requires WallsAgree(a.grid, s.next, a.width, a.height)
    ensures var r := Sweep(Automaton(a.width, a.height, s.next, s.lifetimes));
            && r.Valid() && r.width == a.width && r.height == a.height
            && forall y, x :: 0 <= y < a.height && 0 <= x < a.width ==> (r.grid[y][x] == Wall <==> a.grid[y][x] == Wall)
  {
    SweepKeepsWalls(s.next, a.width, a.height, s.lifetimes);
  }

  /** A world of empty cells and walls with no countdowns is a fixed point
      of the tick, whatever the shuffle and the draws. */
  lemma InertWorldIsFixed(a: Automaton, order: seq<Pos>, draws: seq<Draw>)
    requires a.Valid() && IsOrdering(order, a.width, a.height) && |draws| == |order|
    requires Inert(a.grid, a.width, a.height) && a.lifetimes == map[]
    ensures Update(a, order, draws) == a
  {
    InertRunIsIdle(a.width, a.height, a.grid, Scratch(a.grid, a.lifetimes), order, draws);
    GridExt(SweepGrid(a.grid, a.width, a.height, a.lifetimes), a.grid, a.width, a.height);
    assert SweepLifetimes(a.lifetimes) == map[];
  }
}
