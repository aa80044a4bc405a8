/**
 Placing an element by hand (lines 461-479 of IS-N1/Automaton_2D.py).
 */
module Placement {
  import opened Lattice
  import opened Tick

  /** The amount stored when water is placed. */
  const PlacedWater: real := 15.0

  /** The cell actually stored for element `e`: the water code stores a
      fixed amount, every other element is stored as itself. */
  function Stored(e: Cell): (c: Cell)
    ensures e == WaterTag ==> c == Water(PlacedWater)
    ensures e != WaterTag ==> c == e
  {
    if e == WaterTag then Water(PlacedWater) else e
  }

  /** Places `e` at (x, y) unless that is out of range or a wall. Placed
      smoke gets a fresh countdown drawn from `raw`; placing anything else
      leaves the countdowns alone. */
  function AddElement(a: Automaton, x: int, y: int, e: Cell, raw: nat): (r: Automaton)
    requires a.Valid() && ValidCell(e)
    ensures r.Valid() && r.width == a.width && r.height == a.height
    ensures !InBounds(a.width, a.height, x, y) || a.grid[y][x] == Wall ==> r == a
    ensures InBounds(a.width, a.height, x, y) && a.grid[y][x] != Wall ==>
              && r.grid[y][x] == Stored(e)
              && (e == WaterTag ==> MinWater <= r.grid[y][x].amount <= MaxWater)
              && (IsSmoke(e) ==> (x, y) in r.lifetimes && InLifetimeRange(e, r.lifetimes[(x, y)]))
    ensures forall py, px :: 0 <= py < a.height && 0 <= px < a.width && (px, py) != (x, y) ==> r.grid[py][px] == a.grid[py][px]
    ensures forall py, px :: 0 <= py < a.height && 0 <= px < a.width && a.grid[py][px] == Wall ==> r.grid[py][px] == Wall
    ensures forall p :: p != (x, y) ==> (p in r.lifetimes <==> p in a.lifetimes)
    ensures forall p :: p != (x, y) && p in r.lifetimes ==> r.lifetimes[p] == a.lifetimes[p]
    ensures !IsSmoke(e) ==> r.lifetimes == a.lifetimes
  {
    if InBounds(a.width, a.height, x, y) && a.grid[y][x] != Wall then
      var g := Put(a.grid, a.width, a.height, x, y, Stored(e));
      var life := if IsSmoke(e) then a.lifetimes[(x, y) := Fresh(e, raw)] else a.lifetimes;
      Automaton(a.width, a.height, g, life)
    else
      a
  }

  /** Placing the same element twice with the same draw is the same as
      placing it once. */
  lemma AddElementIdempotent(a: Automaton, x: int, y: int, e: Cell, raw: nat)
    requires a.Valid() && ValidCell(e)
    ensures var once := AddElement(a, x, y, e, raw);
            AddElement(once, x, y, e, raw) == once
  {
    var once := AddElement(a, x, y, e, raw);
    if InBounds(a.width, a.height, x, y) && a.grid[y][x] != Wall && Stored(e) != Wall {
      GridExt(Put(once.grid, a.width, a.height, x, y, Stored(e)), once.grid, a.width, a.height);
    }
  }

  /** Placed smoke's countdown runs out: left to the sweeps alone it is
      still present after as many sweeps as it holds and gone after one
      more. */
  lemma PlacedSmokeExpires(a: Automaton, x: int, y: int, e: Cell, raw: nat)
    requires a.Valid() && IsSmoke(e) && InBounds(a.width, a.height, x, y) && a.grid[y][x] != Wall
    ensures var life := AddElement(a, x, y, e, raw).lifetimes;
            && life[(x, y)] == Fresh(e, raw)
            && Expired(Countdown(life, Fresh(e, raw)), (x, y))
            && (x, y) !in Countdown(life, Fresh(e, raw) + 1)
  {
    var life := AddElement(a, x, y, e, raw).lifetimes;
    CountdownExpiry(life, (x, y));
  }
}
