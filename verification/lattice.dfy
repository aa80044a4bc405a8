/**
 The lattice of the falling-sand automaton: the cell states, the float code
 the simulation stores them as, the double-buffered grid, writes into the
 scratch buffer, and the random draws that one dispatch consumes.
 */
module Lattice {

  datatype Option<T> = None | Some(value: T)

  /** A position (x, y): x is the column, y the row; y grows downwards. */
  type Pos = (int, int)

  /** One cell. The simulation stores a cell as a float: 0..7 for the
      elements and any value of at least 8 for water holding that amount. */
  datatype Cell =
    | Empty | Wall | Sand | Wood | Fire | DarkSmoke | LightSmoke | Balloon
    | Water(amount: real)

  /** Smallest amount water can have (also the WATER code). */
  const MinWater: real := 8.0
  /** Largest amount the water rule accepts. */
  const MaxWater: real := 16.0

  /** The WATER element code the placement interface is called with. */
  const WaterTag: Cell := Water(MinWater)

  predicate IsSmoke(c: Cell) {
    c == DarkSmoke || c == LightSmoke
  }

  /** A cell the float encoding can hold: a water amount below 8 would be
      read back as another element. */
  predicate ValidCell(c: Cell) {
    c.Water? ==> c.amount >= MinWater
  }

  /** The float stored for a cell. */
  function Code(c: Cell): real {
    match c
    case Empty => 0.0
    case Wall => 1.0
    case Sand => 2.0
    case Wood => 3.0
    case Fire => 4.0
    case DarkSmoke => 5.0
    case LightSmoke => 6.0
    case Balloon => 7.0
    case Water(a) => a
  }

  /** Reads a stored float the way a tick dispatches on it, by its integer
      part; a negative code is dispatched to no rule. */
  function Decode(v: real): Option<Cell> {
    var k := v.Floor;
    if k < 0 then None
    else if k == 0 then Some(Empty)
    else if k == 1 then Some(Wall)
    else if k == 2 then Some(Sand)
    else if k == 3 then Some(Wood)
    else if k == 4 then Some(Fire)
    else if k == 5 then Some(DarkSmoke)
    else if k == 6 then Some(LightSmoke)
    else if k == 7 then Some(Balloon)
    else Some(Water(v))
  }

  /** The encoding round-trips, and the float comparisons the rules make
      (`== EMPTY`, `>= 8`) agree with the tags. */
  lemma DecodeCode(c: Cell)
    requires ValidCell(c)
    ensures Decode(Code(c)) == Some(c)
    ensures Code(c) >= MinWater <==> c.Water?
    ensures Code(c) == 0.0 <==> c == Empty
  {
  }

  type Grid = seq<seq<Cell>>

  /** `g` has `h` rows of `w` cells each. */
  predicate Rect<T>(g: seq<seq<T>>, w: nat, h: nat) {
    |g| == h && forall y :: 0 <= y < h ==> |g[y]| == w
  }

  predicate InBounds(w: int, h: int, x: int, y: int) {
    0 <= x < w && 0 <= y < h
  }

  /** Writes one cell. */
  function Put(g: Grid, w: nat, h: nat, x: int, y: int, c: Cell): (r: Grid)
    requires Rect(g, w, h) && InBounds(w, h, x, y)
    ensures Rect(r, w, h)
    ensures r[y][x] == c
    ensures forall y', x' :: InBounds(w, h, x', y') && (x', y') != (x, y) ==> r[y'][x'] == g[y'][x']
  {
    g[y := g[y][x := c]]
  }

  /** The occupancy test on the scratch buffer: in range and empty. */
  predicate IsEmpty(next: Grid, w: nat, h: nat, x: int, y: int)
    requires Rect(next, w, h)
  {
    InBounds(w, h, x, y) && next[y][x] == Empty
  }

  /** On a storable grid the tag test is the float test `next_grid[y, x] ==
      EMPTY` under the range check; on a grid holding a water amount of 0 the
      two would part. */
  lemma EmptyTest(next: Grid, w: nat, h: nat, x: int, y: int)
    requires Rect(next, w, h) && ValidGrid(next, w, h)
    ensures IsEmpty(next, w, h, x, y) <==> InBounds(w, h, x, y) && Code(next[y][x]) == 0.0
  {
    if InBounds(w, h, x, y) {
      DecodeCode(next[y][x]);
    }
  }

  /** One assignment a rule makes to the scratch buffer. */
  datatype Write = Write(x: int, y: int, c: Cell)

  predicate WritesInBounds(ws: seq<Write>, w: nat, h: nat) {
    forall i :: 0 <= i < |ws| ==> InBounds(w, h, ws[i].x, ws[i].y)
  }

  predicate Targets(ws: seq<Write>, x: int, y: int) {
    exists i :: 0 <= i < |ws| && ws[i].x == x && ws[i].y == y
  }

  /** No later write in `ws` goes to the position of `ws[i]`. */
  predicate LastTo(ws: seq<Write>, i: int)
    requires 0 <= i < |ws|
  {
    forall j :: i < j < |ws| ==> ws[j].x != ws[i].x || ws[j].y != ws[i].y
  }

  /** Performs the writes in order. */
  function Apply(g: Grid, w: nat, h: nat, ws: seq<Write>): (r: Grid)
    requires Rect(g, w, h) && WritesInBounds(ws, w, h)
    ensures Rect(r, w, h)
    ensures forall x, y :: InBounds(w, h, x, y) && !Targets(ws, x, y) ==> r[y][x] == g[y][x]
    ensures forall x, y :: InBounds(w, h, x, y) && r[y][x] != g[y][x] ==>
              exists i :: 0 <= i < |ws| && ws[i] == Write(x, y, r[y][x])
    ensures forall i :: 0 <= i < |ws| && LastTo(ws, i) ==> r[ws[i].y][ws[i].x] == ws[i].c
    decreases |ws|
  {
    if |ws| == 0 then g
    else
      var g1 := Put(g, w, h, ws[0].x, ws[0].y, ws[0].c);
      var r := Apply(g1, w, h, ws[1..]);
      assert forall x, y :: Targets(ws[1..], x, y) ==> Targets(ws, x, y) by {
        forall x, y | Targets(ws[1..], x, y) ensures Targets(ws, x, y) {
          var i :| 0 <= i < |ws[1..]| && ws[1..][i].x == x && ws[1..][i].y == y;
          assert ws[i + 1].x == x && ws[i + 1].y == y;
        }
      }
      assert forall i :: 1 <= i < |ws| ==> ws[i] == ws[1..][i - 1];
      r
  }

  /** A move leaves the written cells' kinds in place and never creates or
      overwrites a wall: every write is in range, is not a wall, and lands on
      a cell that is not a wall in one of the two buffers. */
  predicate SafeWrites(ws: seq<Write>, w: nat, h: nat, cur: Grid, next: Grid)
    requires Rect(cur, w, h) && Rect(next, w, h)
  {
    forall i :: 0 <= i < |ws| ==>
      && InBounds(w, h, ws[i].x, ws[i].y)
      && ws[i].c != Wall
      && (cur[ws[i].y][ws[i].x] != Wall || next[ws[i].y][ws[i].x] != Wall)
  }

  /** Every write stays within the 3x3 neighbourhood of (x, y). */
  predicate Near(ws: seq<Write>, x: int, y: int) {
    forall i :: 0 <= i < |ws| ==> x - 1 <= ws[i].x <= x + 1 && y - 1 <= ws[i].y <= y + 1
  }

  /** Every written cell is storable. */
  predicate ValidWrites(ws: seq<Write>) {
    forall i :: 0 <= i < |ws| ==> ValidCell(ws[i].c)
  }

  /** Both buffers have their walls in the same places. */
  predicate WallsAgree(a: Grid, b: Grid, w: nat, h: nat)
    requires Rect(a, w, h) && Rect(b, w, h)
  {
    forall y, x :: 0 <= y < h && 0 <= x < w ==> (a[y][x] == Wall <==> b[y][x] == Wall)
  }

  /** Safe writes keep the scratch buffer's walls where the current buffer
      has them. */
  lemma SafeWritesKeepWalls(ws: seq<Write>, w: nat, h: nat, cur: Grid, next: Grid)
    requires Rect(cur, w, h) && Rect(next, w, h)
    requires SafeWrites(ws, w, h, cur, next) && WallsAgree(cur, next, w, h)
    ensures WritesInBounds(ws, w, h)
    ensures WallsAgree(cur, Apply(next, w, h, ws), w, h)
  {
    var r := Apply(next, w, h, ws);
    forall y, x | InBounds(w, h, x, y)
      ensures cur[y][x] == Wall <==> r[y][x] == Wall
    {
      if r[y][x] != next[y][x] {
        var i :| 0 <= i < |ws| && ws[i] == Write(x, y, r[y][x]);
      }
    }
  }

  /** The random numbers one dispatch consumes: `shuffle` picks the order a
      shuffled triple of directions is tried in, `swap` the order of the
      sideways pair, `pickRight` the outcome of a choice between two cells,
      and `firstLife`, `life` are raw draws mapped into a lifetime range. */
  datatype Draw = Draw(shuffle: nat, swap: bool, pickRight: bool, firstLife: nat, life: nat)

  const Down3: seq<Pos> := [(0, 1), (-1, 1), (1, 1)]
  const Up3: seq<Pos> := [(0, -1), (-1, -1), (1, -1)]
  const Sideways: seq<Pos> := [(-1, 0), (1, 0)]

  /** One of the six orders of a triple. */
  function Shuffle3(dirs: seq<Pos>, k: nat): (r: seq<Pos>)
    requires |dirs| == 3
    ensures |r| == 3 && forall d :: d in r <==> d in dirs
  {
    var j := k % 6;
    var (a, b, c) :=
      if j == 0 then (0, 1, 2)
      else if j == 1 then (0, 2, 1)
      else if j == 2 then (1, 0, 2)
      else if j == 3 then (1, 2, 0)
      else if j == 4 then (2, 0, 1)
      else (2, 1, 0);
    [dirs[a], dirs[b], dirs[c]]
  }

  /** Every order `Shuffle3` picks is a permutation of the triple. */
  lemma Shuffle3Permutes(dirs: seq<Pos>, k: nat)
    requires |dirs| == 3
    ensures multiset(Shuffle3(dirs, k)) == multiset(dirs)
  {
    var j := k % 6;
    var (p, q, t) := (dirs[0], dirs[1], dirs[2]);
    assert dirs == [p, q, t];
    var r := Shuffle3(dirs, k);
    if j == 1 {
      SwapBack(p, q, t);
    } else if j == 2 {
      SwapFront(p, q, t);
    } else if j == 3 {
      SwapFront(p, q, t);
      SwapBack(q, p, t);
    } else if j == 4 {
      SwapBack(p, q, t);
      SwapFront(p, t, q);
    } else if j == 5 {
      SwapBack(p, q, t);
      SwapFront(p, t, q);
      SwapBack(t, p, q);
    }
  }

  lemma SwapFront(a: Pos, b: Pos, c: Pos)
    ensures multiset([b, a, c]) == multiset([a, b, c])
  {
  }

  lemma SwapBack(a: Pos, b: Pos, c: Pos)
    ensures multiset([a, c, b]) == multiset([a, b, c])
  {
  }

  /** One of the two orders of a pair. */
  function Shuffle2(dirs: seq<Pos>, swap: bool): (r: seq<Pos>)
    requires |dirs| == 2
    ensures |r| == 2 && forall d :: d in r <==> d in dirs
  {
    if swap then [dirs[1], dirs[0]] else dirs
  }

  /** Both orders of a pair are permutations of it. */
  lemma Shuffle2Permutes(dirs: seq<Pos>, swap: bool)
    requires |dirs| == 2
    ensures multiset(Shuffle2(dirs, swap)) == multiset(dirs)
  {
    assert dirs == [dirs[0], dirs[1]];
  }

  /** The position reached from (x, y) by offset `d`. */
  function Offset(x: int, y: int, d: Pos): Pos {
    (x + d.0, y + d.1)
  }

  /** Offset i of `dirs` leads from (x, y) to the empty scratch cell `p`,
      and every offset before it leads to a cell that is not empty. */
  predicate FirstEmptyAt(next: Grid, w: nat, h: nat, x: int, y: int, dirs: seq<Pos>, i: int, p: Pos)
    requires Rect(next, w, h)
  {
    && 0 <= i < |dirs| && p == Offset(x, y, dirs[i]) && IsEmpty(next, w, h, p.0, p.1)
    && forall j :: 0 <= j < i ==> !IsEmpty(next, w, h, Offset(x, y, dirs[j]).0, Offset(x, y, dirs[j]).1)
  }

  /** `p` is reached by the first offset of `dirs` that leads to an empty
      scratch cell. */
  predicate IsFirstEmpty(next: Grid, w: nat, h: nat, x: int, y: int, dirs: seq<Pos>, p: Pos)
    requires Rect(next, w, h)
  {
    exists i :: 0 <= i < |dirs| && FirstEmptyAt(next, w, h, x, y, dirs, i, p)
  }

  /** The first of the offsets, tried in order, that leads to an empty cell
      of the scratch buffer. */
  function FirstEmpty(next: Grid, w: nat, h: nat, x: int, y: int, dirs: seq<Pos>): (r: Option<Pos>)
    requires Rect(next, w, h)
    ensures r.Some? ==> exists i :: 0 <= i < |dirs| && r.value == Offset(x, y, dirs[i])
    ensures r.Some? ==> IsEmpty(next, w, h, r.value.0, r.value.1)
    ensures r.Some? ==> IsFirstEmpty(next, w, h, x, y, dirs, r.value)
    ensures r.None? <==> forall i :: 0 <= i < |dirs| ==> !IsEmpty(next, w, h, Offset(x, y, dirs[i]).0, Offset(x, y, dirs[i]).1)
    ensures |dirs| > 0 && IsEmpty(next, w, h, Offset(x, y, dirs[0]).0, Offset(x, y, dirs[0]).1) ==> r == Some(Offset(x, y, dirs[0]))
    decreases |dirs|
  {
    if |dirs| == 0 then None
    else
      var p := Offset(x, y, dirs[0]);
      if IsEmpty(next, w, h, p.0, p.1) then
        assert FirstEmptyAt(next, w, h, x, y, dirs, 0, p);
        Some(p)
      else
        var r := FirstEmpty(next, w, h, x, y, dirs[1..]);
        assert forall i :: 1 <= i < |dirs| ==> dirs[i] == dirs[1..][i - 1];
        if r.Some? then
          FirstEmptyShift(next, w, h, x, y, dirs, r.value);
          r
        else r
  }

  /** Behind a blocked first offset, the first empty offset of the rest is
      the first empty offset of the whole. */
  lemma FirstEmptyShift(next: Grid, w: nat, h: nat, x: int, y: int, dirs: seq<Pos>, p: Pos)
    requires Rect(next, w, h) && |dirs| > 0
    requires !IsEmpty(next, w, h, Offset(x, y, dirs[0]).0, Offset(x, y, dirs[0]).1)
    requires IsFirstEmpty(next, w, h, x, y, dirs[1..], p)
    ensures IsFirstEmpty(next, w, h, x, y, dirs, p)
  {
    var rest := dirs[1..];
    var i :| 0 <= i < |rest| && FirstEmptyAt(next, w, h, x, y, rest, i, p);
    assert dirs[i + 1] == rest[i];
    forall j | 0 <= j < i + 1
      ensures !IsEmpty(next, w, h, Offset(x, y, dirs[j]).0, Offset(x, y, dirs[j]).1)
    {
      if j > 0 {
        assert dirs[j] == rest[j - 1];
      }
    }
    assert FirstEmptyAt(next, w, h, x, y, dirs, i + 1, p);
  }


  type Lifetimes = map<Pos, int>

  /** The countdown a new smoke cell draws: randint(10, 20) for dark smoke
      and randint(7, 10) for light smoke, both bounds inclusive. */
  predicate InLifetimeRange(kind: Cell, n: int) {
    if kind == DarkSmoke then 10 <= n <= 20 else 7 <= n <= 10
  }

  /** Maps a raw draw onto the countdown range of the smoke kind. */
  function Fresh(kind: Cell, raw: nat): (n: int)
    ensures InLifetimeRange(kind, n)
  {
    if kind == DarkSmoke then 10 + raw % 11 else 7 + raw % 4
  }

  /** Every cell of the grid can be stored as a float and read back. */
  predicate ValidGrid(g: Grid, w: nat, h: nat)
    requires Rect(g, w, h)
  {
    forall y, x :: 0 <= y < h && 0 <= x < w ==> ValidCell(g[y][x])
  }

  /** The simulation: its dimensions, the current buffer and the smoke
      countdowns keyed by position. */
  datatype Automaton = Automaton(width: nat, height: nat, grid: Grid, lifetimes: Lifetimes) {
    predicate Valid() {
      Rect(grid, width, height) && ValidGrid(grid, width, height)
    }
  }

  /** How many cells of a row equal `c`. */
  function RowCount(row: seq<Cell>, c: Cell): nat
    decreases |row|
  {
    if |row| == 0 then 0 else (if row[0] == c then 1 else 0) + RowCount(row[1..], c)
  }

  /** How many cells of a grid equal `c`. */
  function CountOf(g: Grid, c: Cell): nat
    decreases |g|
  {
    if |g| == 0 then 0 else RowCount(g[0], c) + CountOf(g[1..], c)
  }

  function Indicator(b: bool): nat {
    if b then 1 else 0
  }

  lemma {:induction false} RowCountUpdate(row: seq<Cell>, x: int, v: Cell, c: Cell)
    requires 0 <= x < |row|
    ensures RowCount(row[x := v], c) + Indicator(row[x] == c) == RowCount(row, c) + Indicator(v == c)
    decreases |row|
  {
    var row' := row[x := v];
    if x == 0 {
      assert row'[1..] == row[1..];
    } else {
      assert row'[1..] == row[1..][x - 1 := v];
      RowCountUpdate(row[1..], x - 1, v, c);
    }
  }

  lemma {:induction false} CountOfUpdateRow(g: Grid, y: int, row: seq<Cell>, c: Cell)
    requires 0 <= y < |g|
    ensures CountOf(g[y := row], c) + RowCount(g[y], c) == CountOf(g, c) + RowCount(row, c)
    decreases |g|
  {
    var g' := g[y := row];
    if y == 0 {
      assert g'[1..] == g[1..];
    } else {
      assert g'[1..] == g[1..][y - 1 := row];
      CountOfUpdateRow(g[1..], y - 1, row, c);
    }
  }

  /** Writing `v` over one cell swaps one occurrence of the old cell for `v`. */
  lemma CountOfPut(g: Grid, w: nat, h: nat, x: int, y: int, v: Cell, c: Cell)
    requires Rect(g, w, h) && InBounds(w, h, x, y)
    ensures CountOf(Put(g, w, h, x, y, v), c) + Indicator(g[y][x] == c) == CountOf(g, c) + Indicator(v == c)
  {
    CountOfUpdateRow(g, y, g[y][x := v], c);
    RowCountUpdate(g[y], x, v, c);
  }

  /** `ws` moves the cell at (x, y) into a different cell that is empty in
      the scratch buffer, leaving (x, y) empty. */
  predicate IsMove(ws: seq<Write>, next: Grid, w: nat, h: nat, x: int, y: int, kind: Cell)
    requires Rect(next, w, h)
  {
    && |ws| == 2
    && ws[0] == Write(x, y, Empty)
    && ws[1].c == kind
    && (ws[1].x != x || ws[1].y != y)
    && IsEmpty(next, w, h, ws[1].x, ws[1].y)
  }

  /** A move keeps the number of cells of every kind in the scratch buffer:
      nothing is created or destroyed. */
  lemma MoveKeepsCounts(ws: seq<Write>, next: Grid, w: nat, h: nat, x: int, y: int, kind: Cell)
    requires Rect(next, w, h) && InBounds(w, h, x, y) && next[y][x] == kind
    requires IsMove(ws, next, w, h, x, y, kind)
    ensures WritesInBounds(ws, w, h)
    ensures forall c :: CountOf(Apply(next, w, h, ws), c) == CountOf(next, c)
  {
    var g1 := Put(next, w, h, x, y, Empty);
    var g2 := Put(g1, w, h, ws[1].x, ws[1].y, kind);
    assert Apply(g1, w, h, ws[1..]) == Apply(g2, w, h, []);
    forall c ensures CountOf(g2, c) == CountOf(next, c) {
      CountOfPut(next, w, h, x, y, Empty, c);
      CountOfPut(g1, w, h, ws[1].x, ws[1].y, kind, c);
    }
  }
}
