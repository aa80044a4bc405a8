/**
 The transition rules of the solid and gaseous elements. Each rule reads the
 kind from the current buffer, tests occupancy in the scratch buffer, and
 returns the writes it makes to the scratch buffer (smoke also returns the
 updated countdown map).
 */
module Rules {
  import opened Lattice

  /** None of the offsets from (x, y) leads to an empty scratch cell. */
  predicate Blocked(next: Grid, w: nat, h: nat, x: int, y: int, dirs: seq<Pos>)
    requires Rect(next, w, h)
  {
    forall i :: 0 <= i < |dirs| ==> !IsEmpty(next, w, h, Offset(x, y, dirs[i]).0, Offset(x, y, dirs[i]).1)
  }

  /** Searching the offsets in any order finds an empty cell exactly when
      they are not all blocked, and only ever finds one of them. */
  lemma SearchInAnyOrder(next: Grid, w: nat, h: nat, x: int, y: int, dirs: seq<Pos>, order: seq<Pos>)
    requires Rect(next, w, h)
    requires forall d :: d in order <==> d in dirs
    ensures FirstEmpty(next, w, h, x, y, order).None? <==> Blocked(next, w, h, x, y, dirs)
    ensures FirstEmpty(next, w, h, x, y, order).Some? ==>
              exists d :: d in dirs && FirstEmpty(next, w, h, x, y, order).value == Offset(x, y, d)
  {
    var r := FirstEmpty(next, w, h, x, y, order);
    if r.None? {
      forall i | 0 <= i < |dirs|
        ensures !IsEmpty(next, w, h, Offset(x, y, dirs[i]).0, Offset(x, y, dirs[i]).1)
      {
        assert dirs[i] in order;
      }
    } else {
      var i :| 0 <= i < |order| && r.value == Offset(x, y, order[i]);
      assert order[i] in dirs;
      var j :| 0 <= j < |dirs| && dirs[j] == order[i];
    }
  }

  /** Blocking of a triple, spelled out. */
  lemma BlockedTriple(next: Grid, w: nat, h: nat, x: int, y: int, dirs: seq<Pos>)
    requires Rect(next, w, h) && |dirs| == 3
    ensures Blocked(next, w, h, x, y, dirs) <==>
              && !IsEmpty(next, w, h, x + dirs[0].0, y + dirs[0].1)
              && !IsEmpty(next, w, h, x + dirs[1].0, y + dirs[1].1)
              && !IsEmpty(next, w, h, x + dirs[2].0, y + dirs[2].1)
  {
  }

  /** Sand falls straight down when it can, otherwise to an empty lower
      diagonal chosen by `pickRight` when both are free, otherwise stays. */
  function SandRule(w: nat, h: nat, cur: Grid, next: Grid, x: int, y: int, pickRight: bool): (ws: seq<Write>)
    requires Rect(cur, w, h) && Rect(next, w, h) && InBounds(w, h, x, y) && cur[y][x] == Sand
    ensures SafeWrites(ws, w, h, cur, next)
    ensures ws == [] || IsMove(ws, next, w, h, x, y, Sand)
    ensures ws != [] ==> ws[1].y == y + 1 && x - 1 <= ws[1].x <= x + 1
    ensures IsEmpty(next, w, h, x, y + 1) ==> ws == [Write(x, y, Empty), Write(x, y + 1, Sand)]
    ensures ws == [] <==> Blocked(next, w, h, x, y, Down3)
    ensures ValidWrites(ws) && Near(ws, x, y)
  {
    BlockedTriple(next, w, h, x, y, Down3);
    if IsEmpty(next, w, h, x, y + 1) then
      [Write(x, y, Empty), Write(x, y + 1, Sand)]
    else if IsEmpty(next, w, h, x - 1, y + 1) || IsEmpty(next, w, h, x + 1, y + 1) then
      var options :=
        (if IsEmpty(next, w, h, x - 1, y + 1) then [(x - 1, y + 1)] else [])
        + (if IsEmpty(next, w, h, x + 1, y + 1) then [(x + 1, y + 1)] else []);
      var target := if pickRight && |options| == 2 then options[1] else options[0];
      [Write(x, y, Empty), Write(target.0, target.1, Sand)]
    else
      []
  }

  /** Wood only ever falls straight down by one cell. */
  function WoodRule(w: nat, h: nat, cur: Grid, next: Grid, x: int, y: int): (ws: seq<Write>)
    requires Rect(cur, w, h) && Rect(next, w, h) && InBounds(w, h, x, y) && cur[y][x] == Wood
    ensures SafeWrites(ws, w, h, cur, next)
    ensures ws == [] || (IsMove(ws, next, w, h, x, y, Wood) && ws[1].x == x && ws[1].y == y + 1)
    ensures ws == [] <==> !IsEmpty(next, w, h, x, y + 1)
    ensures ValidWrites(ws) && Near(ws, x, y)
  {
    if IsEmpty(next, w, h, x, y + 1) then [Write(x, y, Empty), Write(x, y + 1, Wood)] else []
  }

  /** The current buffer holds wood directly below (x, y). */
  predicate WoodBelow(cur: Grid, w: nat, h: nat, x: int, y: int)
    requires Rect(cur, w, h) && InBounds(w, h, x, y)
  {
    0 <= y + 1 < h && cur[y + 1][x] == Wood
  }

  /** Fire ignites wood directly below it (leaving dark smoke behind),
      otherwise falls into the first empty cell of its shuffled lower triple,
      otherwise turns into light smoke. The second wood test repeats the
      first against the same buffer. */
  function FireRule(w: nat, h: nat, cur: Grid, next: Grid, x: int, y: int, shuffle: nat): (ws: seq<Write>)
    requires Rect(cur, w, h) && Rect(next, w, h) && InBounds(w, h, x, y) && cur[y][x] == Fire
    ensures SafeWrites(ws, w, h, cur, next)
    ensures WoodBelow(cur, w, h, x, y) ==> ws == [Write(x, y + 1, Fire), Write(x, y, DarkSmoke)]
    ensures !WoodBelow(cur, w, h, x, y) && !Blocked(next, w, h, x, y, Down3) ==>
              && IsMove(ws, next, w, h, x, y, Fire) && ws[1].y == y + 1 && x - 1 <= ws[1].x <= x + 1
              && IsFirstEmpty(next, w, h, x, y, Shuffle3(Down3, shuffle), (ws[1].x, ws[1].y))
    ensures !WoodBelow(cur, w, h, x, y) && Blocked(next, w, h, x, y, Down3) ==> ws == [Write(x, y, LightSmoke)]
    ensures ValidWrites(ws) && Near(ws, x, y)
  {
    if 0 <= y + 1 < h && cur[y + 1][x] == Wood then
      [Write(x, y + 1, Fire), Write(x, y, DarkSmoke)]
    else
      FireFall(w, h, cur, next, x, y, shuffle)
  }

  /** The part of the fire rule after the first wood test: the fall into
      the first empty cell of the shuffled lower triple, and when all three
      are blocked the second wood test and the light smoke. */
  function FireFall(w: nat, h: nat, cur: Grid, next: Grid, x: int, y: int, shuffle: nat): (ws: seq<Write>)
    requires Rect(cur, w, h) && Rect(next, w, h) && InBounds(w, h, x, y) && cur[y][x] == Fire
    ensures SafeWrites(ws, w, h, cur, next) && ValidWrites(ws) && Near(ws, x, y)
    ensures !Blocked(next, w, h, x, y, Down3) ==>
              && IsMove(ws, next, w, h, x, y, Fire) && ws[1].y == y + 1 && x - 1 <= ws[1].x <= x + 1
              && IsFirstEmpty(next, w, h, x, y, Shuffle3(Down3, shuffle), (ws[1].x, ws[1].y))
    ensures Blocked(next, w, h, x, y, Down3) ==>
              ws == if WoodBelow(cur, w, h, x, y) then [Write(x, y + 1, Fire), Write(x, y, DarkSmoke)] else [Write(x, y, LightSmoke)]
  {
    var dirs := Shuffle3(Down3, shuffle);
    SearchInAnyOrder(next, w, h, x, y, Down3, dirs);
    match FirstEmpty(next, w, h, x, y, dirs)
    case Some(p) =>
      LowerTriple(p, x, y);
      FireMove(w, h, cur, next, x, y, p)
    case None =>
      if 0 <= y + 1 < h && cur[y + 1][x] == Wood then
        [Write(x, y + 1, Fire), Write(x, y, DarkSmoke)]
      else
        [Write(x, y, LightSmoke)]
  }

  /** Fire at (x, y) falling into the empty cell `p` below it. */
  function FireMove(w: nat, h: nat, cur: Grid, next: Grid, x: int, y: int, p: Pos): (ws: seq<Write>)
    requires Rect(cur, w, h) && Rect(next, w, h) && InBounds(w, h, x, y) && cur[y][x] == Fire
    requires Below(p, x, y) && IsEmpty(next, w, h, p.0, p.1)
    ensures SafeWrites(ws, w, h, cur, next) && IsMove(ws, next, w, h, x, y, Fire)
    ensures ValidWrites(ws) && Near(ws, x, y) && (ws[1].x, ws[1].y) == p
  {
    MoveIsSafe(w, h, cur, next, x, y, p, Fire);
    [Write(x, y, Empty), Write(p.0, p.1, Fire)]
  }

  predicate Below(p: Pos, x: int, y: int) {
    p.1 == y + 1 && x - 1 <= p.0 <= x + 1
  }

  lemma LowerTriple(p: Pos, x: int, y: int)
    requires exists d :: d in Down3 && p == Offset(x, y, d)
    ensures Below(p, x, y)
  {
  }

  /** Moves the countdown kept at `src` to `dst`, or gives `dst` a fresh
      countdown when `src` has none. */
  function Relocate(life: Lifetimes, src: Pos, dst: Pos, draw: int): (r: Lifetimes)
    requires src != dst
    ensures src !in r && dst in r
    ensures r[dst] == (if src in life then life[src] else draw)
    ensures forall p :: p != src && p != dst ==> (p in r <==> p in life)
    ensures forall p :: p != src && p != dst && p in r ==> r[p] == life[p]
  {
    if src in life then life[dst := life[src]] - {src} else life[dst := draw]
  }

  datatype SmokeStep = SmokeStep(writes: seq<Write>, lifetimes: Lifetimes)

  /** The countdown map after the source's countdown moved to `dst`: the
      source key is gone, `dst` is present, every other key is as before. */
  ghost predicate Relocated(life: Lifetimes, r: Lifetimes, src: Pos, dst: Pos) {
    && src !in r && dst in r
    && (forall p :: p != src && p != dst ==> (p in r <==> p in life))
    && (forall p :: p != src && p != dst && p in r ==> r[p] == life[p])
  }

  /** Smoke moving from (x, y) to `p`. */
  function SmokeMove(x: int, y: int, p: Pos, kind: Cell, life: Lifetimes): (r: SmokeStep)
    requires p != (x, y)
    ensures r.writes == [Write(x, y, Empty), Write(p.0, p.1, kind)]
    ensures r.lifetimes == life
  {
    SmokeStep([Write(x, y, Empty), Write(p.0, p.1, kind)], life)
  }

  /** Smoke rising into `p`: the countdown is relocated (lines 291-300) and
      relocated again from the now-missing source (lines 319-329). */
  function SmokeRise(life: Lifetimes, x: int, y: int, p: Pos, kind: Cell, d: Draw): (r: Lifetimes)
    requires p != (x, y)
    ensures Relocated(life, r, (x, y), p)
    ensures r[p] == Fresh(kind, d.life)
  {
    var life1 := Relocate(life, (x, y), p, Fresh(kind, d.firstLife));
    Relocate(life1, (x, y), p, Fresh(kind, d.life))
  }

  /** Moving a non-wall cell into an empty scratch cell is a safe move. */
  lemma MoveIsSafe(w: nat, h: nat, cur: Grid, next: Grid, x: int, y: int, p: Pos, kind: Cell)
    requires Rect(cur, w, h) && Rect(next, w, h) && InBounds(w, h, x, y)
    requires cur[y][x] == kind && kind != Wall && p != (x, y) && IsEmpty(next, w, h, p.0, p.1)
    ensures SafeWrites([Write(x, y, Empty), Write(p.0, p.1, kind)], w, h, cur, next)
    ensures IsMove([Write(x, y, Empty), Write(p.0, p.1, kind)], next, w, h, x, y, kind)
  {
  }

  predicate Above(p: Pos, x: int, y: int) {
    p.1 == y - 1 && x - 1 <= p.0 <= x + 1
  }

  predicate Beside(p: Pos, x: int, y: int) {
    p.1 == y && (p.0 == x - 1 || p.0 == x + 1)
  }

  lemma UpperTriple(p: Pos, x: int, y: int)
    requires exists d :: d in Up3 && p == Offset(x, y, d)
    ensures Above(p, x, y)
  {
  }

  lemma SidewaysPair(p: Pos, x: int, y: int)
    requires exists d :: d in Sideways && p == Offset(x, y, d)
    ensures Beside(p, x, y)
  {
  }

  /** Smoke at (x, y) rising into the empty cell `p` above it. */
  function SmokeUp(w: nat, h: nat, cur: Grid, next: Grid, life: Lifetimes, x: int, y: int, p: Pos, kind: Cell, d: Draw): (r: SmokeStep)
    requires Rect(cur, w, h) && Rect(next, w, h) && InBounds(w, h, x, y)
    requires IsSmoke(kind) && cur[y][x] == kind && Above(p, x, y) && IsEmpty(next, w, h, p.0, p.1)
    ensures SafeWrites(r.writes, w, h, cur, next) && IsMove(r.writes, next, w, h, x, y, kind)
    ensures ValidWrites(r.writes) && Near(r.writes, x, y) && (r.writes[1].x, r.writes[1].y) == p
    ensures Relocated(life, r.lifetimes, (x, y), p)
    ensures r.lifetimes[p] == Fresh(kind, d.life) && InLifetimeRange(kind, r.lifetimes[p])
  {
    MoveIsSafe(w, h, cur, next, x, y, p, kind);
    SmokeMove(x, y, p, kind, SmokeRise(life, x, y, p, kind, d))
  }

  /** Smoke at (x, y) drifting into the empty cell `p` beside it, carrying
      its countdown along or drawing a fresh one. */
  function SmokeSide(w: nat, h: nat, cur: Grid, next: Grid, life: Lifetimes, x: int, y: int, p: Pos, kind: Cell, d: Draw): (r: SmokeStep)
    requires Rect(cur, w, h) && Rect(next, w, h) && InBounds(w, h, x, y)
    requires IsSmoke(kind) && cur[y][x] == kind && Beside(p, x, y) && IsEmpty(next, w, h, p.0, p.1)
    ensures SafeWrites(r.writes, w, h, cur, next) && IsMove(r.writes, next, w, h, x, y, kind)
    ensures ValidWrites(r.writes) && Near(r.writes, x, y) && (r.writes[1].x, r.writes[1].y) == p
    ensures Relocated(life, r.lifetimes, (x, y), p)
    ensures r.lifetimes[p] == (if (x, y) in life then life[(x, y)] else Fresh(kind, d.life))
  {
    MoveIsSafe(w, h, cur, next, x, y, p, kind);
    SmokeMove(x, y, p, kind, Relocate(life, (x, y), p, Fresh(kind, d.life)))
  }

  /** Smoke rises into the first empty cell of its shuffled upper triple,
      otherwise drifts into the first empty cell of its shuffled sideways
      pair, otherwise stays. An upward move ends with a fresh countdown at
      the destination; a sideways move carries the old countdown along, or
      draws one when there was none. */
  function SmokeRule(w: nat, h: nat, cur: Grid, next: Grid, life: Lifetimes, x: int, y: int, kind: Cell, d: Draw): (r: SmokeStep)
    requires Rect(cur, w, h) && Rect(next, w, h) && InBounds(w, h, x, y)
    requires IsSmoke(kind) && cur[y][x] == kind
    ensures SafeWrites(r.writes, w, h, cur, next)
    ensures r.writes == [] || IsMove(r.writes, next, w, h, x, y, kind)
    ensures r.writes == [] <==> Blocked(next, w, h, x, y, Up3) && Blocked(next, w, h, x, y, Sideways)
    ensures r.writes == [] ==> r.lifetimes == life
    ensures ValidWrites(r.writes) && Near(r.writes, x, y)
    ensures r.writes != [] ==> Relocated(life, r.lifetimes, (x, y), (r.writes[1].x, r.writes[1].y))
    ensures !Blocked(next, w, h, x, y, Up3) ==>
              && Above((r.writes[1].x, r.writes[1].y), x, y)
              && r.lifetimes[(r.writes[1].x, r.writes[1].y)] == Fresh(kind, d.life)
              && InLifetimeRange(kind, r.lifetimes[(r.writes[1].x, r.writes[1].y)])
              && IsFirstEmpty(next, w, h, x, y, Shuffle3(Up3, d.shuffle), (r.writes[1].x, r.writes[1].y))
    ensures Blocked(next, w, h, x, y, Up3) && r.writes != [] ==>
              && Beside((r.writes[1].x, r.writes[1].y), x, y)
              && IsFirstEmpty(next, w, h, x, y, Shuffle2(Sideways, d.swap), (r.writes[1].x, r.writes[1].y))
              && r.lifetimes[(r.writes[1].x, r.writes[1].y)] == (if (x, y) in life then life[(x, y)] else Fresh(kind, d.life))
  {
    var up := Shuffle3(Up3, d.shuffle);
    SearchInAnyOrder(next, w, h, x, y, Up3, up);
    match FirstEmpty(next, w, h, x, y, up)
    case Some(p) =>
      UpperTriple(p, x, y);
      SmokeUp(w, h, cur, next, life, x, y, p, kind, d)
    case None =>
      var side := Shuffle2(Sideways, d.swap);
      SearchInAnyOrder(next, w, h, x, y, Sideways, side);
      match FirstEmpty(next, w, h, x, y, side)
      case Some(p) =>
        SidewaysPair(p, x, y);
        SmokeSide(w, h, cur, next, life, x, y, p, kind, d)
      case None =>
        SmokeStep([], life)
  }

  /** The draw made by the first relocation of an upward move is always
      overwritten: the outcome never depends on it. */
  lemma SmokeIgnoresFirstDraw(w: nat, h: nat, cur: Grid, next: Grid, life: Lifetimes, x: int, y: int, kind: Cell, d: Draw, other: nat)
    requires Rect(cur, w, h) && Rect(next, w, h) && InBounds(w, h, x, y)
    requires IsSmoke(kind) && cur[y][x] == kind
    ensures SmokeRule(w, h, cur, next, life, x, y, kind, d) == SmokeRule(w, h, cur, next, life, x, y, kind, d.(firstLife := other))
  {
    var up := Shuffle3(Up3, d.shuffle);
    SearchInAnyOrder(next, w, h, x, y, Up3, up);
    match FirstEmpty(next, w, h, x, y, up)
    case Some(p) =>
      UpperTriple(p, x, y);
      UpIgnoresFirstDraw(w, h, cur, next, life, x, y, p, kind, d, other);
    case None =>
  }

  /** An upward move does not depend on the first draw. */
  lemma UpIgnoresFirstDraw(w: nat, h: nat, cur: Grid, next: Grid, life: Lifetimes, x: int, y: int, p: Pos, kind: Cell, d: Draw, other: nat)
    requires Rect(cur, w, h) && Rect(next, w, h) && InBounds(w, h, x, y)
    requires IsSmoke(kind) && cur[y][x] == kind && Above(p, x, y) && IsEmpty(next, w, h, p.0, p.1)
    ensures SmokeUp(w, h, cur, next, life, x, y, p, kind, d) == SmokeUp(w, h, cur, next, life, x, y, p, kind, d.(firstLife := other))
  {
    RiseIgnoresFirstDraw(life, x, y, p, kind, d, other);
  }

  /** The countdown a rise leaves behind does not depend on the first draw:
      the second relocation overwrites it. */
  lemma RiseIgnoresFirstDraw(life: Lifetimes, x: int, y: int, p: Pos, kind: Cell, d: Draw, other: nat)
    requires p != (x, y)
    ensures SmokeRise(life, x, y, p, kind, d) == SmokeRise(life, x, y, p, kind, d.(firstLife := other))
  {
    var a, b := SmokeRise(life, x, y, p, kind, d), SmokeRise(life, x, y, p, kind, d.(firstLife := other));
    assert forall q :: q in a <==> q in b;
    assert forall q :: q in a ==> a[q] == b[q];
  }

  /** A balloon samples exactly one upward direction; it moves there when
      that cell is empty in the scratch buffer and vanishes otherwise. */
  function BalloonRule(w: nat, h: nat, cur: Grid, next: Grid, x: int, y: int, shuffle: nat): (ws: seq<Write>)
    requires Rect(cur, w, h) && Rect(next, w, h) && InBounds(w, h, x, y) && cur[y][x] == Balloon
    ensures SafeWrites(ws, w, h, cur, next)
    ensures ws == [Write(x, y, Empty)] || IsMove(ws, next, w, h, x, y, Balloon)
    ensures |ws| == 2 ==> (ws[1].x - x, ws[1].y - y) == Shuffle3(Up3, shuffle)[0]
    ensures var p := Offset(x, y, Shuffle3(Up3, shuffle)[0]);
            ws == [Write(x, y, Empty)] <==> !IsEmpty(next, w, h, p.0, p.1)
    ensures ValidWrites(ws) && Near(ws, x, y)
  {
    var dir := Shuffle3(Up3, shuffle)[0];
    assert dir in Up3;
    var p := Offset(x, y, dir);
    if IsEmpty(next, w, h, p.0, p.1) then
      [Write(x, y, Empty), Write(p.0, p.1, Balloon)]
    else
      [Write(x, y, Empty)]
  }

  /** A blocked balloon is destroyed even when another upward cell is free,
      where smoke given the same draw rises into the free cell. */
  lemma BalloonVanishesBesideFreeCell()
    ensures var g := [[Empty, Sand, Empty], [Empty, Balloon, Empty]];
            var s := [[Empty, Sand, Empty], [Empty, DarkSmoke, Empty]];
            && IsEmpty(g, 3, 2, 0, 0)
            && BalloonRule(3, 2, g, g, 1, 1, 0) == [Write(1, 1, Empty)]
            && SmokeRule(3, 2, s, s, map[], 1, 1, DarkSmoke, Draw(0, false, false, 0, 0)).writes
               == [Write(1, 1, Empty), Write(0, 0, DarkSmoke)]
  {
    var g := [[Empty, Sand, Empty], [Empty, Balloon, Empty]];
    var s := [[Empty, Sand, Empty], [Empty, DarkSmoke, Empty]];
    assert Shuffle3(Up3, 0) == Up3;
    assert !IsEmpty(g, 3, 2, 1, 0);
    assert FirstEmpty(s, 3, 2, 1, 1, Up3) == Some((0, 0)) by {
      assert !IsEmpty(s, 3, 2, 1, 0);
      assert IsEmpty(s, 3, 2, 0, 0);
      assert Up3[1..] == [(-1, -1), (1, -1)];
    }
  }
}
