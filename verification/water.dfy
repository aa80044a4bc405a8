/**
 The water rule. A water cell's value is its amount, between 8 and 16.
 Amounts are modelled as reals: no claim is made about floating-point drift.
 The rule tries, in order: the range safeguard, the handling of nearly
 empty water, a direct fall, pressure transfer to water below, a horizontal
 split into empty sides, equalisation with water at the sides, upward flow
 under high pressure, and finally staying in place.
 */
module Water {
  import opened Lattice

  /** Below this amount water tries to move out entirely. */
  const Threshold: real := 8.3

  datatype Branch =
    | Safeguard
    | LowFall
    | LowMerge
    | LowDrain
    | Fall
    | Pressure
    | Split
    | SideEqualise
    | Upward
    | Stay

  datatype WaterStep = WaterStep(branch: Branch, writes: seq<Write>)

  function Min(a: real, b: real): real {
    if a <= b then a else b
  }

  /** The amount above the minimum: what the flow branches move around. */
  function Excess(c: Cell): real {
    if c.Water? then c.amount - MinWater else 0.0
  }

  function SumExcess(ws: seq<Write>): real
    decreases |ws|
  {
    if |ws| == 0 then 0.0 else Excess(ws[0].c) + SumExcess(ws[1..])
  }

  lemma SumExcessOne(a: Write)
    ensures SumExcess([a]) == Excess(a.c)
  {
    assert [a][1..] == [];
  }

  lemma SumExcessTwo(a: Write, b: Write)
    ensures SumExcess([a, b]) == Excess(a.c) + Excess(b.c)
  {
    assert [a, b][1..] == [b];
    SumExcessOne(b);
  }

  lemma SumExcessThree(a: Write, b: Write, c: Write)
    ensures SumExcess([a, b, c]) == Excess(a.c) + Excess(b.c) + Excess(c.c)
  {
    assert [a, b, c][1..] == [b, c];
    SumExcessTwo(b, c);
  }

  /** Every written cell is empty or water with an amount in [8, 16]. */
  predicate AmountsInRange(ws: seq<Write>) {
    forall i :: 0 <= i < |ws| ==>
      ws[i].c == Empty || (ws[i].c.Water? && MinWater <= ws[i].c.amount <= MaxWater)
  }

  /** Every write is to (x, y) or one of its four direct neighbours. */
  predicate Local(ws: seq<Write>, x: int, y: int) {
    forall i :: 0 <= i < |ws| ==>
      (ws[i].x == x && y - 1 <= ws[i].y <= y + 1) || (ws[i].y == y && x - 1 <= ws[i].x <= x + 1)
  }

  /** The first write is to (x, y) and every other write lands on a cell
      that was empty in the scratch buffer. */
  predicate IntoEmpty(ws: seq<Write>, next: Grid, w: nat, h: nat, x: int, y: int)
    requires Rect(next, w, h)
  {
    |ws| >= 1 && ws[0].x == x && ws[0].y == y
    && forall i :: 1 <= i < |ws| ==> IsEmpty(next, w, h, ws[i].x, ws[i].y)
  }

  /** Exactly two writes: the first to (x0, y0), the second to (x1, y1). */
  predicate WritesTo(ws: seq<Write>, x0: int, y0: int, x1: int, y1: int) {
    |ws| == 2 && ws[0].x == x0 && ws[0].y == y0 && ws[1].x == x1 && ws[1].y == y1
  }

  /** Lines 372-380: pressure transfer to water below, read from the
      current buffer; `None` when the transfer does not happen. */
  function PressureStep(w: nat, h: nat, cur: Grid, x: int, y: int, a: real): (r: Option<WaterStep>)
    requires Rect(cur, w, h) && InBounds(w, h, x, y)
    requires MinWater <= a <= MaxWater
    ensures r.Some? ==>
              && y + 1 < h && Code(cur[y + 1][x]) >= MinWater
              && r.value.branch == Pressure
              && WritesTo(r.value.writes, x, y, x, y + 1)
              && AmountsInRange(r.value.writes)
              && (Code(cur[y + 1][x]) <= MaxWater ==> SumExcess(r.value.writes) == (a - MinWater) + Excess(cur[y + 1][x]))
  {
    if y + 1 < h && Code(cur[y + 1][x]) >= MinWater then
      var b := Code(cur[y + 1][x]);
      if a > b + 0.1 then
        var t := Min((a - b) / 2.0, a - MinWater);
        if t > 0.05 then
          var ws := [Write(x, y, Water(a - t)), Write(x, y + 1, Water(Min(MaxWater, b + t)))];
          SumExcessTwo(ws[0], ws[1]);
          Some(WaterStep(Pressure, ws))
        else None
      else None
    else None
  }

  /** Lines 383-404: a horizontal split into the empty sides; the source
      keeps 8.3 and each of the N empty sides gets 8 plus 1/N of the excess
      above 8.3. */
  function SplitStep(w: nat, h: nat, next: Grid, x: int, y: int, a: real): (r: Option<WaterStep>)
    requires Rect(next, w, h) && InBounds(w, h, x, y)
    requires MinWater <= a <= MaxWater
    ensures r.Some? ==>
              && r.value.branch == Split
              && AmountsInRange(r.value.writes)
              && IntoEmpty(r.value.writes, next, w, h, x, y)
              && Local(r.value.writes, x, y)
              && SumExcess(r.value.writes) == a - MinWater
  {
    if a > Threshold + 0.5 then
      var leftEmpty := IsEmpty(next, w, h, x - 1, y);
      var rightEmpty := IsEmpty(next, w, h, x + 1, y);
      if leftEmpty || rightEmpty then
        var excess := a - Threshold;
        var ws :=
          if leftEmpty && rightEmpty then
            [Write(x, y, Water(Threshold)), Write(x - 1, y, Water(MinWater + excess / 2.0)), Write(x + 1, y, Water(MinWater + excess / 2.0))]
          else if leftEmpty then
            [Write(x, y, Water(Threshold)), Write(x - 1, y, Water(MinWater + excess))]
          else
            [Write(x, y, Water(Threshold)), Write(x + 1, y, Water(MinWater + excess))];
        if |ws| == 3 then
          SumExcessThree(ws[0], ws[1], ws[2]);
          Some(WaterStep(Split, ws))
        else
          SumExcessTwo(ws[0], ws[1]);
          Some(WaterStep(Split, ws))
      else None
    else None
  }

  /** Lines 408-420: equalisation with water at one side (left first), read
      from the current buffer; a third of the difference moves over. */
  function SideStep(w: nat, h: nat, cur: Grid, x: int, y: int, a: real, dx: int): (r: Option<WaterStep>)
    requires Rect(cur, w, h) && InBounds(w, h, x, y)
    requires MinWater <= a <= MaxWater && (dx == -1 || dx == 1)
    ensures r.Some? ==>
              && InBounds(w, h, x + dx, y) && Code(cur[y][x + dx]) >= MinWater
              && r.value.branch == SideEqualise
              && WritesTo(r.value.writes, x, y, x + dx, y)
              && AmountsInRange(r.value.writes)
              && SumExcess(r.value.writes) == (a - MinWater) + Excess(cur[y][x + dx])
  {
    var nx := x + dx;
    if !InBounds(w, h, nx, y) then None
    else if Code(cur[y][nx]) >= MinWater then
      var s := Code(cur[y][nx]);
      if a > s + 1.0 then
        var t := (a - s) / 3.0;
        if t > 0.2 then
          var ws := [Write(x, y, Water(a - t)), Write(nx, y, Water(s + t))];
          SumExcessTwo(ws[0], ws[1]);
          Some(WaterStep(SideEqualise, ws))
        else None
      else None
    else None
  }

  /** Lines 423-427: under high pressure up to 2 units flow into an empty
      cell above. */
  function UpwardStep(w: nat, h: nat, next: Grid, x: int, y: int, a: real): (r: Option<WaterStep>)
    requires Rect(next, w, h) && InBounds(w, h, x, y)
    requires MinWater <= a <= MaxWater
    ensures r.Some? ==>
              && r.value.branch == Upward
              && AmountsInRange(r.value.writes)
              && IntoEmpty(r.value.writes, next, w, h, x, y)
              && Local(r.value.writes, x, y)
              && SumExcess(r.value.writes) == a - MinWater
  {
    if a > 14.0 && y > 0 && IsEmpty(next, w, h, x, y - 1) then
      var f := Min(a - 13.0, 2.0);
      var ws := [Write(x, y, Water(a - f)), Write(x, y - 1, Water(MinWater + f))];
      SumExcessTwo(ws[0], ws[1]);
      Some(WaterStep(Upward, ws))
    else None
  }

  /** Lines 346-363: water below 8.3 moves out entirely: into an empty cell
      below, or merged (capped at 16) into water below, or else it is
      deleted. These tests read the scratch buffer without the occupancy
      helper. */
  function LowStep(w: nat, h: nat, next: Grid, x: int, y: int, a: real): (r: WaterStep)
    requires Rect(next, w, h) && InBounds(w, h, x, y)
    requires MinWater <= a < Threshold
    ensures r.branch in {LowFall, LowMerge, LowDrain}
    ensures AmountsInRange(r.writes) && Local(r.writes, x, y)
    ensures |r.writes| >= 1 && r.writes[0] == Write(x, y, Empty)
    ensures r.branch == LowFall ==> IntoEmpty(r.writes, next, w, h, x, y) && SumExcess(r.writes) == a - MinWater
    ensures r.branch == LowMerge ==>
              && y + 1 < h && Code(next[y + 1][x]) >= MinWater && |r.writes| == 2 && r.writes[1].x == x && r.writes[1].y == y + 1
              && (Code(next[y + 1][x]) + a - MinWater <= MaxWater ==>
                    SumExcess(r.writes) == (a - MinWater) + Excess(next[y + 1][x]))
    ensures r.branch == LowDrain ==> r.writes == [Write(x, y, Empty)]
  {
    if y + 1 < h then
      if next[y + 1][x] == Empty then
        var ws := [Write(x, y, Empty), Write(x, y + 1, Water(a))];
        SumExcessTwo(ws[0], ws[1]);
        WaterStep(LowFall, ws)
      else if Code(next[y + 1][x]) >= MinWater then
        var n := Code(next[y + 1][x]);
        var ws := [Write(x, y, Empty), Write(x, y + 1, Water(Min(MaxWater, n + a - MinWater)))];
        SumExcessTwo(ws[0], ws[1]);
        WaterStep(LowMerge, ws)
      else
        WaterStep(LowDrain, [Write(x, y, Empty)])
    else
      WaterStep(LowDrain, [Write(x, y, Empty)])
  }

  /** Writes that fill only empty cells of the scratch buffer, besides the
      cell itself, never touch a wall. */
  lemma IntoEmptyIsSafe(ws: seq<Write>, w: nat, h: nat, cur: Grid, next: Grid, x: int, y: int)
    requires Rect(cur, w, h) && Rect(next, w, h) && InBounds(w, h, x, y) && cur[y][x] != Wall
    requires IntoEmpty(ws, next, w, h, x, y) && AmountsInRange(ws)
    ensures SafeWrites(ws, w, h, cur, next)
  {
  }

  /** Lines 366-427: the branches for water of at least 8.3 that cannot fall
      straight down. */
  function FlowStep(w: nat, h: nat, cur: Grid, next: Grid, x: int, y: int, a: real): (r: WaterStep)
    requires Rect(cur, w, h) && Rect(next, w, h) && InBounds(w, h, x, y) && cur[y][x] == Water(a)
    requires Threshold <= a <= MaxWater
    ensures r.branch in {Pressure, Split, SideEqualise, Upward, Stay}
    ensures AmountsInRange(r.writes) && Local(r.writes, x, y) && SafeWrites(r.writes, w, h, cur, next)
    ensures r.branch in {Split, Upward, Stay} ==>
              IntoEmpty(r.writes, next, w, h, x, y) && SumExcess(r.writes) == a - MinWater
    ensures r.branch == SideEqualise ==>
              && |r.writes| == 2 && r.writes[1].y == y && InBounds(w, h, r.writes[1].x, y)
              && cur[y][r.writes[1].x].Water?
              && SumExcess(r.writes) == (a - MinWater) + Excess(cur[y][r.writes[1].x])
    ensures r.branch == Pressure ==>
              && y + 1 < h && cur[y + 1][x].Water?
              && (Code(cur[y + 1][x]) <= MaxWater ==> SumExcess(r.writes) == (a - MinWater) + Excess(cur[y + 1][x]))
  {
    var pressure := PressureStep(w, h, cur, x, y, a);
    if pressure.Some? then pressure.value
    else
      var split := SplitStep(w, h, next, x, y, a);
      if split.Some? then
        IntoEmptyIsSafe(split.value.writes, w, h, cur, next, x, y);
        split.value
      else
        SideFlow(w, h, cur, next, x, y, a)
  }

  /** Lines 408-427: equalisation with a side, else the upward flow, else
      the water stays. */
  function SideFlow(w: nat, h: nat, cur: Grid, next: Grid, x: int, y: int, a: real): (r: WaterStep)
    requires Rect(cur, w, h) && Rect(next, w, h) && InBounds(w, h, x, y) && cur[y][x] == Water(a)
    requires Threshold <= a <= MaxWater
    ensures r.branch in {SideEqualise, Upward, Stay}
    ensures AmountsInRange(r.writes) && Local(r.writes, x, y) && SafeWrites(r.writes, w, h, cur, next)
    ensures r.branch in {Upward, Stay} ==>
              IntoEmpty(r.writes, next, w, h, x, y) && SumExcess(r.writes) == a - MinWater
    ensures r.branch == SideEqualise ==>
              && |r.writes| == 2 && r.writes[1].y == y && InBounds(w, h, r.writes[1].x, y)
              && cur[y][r.writes[1].x].Water?
              && SumExcess(r.writes) == (a - MinWater) + Excess(cur[y][r.writes[1].x])
  {
    var left := SideStep(w, h, cur, x, y, a, -1);
    if left.Some? then left.value
    else
      var right := SideStep(w, h, cur, x, y, a, 1);
      if right.Some? then right.value
      else
        var up := UpwardStep(w, h, next, x, y, a);
        if up.Some? then
          IntoEmptyIsSafe(up.value.writes, w, h, cur, next, x, y);
          up.value
        else
          SumExcessOne(Write(x, y, Water(a)));
          WaterStep(Stay, [Write(x, y, Water(a))])
  }

  /** Lines 346-363 against both buffers: the low-water step never
      touches a wall. */
  function LowPlan(w: nat, h: nat, cur: Grid, next: Grid, x: int, y: int, a: real): (r: WaterStep)
    requires Rect(cur, w, h) && Rect(next, w, h) && InBounds(w, h, x, y) && cur[y][x] == Water(a)
    requires MinWater <= a < Threshold
    ensures r.branch in {LowFall, LowMerge, LowDrain}
    ensures AmountsInRange(r.writes) && Local(r.writes, x, y) && SafeWrites(r.writes, w, h, cur, next)
    ensures r.branch == LowFall ==> IntoEmpty(r.writes, next, w, h, x, y) && SumExcess(r.writes) == a - MinWater
    ensures r.branch == LowMerge ==>
              && y + 1 < h && next[y + 1][x].Water?
              && (Code(next[y + 1][x]) + (a - MinWater) <= MaxWater ==>
                    SumExcess(r.writes) == (a - MinWater) + Excess(next[y + 1][x]))
    ensures r.branch == LowDrain ==> r.writes == [Write(x, y, Empty)]
  {
    var r := LowStep(w, h, next, x, y, a);
    if r.branch == LowFall then
      IntoEmptyIsSafe(r.writes, w, h, cur, next, x, y);
      r
    else r
  }

  /** The water rule (lines 335-430), with the branch it took. */
  function WaterPlan(w: nat, h: nat, cur: Grid, next: Grid, x: int, y: int): (r: WaterStep)
    requires Rect(cur, w, h) && Rect(next, w, h) && InBounds(w, h, x, y) && cur[y][x].Water?
    ensures AmountsInRange(r.writes)
    ensures Local(r.writes, x, y)
    ensures SafeWrites(r.writes, w, h, cur, next)
    ensures r.branch == Safeguard <==> !(MinWater <= cur[y][x].amount <= MaxWater)
    ensures r.branch == Safeguard ==> r.writes == [Write(x, y, Water(MinWater))]
    ensures r.branch in {Fall, Split, Upward, LowFall, Stay} ==>
              IntoEmpty(r.writes, next, w, h, x, y) && SumExcess(r.writes) == Excess(cur[y][x])
    ensures r.branch == SideEqualise ==>
              && |r.writes| == 2 && r.writes[1].y == y && InBounds(w, h, r.writes[1].x, y)
              && cur[y][r.writes[1].x].Water?
              && SumExcess(r.writes) == Excess(cur[y][x]) + Excess(cur[y][r.writes[1].x])
    ensures r.branch == Pressure ==>
              && y + 1 < h && cur[y + 1][x].Water?
              && (Code(cur[y + 1][x]) <= MaxWater ==> SumExcess(r.writes) == Excess(cur[y][x]) + Excess(cur[y + 1][x]))
    ensures r.branch == LowMerge ==>
              && y + 1 < h && next[y + 1][x].Water?
              && (Code(next[y + 1][x]) + Excess(cur[y][x]) <= MaxWater ==>
                    SumExcess(r.writes) == Excess(cur[y][x]) + Excess(next[y + 1][x]))
    ensures r.branch == LowDrain ==> r.writes == [Write(x, y, Empty)] && Excess(cur[y][x]) < Threshold - MinWater
  {
    var a := cur[y][x].amount;
    if a < MinWater || a > MaxWater then
      WaterStep(Safeguard, [Write(x, y, Water(MinWater))])
    else if a < Threshold then
      LowPlan(w, h, cur, next, x, y, a)
    else if IsEmpty(next, w, h, x, y + 1) then
      var ws := [Write(x, y, Empty), Write(x, y + 1, Water(a))];
      SumExcessTwo(ws[0], ws[1]);
      IntoEmptyIsSafe(ws, w, h, cur, next, x, y);
      WaterStep(Fall, ws)
    else
      FlowStep(w, h, cur, next, x, y, a)
  }

  /** The writes of the water rule. */
  function WaterRule(w: nat, h: nat, cur: Grid, next: Grid, x: int, y: int): (ws: seq<Write>)
    requires Rect(cur, w, h) && Rect(next, w, h) && InBounds(w, h, x, y) && cur[y][x].Water?
    ensures SafeWrites(ws, w, h, cur, next)
    ensures AmountsInRange(ws)
    ensures ValidWrites(ws) && Near(ws, x, y)
  {
    var r := WaterPlan(w, h, cur, next, x, y);
    assert AmountsInRange(r.writes) && Local(r.writes, x, y);
    r.writes
  }
}
