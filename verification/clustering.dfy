/**
 Merging nearby grid-line positions (`cluster_positions`, lines 55-65 of
 IS-N3/main.py). Positions are scanned left to right; a position joins the
 current group when it lies within `tol` of the group's last member and
 starts a new group otherwise. Each group is then replaced by its mean,
 truncated towards zero as Python's `int()` does.
 */
module Clustering {

  function Abs(a: int): nat {
    if a < 0 then -a else a
  }

  function Last<T>(s: seq<T>): T
    requires |s| > 0
  {
    s[|s| - 1]
  }

  /** The groups concatenated in order. */
  function Flatten(gs: seq<seq<int>>): seq<int> {
    if |gs| == 0 then [] else Flatten(gs[..|gs| - 1]) + Last(gs)
  }

  /** The grouping loop of `cluster_positions`, as a fold over the
      prefixes of `pos`. */
  function Groups(pos: seq<int>, tol: int): (gs: seq<seq<int>>)
    ensures |gs| == 0 <==> |pos| == 0
    ensures |gs| <= |pos|
    ensures forall k :: 0 <= k < |gs| ==> |gs[k]| > 0
    ensures |pos| > 0 ==> Last(Last(gs)) == Last(pos)
    decreases |pos|
  {
    if |pos| == 0 then []
    else
      var gs := Groups(pos[..|pos| - 1], tol);
      AddPositionNonEmpty(gs, Last(pos), tol);
      AddPosition(gs, Last(pos), tol)
  }

  /** One turn of the loop: `p` joins the last group when it is within
      `tol` of that group's end, and opens a group of its own otherwise. */
  function AddPosition(gs: seq<seq<int>>, p: int, tol: int): (r: seq<seq<int>>)
    requires |gs| > 0 ==> |Last(gs)| > 0
    ensures |gs| <= |r| <= |gs| + 1
    ensures |r| > 0 && |Last(r)| > 0 && Last(Last(r)) == p
  {
    if |gs| > 0 && Abs(p - Last(Last(gs))) <= tol then gs[..|gs| - 1] + [Last(gs) + [p]]
    else gs + [[p]]
  }

  /** A turn of the loop keeps every group non-empty. */
  lemma AddPositionNonEmpty(gs: seq<seq<int>>, p: int, tol: int)
    requires NonEmptyGroups(gs)
    ensures NonEmptyGroups(AddPosition(gs, p, tol))
  {
  }

  /** A position within `tol` of the last group's end extends that group. */
  lemma AddPositionJoin(init: seq<seq<int>>, l: seq<int>, p: int, tol: int)
    requires |l| > 0 && Abs(p - Last(l)) <= tol
    ensures AddPosition(init + [l], p, tol) == init + [l + [p]]
  {
    assert (init + [l])[..|init|] == init;
  }

  /** A position more than `tol` from the last group's end opens a group. */
  lemma AddPositionOpen(gs: seq<seq<int>>, p: int, tol: int)
    requires |gs| > 0 ==> |Last(gs)| > 0 && Abs(p - Last(Last(gs))) > tol
    ensures AddPosition(gs, p, tol) == gs + [[p]]
  {
  }

  /** Grouping one more position is one more turn of the loop. */
  lemma GroupsStep(q: seq<int>, p: int, tol: int)
    ensures Groups(q + [p], tol) == AddPosition(Groups(q, tol), p, tol)
  {
    assert (q + [p])[..|q|] == q;
  }

  /** The step from entry i to entry i + 1. */
  function Step(s: seq<int>, i: int): int
    requires 0 <= i < |s| - 1
  {
    s[i + 1] - s[i]
  }

  /** The step from the last member of group k to the first of group
      k + 1. */
  function Jump(gs: seq<seq<int>>, k: int): int
    requires 0 <= k < |gs| - 1 && |gs[k]| > 0 && |gs[k + 1]| > 0
  {
    gs[k + 1][0] - Last(gs[k])
  }

  predicate NonEmptyGroups(gs: seq<seq<int>>) {
    forall k :: 0 <= k < |gs| ==> |gs[k]| > 0
  }

  /** Neighbours inside a group are at most `tol` apart; the last member of
      a group and the first of the next are more than `tol` apart. */
  predicate Chained(gs: seq<seq<int>>, tol: int)
    requires NonEmptyGroups(gs)
  {
    && (forall k, i :: 0 <= k < |gs| && 0 <= i < |gs[k]| - 1 ==> Abs(Step(gs[k], i)) <= tol)
    && (forall k :: 0 <= k < |gs| - 1 ==> Abs(Jump(gs, k)) > tol)
  }

  /** `gs` cuts `pos`, in order, into non-empty chained groups. */
  predicate IsClustering(gs: seq<seq<int>>, pos: seq<int>, tol: int) {
    && Flatten(gs) == pos
    && NonEmptyGroups(gs)
    && Chained(gs, tol)
  }

  /** Flattening groups with one more group at the end. */
  lemma FlattenAppend(gs: seq<seq<int>>, l: seq<int>)
    ensures Flatten(gs + [l]) == Flatten(gs) + l
  {
    assert (gs + [l])[..|gs|] == gs;
  }

  /** Groups with a non-empty group appended are non-empty exactly when
      the earlier ones are. */
  lemma NonEmptyAppend(init: seq<seq<int>>, l: seq<int>)
    requires |l| > 0
    ensures NonEmptyGroups(init + [l]) <==> NonEmptyGroups(init)
  {
    var gs := init + [l];
    if NonEmptyGroups(gs) {
      forall k | 0 <= k < |init|
        ensures |init[k]| > 0
      {
        assert init[k] == gs[k];
      }
    }
  }

  /** The chain conditions of `init + [l]` split into those of `init`, the
      steps inside `l` and the jump from `init` to `l`. */
  lemma ChainedAppend(init: seq<seq<int>>, l: seq<int>, tol: int)
    requires |l| > 0 && NonEmptyGroups(init)
    ensures NonEmptyGroups(init + [l])
    ensures Chained(init + [l], tol) <==>
              && Chained(init, tol)
              && (forall i :: 0 <= i < |l| - 1 ==> Abs(Step(l, i)) <= tol)
              && (|init| > 0 ==> Abs(l[0] - Last(Last(init))) > tol)
  {
    NonEmptyAppend(init, l);
    var gs := init + [l];
    var n := |init|;
    assert forall k :: 0 <= k < n ==> gs[k] == init[k];
    assert gs[n] == l;
    if Chained(gs, tol) {
      forall k, i | 0 <= k < n && 0 <= i < |init[k]| - 1
        ensures Abs(Step(init[k], i)) <= tol
      {
        assert Step(init[k], i) == Step(gs[k], i);
      }
      forall k | 0 <= k < n - 1
        ensures Abs(Jump(init, k)) > tol
      {
        assert Jump(init, k) == Jump(gs, k);
      }
      forall i | 0 <= i < |l| - 1
        ensures Abs(Step(l, i)) <= tol
      {
        assert Step(l, i) == Step(gs[n], i);
      }
      if n > 0 {
        assert Jump(gs, n - 1) == l[0] - Last(Last(init));
      }
    } else if && Chained(init, tol)
              && (forall i :: 0 <= i < |l| - 1 ==> Abs(Step(l, i)) <= tol)
              && (n > 0 ==> Abs(l[0] - Last(Last(init))) > tol) {
      forall k, i | 0 <= k < |gs| && 0 <= i < |gs[k]| - 1
        ensures Abs(Step(gs[k], i)) <= tol
      {
        if k < n {
          assert Step(init[k], i) == Step(gs[k], i);
        } else {
          assert Step(l, i) == Step(gs[k], i);
        }
      }
      forall k | 0 <= k < |gs| - 1
        ensures Abs(Jump(gs, k)) > tol
      {
        if k < n - 1 {
          assert Jump(init, k) == Jump(gs, k);
        }
      }
      assert false;
    }
  }

  /** The steps of `l + [p]`: those of `l`, then the step to p. */
  lemma StepsAppend(l: seq<int>, p: int, tol: int)
    requires |l| > 0
    ensures (forall i :: 0 <= i < |l + [p]| - 1 ==> Abs(Step(l + [p], i)) <= tol) <==>
              (forall i :: 0 <= i < |l| - 1 ==> Abs(Step(l, i)) <= tol) && Abs(p - Last(l)) <= tol
  {
    assert forall i :: 0 <= i < |l| - 1 ==> Step(l + [p], i) == Step(l, i);
    assert Step(l + [p], |l| - 1) == p - Last(l);
  }

  /** The loop's grouping is a clustering of its input. */
  lemma {:induction false} GroupsCluster(pos: seq<int>, tol: int)
    ensures IsClustering(Groups(pos, tol), pos, tol)
    decreases |pos|
  {
    if |pos| > 0 {
      var q, p := pos[..|pos| - 1], Last(pos);
      GroupsCluster(q, tol);
      ClusterStep(q, p, tol);
      assert pos == q + [p];
    }
  }

  /** One turn of the loop keeps the grouping a clustering. */
  lemma ClusterStep(q: seq<int>, p: int, tol: int)
    requires IsClustering(Groups(q, tol), q, tol)
    ensures IsClustering(Groups(q + [p], tol), q + [p], tol)
  {
    GroupsStep(q, p, tol);
    AddCluster(Groups(q, tol), q, p, tol);
  }

  /** Adding one position to a clustering gives a clustering of the
      extended sequence. */
  lemma AddCluster(gs: seq<seq<int>>, q: seq<int>, p: int, tol: int)
    requires IsClustering(gs, q, tol)
    ensures IsClustering(AddPosition(gs, p, tol), q + [p], tol)
  {
    if |gs| > 0 && Abs(p - Last(Last(gs))) <= tol {
      ExtendCluster(gs, q, p, tol);
    } else {
      OpenCluster(gs, q, p, tol);
    }
  }

  /** A position within `tol` of the end of the last group joins it. */
  lemma ExtendCluster(gs: seq<seq<int>>, q: seq<int>, p: int, tol: int)
    requires IsClustering(gs, q, tol) && |gs| > 0 && |Last(gs)| > 0
    requires Abs(p - Last(Last(gs))) <= tol
    ensures IsClustering(gs[..|gs| - 1] + [Last(gs) + [p]], q + [p], tol)
  {
    var init, l := gs[..|gs| - 1], Last(gs);
    assert gs == init + [l];
    NonEmptyAppend(init, l);
    ChainedAppend(init, l, tol);
    StepsAppend(l, p, tol);
    ChainedAppend(init, l + [p], tol);
    FlattenAppend(init, l);
    FlattenAppend(init, l + [p]);
  }

  /** A position more than `tol` from the end of the last group opens a
      new one. */
  lemma OpenCluster(gs: seq<seq<int>>, q: seq<int>, p: int, tol: int)
    requires IsClustering(gs, q, tol)
    requires |gs| > 0 ==> |Last(gs)| > 0 && Abs(p - Last(Last(gs))) > tol
    ensures IsClustering(gs + [[p]], q + [p], tol)
  {
    ChainedAppend(gs, [p], tol);
    FlattenAppend(gs, [p]);
  }

  /** The clustering is unique: any cut of `pos` into non-empty chained
      groups is the one the loop builds. */
  lemma {:induction false} ClusteringUnique(gs: seq<seq<int>>, pos: seq<int>, tol: int)
    requires IsClustering(gs, pos, tol)
    ensures gs == Groups(pos, tol)
    decreases |pos|
  {
    if |gs| > 0 {
      var init, l := gs[..|gs| - 1], Last(gs);
      assert gs == init + [l];
      FlattenAppend(init, l);
      assert |l| > 0;
      var q, p := pos[..|pos| - 1], Last(pos);
      assert pos == q + [p];
      if |l| == 1 {
        assert l == [p];
        DropLastGroup(init, q, p, tol);
        ClusteringUnique(init, q, tol);
        UniqueOpen(init, q, p, tol);
      } else {
        var front := l[..|l| - 1];
        assert l == front + [p];
        DropLastMember(init, front, q, p, tol);
        ClusteringUnique(init + [front], q, tol);
        UniqueJoin(init, front, q, p, tol);
      }
    }
  }

  /** Equal sequences with equal last entries agree before them. */
  lemma SnocCancel(a: seq<int>, b: seq<int>, p: int)
    requires a + [p] == b + [p]
    ensures a == b
  {
    assert a == (a + [p])[..|a|];
    assert b == (b + [p])[..|b|];
  }

  /** Removing a singleton last group from a clustering leaves a clustering
      of the rest, whose end is more than `tol` below the removed position. */
  lemma DropLastGroup(init: seq<seq<int>>, q: seq<int>, p: int, tol: int)
    requires IsClustering(init + [[p]], q + [p], tol)
    ensures IsClustering(init, q, tol)
    ensures |init| > 0 ==> |Last(init)| > 0 && Abs(p - Last(Last(init))) > tol
  {
    NonEmptyAppend(init, [p]);
    ChainedAppend(init, [p], tol);
    FlattenAppend(init, [p]);
    SnocCancel(Flatten(init), q, p);
  }

  /** Removing the last position of a last group with more than one member
      leaves a clustering of the rest, whose end is within `tol` of it. */
  lemma DropLastMember(init: seq<seq<int>>, front: seq<int>, q: seq<int>, p: int, tol: int)
    requires |front| > 0 && IsClustering(init + [front + [p]], q + [p], tol)
    ensures IsClustering(init + [front], q, tol)
    ensures Abs(p - Last(front)) <= tol
  {
    var l := front + [p];
    NonEmptyAppend(init, l);
    ChainedAppend(init, l, tol);
    FlattenAppend(init, l);
    StepsAppend(front, p, tol);
    NonEmptyAppend(init, front);
    ChainedAppend(init, front, tol);
    FlattenAppend(init, front);
    assert Flatten(init) + l == (Flatten(init) + front) + [p];
    SnocCancel(Flatten(init) + front, q, p);
  }

  /** The inductive step of `ClusteringUnique` for a singleton last group. */
  lemma UniqueOpen(init: seq<seq<int>>, q: seq<int>, p: int, tol: int)
    requires |init| > 0 ==> |Last(init)| > 0 && Abs(p - Last(Last(init))) > tol
    requires init == Groups(q, tol)
    ensures init + [[p]] == Groups(q + [p], tol)
  {
    GroupsStep(q, p, tol);
    AddPositionOpen(init, p, tol);
  }

  /** The inductive step of `ClusteringUnique` for a longer last group. */
  lemma UniqueJoin(init: seq<seq<int>>, front: seq<int>, q: seq<int>, p: int, tol: int)
    requires |front| > 0 && Abs(p - Last(front)) <= tol
    requires init + [front] == Groups(q, tol)
    ensures init + [front + [p]] == Groups(q + [p], tol)
  {
    GroupsStep(q, p, tol);
    AddPositionJoin(init, front, p, tol);
  }

  function Sum(g: seq<int>): int {
    if |g| == 0 then 0 else Sum(g[..|g| - 1]) + Last(g)
  }

  function SeqMin(g: seq<int>): int
    requires |g| > 0
  {
    if |g| == 1 then g[0]
    else var m := SeqMin(g[..|g| - 1]); if Last(g) < m then Last(g) else m
  }

  function SeqMax(g: seq<int>): int
    requires |g| > 0
  {
    if |g| == 1 then g[0]
    else var m := SeqMax(g[..|g| - 1]); if Last(g) > m then Last(g) else m
  }

  /** The sum of a group lies between |g| times its least and |g| times its
      greatest member. */
  lemma {:induction false} SumBounds(g: seq<int>)
    requires |g| > 0
    ensures SeqMin(g) * |g| <= Sum(g) <= SeqMax(g) * |g|
    decreases |g|
  {
    if |g| > 1 {
      var h := g[..|g| - 1];
      SumBounds(h);
      assert Sum(g) == Sum(h) + Last(g) && |g| == |h| + 1;
      assert SeqMin(g) <= SeqMin(h) && SeqMin(g) <= Last(g);
      assert SeqMax(h) <= SeqMax(g) && Last(g) <= SeqMax(g);
      AddBelow(SeqMin(g), SeqMin(h), Last(g), Sum(h), |h|);
      AddAbove(SeqMax(g), SeqMax(h), Last(g), Sum(h), |h|);
    }
  }

  /** The step of `SumBounds` for the least member. */
  lemma AddBelow(lo: int, m: int, x: int, s: int, n: nat)
    requires lo <= m && lo <= x && m * n <= s
    ensures lo * (n + 1) <= s + x
  {
    MulMonotone(lo, m, n);
    assert lo * (n + 1) == lo * n + lo;
  }

  /** The step of `SumBounds` for the greatest member. */
  lemma AddAbove(hi: int, m: int, x: int, s: int, n: nat)
    requires m <= hi && x <= hi && s <= m * n
    ensures s + x <= hi * (n + 1)
  {
    MulMonotone(m, hi, n);
    assert hi * (n + 1) == hi * n + hi;
  }

  lemma MulMonotone(a: int, b: int, m: nat)
    requires a <= b
    ensures a * m <= b * m
  {
  }

  /** Euclidean division of a non-negative number. */
  lemma DivBounds(a: nat, n: int)
    requires n > 0
    ensures 0 <= a / n && (a / n) * n <= a < (a / n) * n + n
  {
  }

  /** `int(a / n)`: the quotient truncated towards zero, so the rounding
      error never exceeds one step of n and points towards zero. */
  function TruncDiv(a: int, n: int): (r: int)
    requires n > 0
    ensures a >= 0 ==> 0 <= r * n <= a < r * n + n
    ensures a < 0 ==> r * n - n < a <= r * n <= 0
  {
    if a >= 0 then
      DivBounds(a, n);
      a / n
    else
      var q := (-a) / n;
      DivBounds(-a, n);
      assert (-q) * n == -(q * n);
      -q
  }

  /** A truncated mean stays between the bounds of the mean. */
  lemma TruncDivWithin(sum: int, n: int, lo: int, hi: int)
    requires n > 0 && lo * n <= sum <= hi * n
    ensures lo <= TruncDiv(sum, n) <= hi
  {
    var r := TruncDiv(sum, n);
    if sum >= 0 {
      assert (r - 1) * n == r * n - n;
      BelowTimes(lo, r + 1, n) by {
        assert (r + 1) * n == r * n + n;
      }
      BelowTimes(r - 1, hi, n);
    } else {
      assert (r + 1) * n == r * n + n;
      BelowTimes(lo, r + 1, n);
      BelowTimes(r - 1, hi, n) by {
        assert (r - 1) * n == r * n - n;
      }
    }
  }

  /** `int(np.mean(g))`: the mean of the group, truncated towards zero,
      never leaves the group's range. */
  function TruncMean(g: seq<int>): (r: int)
    requires |g| > 0
    ensures SeqMin(g) <= r <= SeqMax(g)
  {
    SumBounds(g);
    TruncDivWithin(Sum(g), |g|, SeqMin(g), SeqMax(g));
    TruncDiv(Sum(g), |g|)
  }

  /** Cancelling a positive factor from a strict product inequality. */
  lemma BelowTimes(a: int, b: int, n: int)
    requires n > 0 && a * n < b * n
    ensures a < b
  {
    if a >= b {
      MulMonotone(b, a, n);
    }
  }

  /** `cluster_positions`: one position per group. An empty input gives
      no positions; each position lies within the range of its group. */
  function ClusterPositions(pos: seq<int>, tol: int): (r: seq<int>)
    ensures |r| == |Groups(pos, tol)| && |r| <= |pos|
    ensures |r| == 0 <==> |pos| == 0
    ensures forall k :: 0 <= k < |r| ==> SeqMin(Groups(pos, tol)[k]) <= r[k] <= SeqMax(Groups(pos, tol)[k])
  {
    var gs := Groups(pos, tol);
    seq(|gs|, k requires 0 <= k < |gs| => TruncMean(gs[k]))
  }

  predicate Increasing(s: seq<int>) {
    forall i, j :: 0 <= i < j < |s| ==> s[i] < s[j]
  }

  /** Positive steps make an increasing sequence. */
  lemma {:induction false} StepsIncreasing(s: seq<int>)
    requires forall i :: 0 <= i < |s| - 1 ==> Step(s, i) > 0
    ensures Increasing(s)
    decreases |s|
  {
    if |s| > 1 {
      var t := s[..|s| - 1];
      forall i | 0 <= i < |t| - 1
        ensures Step(t, i) > 0
      {
        assert Step(t, i) == Step(s, i);
      }
      StepsIncreasing(t);
      assert Step(s, |s| - 2) > 0;
    }
  }

  /** Every group is increasing and starts above the end of the one
      before. */
  predicate SortedGroups(gs: seq<seq<int>>)
    requires NonEmptyGroups(gs)
  {
    && (forall k :: 0 <= k < |gs| ==> Increasing(gs[k]))
    && (forall k :: 0 <= k < |gs| - 1 ==> Jump(gs, k) > 0)
  }

  /** Increasing input (as `np.unique` delivers it) is cut into increasing
      groups, each ending below the start of the next. */
  lemma {:induction false} GroupsSorted(pos: seq<int>, tol: int)
    requires Increasing(pos)
    ensures SortedGroups(Groups(pos, tol))
    decreases |pos|
  {
    if |pos| > 0 {
      var q, p := pos[..|pos| - 1], Last(pos);
      assert Increasing(q);
      GroupsSorted(q, tol);
      if |q| > 0 {
        assert Last(q) == pos[|pos| - 2] < p;
      }
      SortedStep(q, p, tol);
      assert pos == q + [p];
    }
  }

  /** One turn of the loop with a position above all before it keeps the
      groups sorted. */
  lemma SortedStep(q: seq<int>, p: int, tol: int)
    requires SortedGroups(Groups(q, tol)) && (|q| > 0 ==> Last(q) < p)
    ensures SortedGroups(Groups(q + [p], tol))
  {
    var gs := Groups(q, tol);
    GroupsStep(q, p, tol);
    if |gs| > 0 && Abs(p - Last(Last(gs))) <= tol {
      SortedExtend(gs, p);
    } else {
      SortedOpen(gs, p);
    }
  }

  /** A position above the last group's end keeps the groups sorted when it
      joins that group. */
  lemma SortedExtend(gs: seq<seq<int>>, p: int)
    requires NonEmptyGroups(gs) && SortedGroups(gs) && |gs| > 0 && Last(Last(gs)) < p
    ensures NonEmptyGroups(gs[..|gs| - 1] + [Last(gs) + [p]])
    ensures SortedGroups(gs[..|gs| - 1] + [Last(gs) + [p]])
  {
    var n := |gs|;
    var l := Last(gs);
    var r := gs[..n - 1] + [l + [p]];
    assert Increasing(l + [p]) by {
      assert Increasing(gs[n - 1]);
    }
    forall k | 0 <= k < |r|
      ensures |r[k]| > 0 && Increasing(r[k])
    {
      if k < n - 1 {
        assert r[k] == gs[k];
      }
    }
    forall k | 0 <= k < |r| - 1
      ensures Jump(r, k) > 0
    {
      assert Jump(r, k) == Jump(gs, k);
    }
  }

  /** A position above the last group's end keeps the groups sorted when it
      opens a group of its own. */
  lemma SortedOpen(gs: seq<seq<int>>, p: int)
    requires NonEmptyGroups(gs) && SortedGroups(gs) && (|gs| > 0 ==> Last(Last(gs)) < p)
    ensures NonEmptyGroups(gs + [[p]])
    ensures SortedGroups(gs + [[p]])
  {
    var r := gs + [[p]];
    forall k | 0 <= k < |r|
      ensures |r[k]| > 0 && Increasing(r[k])
    {
      if k < |gs| {
        assert r[k] == gs[k];
      }
    }
    forall k | 0 <= k < |r| - 1
      ensures Jump(r, k) > 0
    {
      if k < |gs| - 1 {
        assert Jump(r, k) == Jump(gs, k);
      }
    }
  }

  /** The least member of an increasing group is its first and the
      greatest its last. */
  lemma {:induction false} IncreasingMin(g: seq<int>)
    requires |g| > 0 && Increasing(g)
    ensures SeqMin(g) == g[0] && SeqMax(g) == Last(g)
    decreases |g|
  {
    if |g| > 1 {
      var h := g[..|g| - 1];
      assert Increasing(h);
      IncreasingMin(h);
    }
  }

  /** Increasing positions give increasing cluster positions: the grid
      lines come out in order. */
  lemma ClustersIncreasing(pos: seq<int>, tol: int)
    requires Increasing(pos)
    ensures Increasing(ClusterPositions(pos, tol))
  {
    var gs := Groups(pos, tol);
    var r := ClusterPositions(pos, tol);
    GroupsSorted(pos, tol);
    forall i | 0 <= i < |r| - 1
      ensures Step(r, i) > 0
    {
      IncreasingMin(gs[i]);
      IncreasingMin(gs[i + 1]);
      assert Jump(gs, i) > 0;
    }
    StepsIncreasing(r);
  }

  /** Positions already more than `tol` apart are left as they are. */
  lemma {:induction false} SpreadPositionsKept(pos: seq<int>, tol: int)
    requires forall i :: 0 <= i < |pos| - 1 ==> Abs(Step(pos, i)) > tol
    ensures ClusterPositions(pos, tol) == pos
  {
    var gs := seq(|pos|, i requires 0 <= i < |pos| => [pos[i]]);
    SingletonsFlatten(pos);
    forall k | 0 <= k < |gs| - 1
      ensures Abs(Jump(gs, k)) > tol
    {
      assert Jump(gs, k) == Step(pos, k);
    }
    ClusteringUnique(gs, pos, tol);
    var r := ClusterPositions(pos, tol);
    forall k | 0 <= k < |r|
      ensures r[k] == pos[k]
    {
      assert gs[k] == [pos[k]];
    }
  }

  /** Cutting a sequence into singletons and flattening gives it back. */
  lemma {:induction false} SingletonsFlatten(pos: seq<int>)
    ensures Flatten(seq(|pos|, i requires 0 <= i < |pos| => [pos[i]])) == pos
    decreases |pos|
  {
    if |pos| > 0 {
      var q := pos[..|pos| - 1];
      SingletonsFlatten(q);
      var gs := seq(|pos|, i requires 0 <= i < |pos| => [pos[i]]);
      assert gs[..|pos| - 1] == seq(|q|, i requires 0 <= i < |q| => [q[i]]);
      assert pos == q + [Last(pos)];
    }
  }
}
