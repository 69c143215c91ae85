/** The alternating tree that src/hungarian.cpp grows for one new row, on values: what the scan,
    the dual update and the augmentation each keep. */
module HungarianTree {
  import opened Sequences
  import opened Assignment

  /** std::numeric_limits<int>::max() / 2 for 32-bit int. */
  const INF: int := 0x7fff_ffff / 2

  /** The invariant between rows, less the new row i = k + 1 that sits in column 0 while its
      tree grows. */
  ghost predicate Growing(c: Matrix, n: nat, k: nat, d: Duals)
    requires Square(c, n) && k < n
  {
    && Sized(n, d)
    && Feasible(c, n, k, d.u, d.v)
    && AssignedBut(n, k, d.p, d.col, 0)
    && Tight(c, n, k, d)
    && ColumnSigns(n, d.p, d.v, 0)
    && Sum(d.u) + Sum(d.v) == 0
    && d.p[0] == k + 1 && d.col[k + 1] == 0
    && d.u[0] == 0 && (forall i :: k + 1 < i <= n ==> d.u[i] == 0)
  }

  ghost predicate UsedHaveRows(n: nat, p: seq<int>, used: seq<bool>)
    requires |p| == |used| == n + 1
  {
    forall j :: 0 <= j <= n && used[j] ==> 1 <= p[j] <= n
  }

  /** Each used column but column 0 hangs by a tight edge from the row of an earlier one.
      depth is ghost: it orders the tree. */
  ghost predicate Tree(c: Matrix, n: nat, d: Duals, way: seq<int>, used: seq<bool>, depth: seq<nat>)
    requires Square(c, n) && Sized(n, d)
  {
    && |way| == |used| == |depth| == n + 1
    && (forall j :: 1 <= j <= n && used[j] ==>
         && 0 <= way[j] <= n && used[way[j]] && depth[way[j]] < depth[j]
         && 1 <= d.p[way[j]] <= n && Reduced(c, n, d.u, d.v, d.p[way[j]], j) == 0)
  }

  /** What the initial INF of minv has become: every dual update takes from it what it adds to the
      new row's potential. */
  function Cap(k: nat, d: Duals): int
    requires k + 1 < |d.u|
  {
    INF - d.u[k + 1]
  }

  /** minv and way hold, for each unused column, the least reduced cost from a used column's row,
      unless all of those have reached the cap. */
  ghost predicate Slack(c: Matrix, n: nat, k: nat, d: Duals, way: seq<int>, minv: seq<int>, used: seq<bool>)
    requires Square(c, n) && k < n && Sized(n, d) && |used| == n + 1 && UsedHaveRows(n, d.p, used)
  {
    && |way| == |minv| == n + 1
    && (forall j :: 1 <= j <= n && !used[j] && minv[j] != Cap(k, d) ==>
         && minv[j] < Cap(k, d) && 0 <= way[j] <= n && used[way[j]]
         && minv[j] == Reduced(c, n, d.u, d.v, d.p[way[j]], j))
    && (forall j, t :: 1 <= j <= n && !used[j] && 0 <= t <= n && used[t] ==>
         minv[j] <= Reduced(c, n, d.u, d.v, d.p[t], j))
  }

  /** The state at the head of the tree-growing loop: column j is next to be used. */
  ghost predicate AtColumn(c: Matrix, n: nat, k: nat, d: Duals, way: seq<int>, minv: seq<int>,
                           used: seq<bool>, depth: seq<nat>, j: int)
    requires Square(c, n) && k < n
  {
    && Growing(c, n, k, d)
    && |way| == |used| == |depth| == |minv| == n + 1
    && Tree(c, n, d, way, used, depth)
    && UsedHaveRows(n, d.p, used)
    && 0 <= j <= n && !used[j]
    && (j == 0 ==>
         && (forall t :: 0 <= t <= n ==> !used[t] && minv[t] == INF)
         && d.u[k + 1] == 0)
    && (j != 0 ==>
         && used[0] && minv[j] == 0 && 0 < Cap(k, d)
         && Slack(c, n, k, d, way, minv, used)
         && RowFeasible(c, n, d.u, d.v, k + 1))
  }

  /** What one pass of the inner scan does to a column: relax against row r of column j0. */
  ghost predicate Relaxed(c: Matrix, n: nat, d: Duals, used: seq<bool>, j0: int, r: int,
                          way: seq<int>, minv: seq<int>, way': seq<int>, minv': seq<int>)
    requires Square(c, n) && Sized(n, d) && |used| == n + 1 && 1 <= r <= n
    requires |way| == |minv| == |way'| == |minv'| == n + 1
  {
    forall j :: 0 <= j <= n ==>
      if j != 0 && !used[j] && Reduced(c, n, d.u, d.v, r, j) < minv[j] then
        minv'[j] == Reduced(c, n, d.u, d.v, r, j) && way'[j] == j0
      else
        minv'[j] == minv[j] && way'[j] == way[j]
  }

  /** The scores are close enough together, and not too far below zero, for INF to act as
      infinity. For non-negative scores this says hi - lo < INF. */
  ghost predicate BelowCap(lo: int, hi: int) {
    hi - lo < INF && -INF < lo
  }

  /** INF is half the largest int, rounded down, and the documented scores, 0 to 100, are well below it. */
  lemma CapSize()
    ensures 2 * INF <= 0x7fff_ffff < 2 * INF + 2
    ensures BelowCap(0, 100)
  {
  }

  /** Every reduced cost the scan computes is bounded by the range of the scores alone, whatever
      n is: by 0 and 2(hi - lo) for a processed row, by -hi and hi - 2 lo for the new one. */
  lemma ReducedCostBound(c: Matrix, n: nat, k: nat, d: Duals, lo: int, hi: int, r: int, j: int)
    requires Square(c, n) && k < n && Growing(c, n, k, d)
    requires EntriesIn(c, -hi, -lo) && 1 <= j <= n && 1 <= r <= k + 1
    ensures r <= k ==> 0 <= Reduced(c, n, d.u, d.v, r, j) <= 2 * (hi - lo)
    ensures r == k + 1 && d.u[r] == 0 ==> -hi <= Reduced(c, n, d.u, d.v, r, j) <= hi - 2 * lo
    ensures lo - hi <= d.v[j] <= 0
    ensures r <= k ==> -hi <= d.u[r] <= -lo
  {
    PotentialBounds(c, n, k, d, lo, hi);
    hide AssignedBut, Tight, ColumnSigns;
    assert -hi <= c[r - 1][j - 1] <= -lo;
    assert r <= k ==> Reduced(c, n, d.u, d.v, r, j) >= 0;
  }

  /** After the new row's first dual update its potential is in the same range. */
  lemma NewRowBound(c: Matrix, n: nat, k: nat, d: Duals, lo: int, hi: int)
    requires Square(c, n) && k < n && Growing(c, n, k, d)
    requires EntriesIn(c, -hi, -lo) && RowFeasible(c, n, d.u, d.v, k + 1)
    ensures d.u[k + 1] <= -lo
  {
    var f := FreeColumn(c, n, k, d);
    assert Reduced(c, n, d.u, d.v, k + 1, f) >= 0;
    assert c[k][f - 1] <= -lo;
  }

  // ---- using a column ----

  /** The depth a column takes when it is used. */
  function Deeper(n: nat, way: seq<int>, depth: seq<nat>, j: int): (r: seq<nat>)
    requires 0 <= j < |depth| == |way| && (j != 0 ==> 0 <= way[j] < |depth|)
    ensures |r| == |depth|
  {
    depth[j := if j == 0 then 0 else depth[way[j]] + 1]
  }

  lemma UseColumn(c: Matrix, n: nat, k: nat, d: Duals, way: seq<int>, minv: seq<int>,
                  used: seq<bool>, depth: seq<nat>, j: int)
    requires Square(c, n) && k < n && Sized(n, d) && Tree(c, n, d, way, used, depth)
    requires UsedHaveRows(n, d.p, used) && 0 <= j <= n && !used[j]
    requires j == 0 ==> forall t :: 0 <= t <= n ==> !used[t]
    requires j != 0 ==>
               used[0] && |minv| == n + 1 && minv[j] == 0 < Cap(k, d) && Slack(c, n, k, d, way, minv, used)
    ensures j != 0 ==> 0 <= way[j] <= n
    ensures Tree(c, n, d, way, used[j := true], Deeper(n, way, depth, j))
    ensures 1 <= d.p[j] <= n ==> UsedHaveRows(n, d.p, used[j := true])
    ensures used[j := true][0]
  {
  }

  /** The scan turns the slacks of the old tree into the slacks of the tree with column j0. */
  lemma ScanKeepsTree(c: Matrix, n: nat, d: Duals, used: seq<bool>, depth: seq<nat>, j0: int, r: int,
                      way: seq<int>, minv: seq<int>, way': seq<int>, minv': seq<int>)
    requires Square(c, n) && Sized(n, d) && Tree(c, n, d, way, used, depth) && 1 <= r <= n
    requires |minv| == |way'| == |minv'| == n + 1
    requires Relaxed(c, n, d, used, j0, r, way, minv, way', minv')
    ensures Tree(c, n, d, way', used, depth)
  {
  }

  lemma ScanKeepsSlack(c: Matrix, n: nat, k: nat, d: Duals, used: seq<bool>, j0: int,
                       way: seq<int>, minv: seq<int>, way': seq<int>, minv': seq<int>)
    requires Square(c, n) && k < n && Sized(n, d)
    requires |used| == |way| == |minv| == |way'| == |minv'| == n + 1
    requires 0 <= j0 <= n && !used[j0] && 1 <= d.p[j0] <= n && UsedHaveRows(n, d.p, used)
    requires
      || Slack(c, n, k, d, way, minv, used)
      || forall t :: 0 <= t <= n ==> !used[t] && minv[t] == Cap(k, d)
    requires Relaxed(c, n, d, used[j0 := true], j0, d.p[j0], way, minv, way', minv')
    ensures UsedHaveRows(n, d.p, used[j0 := true])
    ensures Slack(c, n, k, d, way', minv', used[j0 := true])
  {
  }

  // ---- shifting the duals ----

  ghost predicate RowUsed(k: nat, d: Duals, used: seq<bool>, r: int) {
    1 <= r <= k + 1 && r < |d.col| && 0 <= d.col[r] < |used| && used[d.col[r]]
  }

  /** The dual update: tree rows gain delta, tree columns lose it. */
  ghost predicate Shifted(n: nat, k: nat, d: Duals, d': Duals, used: seq<bool>, delta: int)
    requires Sized(n, d) && |used| == n + 1
  {
    && Sized(n, d') && d'.p == d.p && d'.col == d.col
    && (forall r :: 0 <= r <= n ==> d'.u[r] == d.u[r] + if RowUsed(k, d, used, r) then delta else 0)
    && (forall j :: 0 <= j <= n ==> d'.v[j] == d.v[j] - if used[j] then delta else 0)
    && Sum(d'.u) + Sum(d'.v) == Sum(d.u) + Sum(d.v)
  }

  /** Every column's row is used exactly when the column is. */
  lemma UsedRows(c: Matrix, n: nat, k: nat, d: Duals, used: seq<bool>, t: int)
    requires Square(c, n) && k < n && Growing(c, n, k, d) && |used| == n + 1
    requires 0 <= t <= n && d.p[t] != 0
    ensures 1 <= d.p[t] <= k + 1 && d.col[d.p[t]] == t
    ensures RowUsed(k, d, used, d.p[t]) <==> used[t]
  {
  }

  lemma ShiftKeepsFeasible(c: Matrix, n: nat, k: nat, d: Duals, d': Duals, used: seq<bool>,
                           way: seq<int>, minv: seq<int>, delta: int)
    requires Square(c, n) && k < n && Growing(c, n, k, d)
    requires |used| == n + 1 && UsedHaveRows(n, d.p, used) && used[0]
    requires Slack(c, n, k, d, way, minv, used)
    requires forall j :: 1 <= j <= n && !used[j] ==> delta <= minv[j]
    requires delta >= 0 || forall j :: 1 <= j <= n ==> !used[j]
    requires Shifted(n, k, d, d', used, delta)
    ensures Feasible(c, n, k, d'.u, d'.v)
  {
    hide Tight, ColumnSigns, Sum;
    forall i, j | 1 <= i <= k && 1 <= j <= n ensures Reduced(c, n, d'.u, d'.v, i, j) >= 0 {
      assert Reduced(c, n, d.u, d.v, i, j) >= 0;
      if RowUsed(k, d, used, i) && !used[j] {
        assert minv[j] <= Reduced(c, n, d.u, d.v, d.p[d.col[i]], j);
      }
    }
  }

  lemma ShiftMakesRowFeasible(c: Matrix, n: nat, k: nat, d: Duals, d': Duals, used: seq<bool>,
                              way: seq<int>, minv: seq<int>, delta: int)
    requires Square(c, n) && k < n && Growing(c, n, k, d)
    requires |used| == n + 1 && UsedHaveRows(n, d.p, used) && used[0]
    requires Slack(c, n, k, d, way, minv, used)
    requires forall j :: 1 <= j <= n && !used[j] ==> delta <= minv[j]
    requires RowFeasible(c, n, d.u, d.v, k + 1) || forall j :: 1 <= j <= n ==> !used[j]
    requires Shifted(n, k, d, d', used, delta)
    ensures RowFeasible(c, n, d'.u, d'.v, k + 1)
  {
    hide Feasible, AssignedBut, Tight, ColumnSigns, Sum;
    var i := k + 1;
    assert RowUsed(k, d, used, i) && d.p[0] == i;
    forall j: int | 1 <= j <= n ensures Reduced(c, n, d'.u, d'.v, i, j) >= 0 {
      if used[j] {
        assert Reduced(c, n, d.u, d.v, i, j) >= 0;
      } else {
        assert minv[j] <= Reduced(c, n, d.u, d.v, d.p[0], j);
      }
    }
  }

  lemma ShiftKeepsTight(c: Matrix, n: nat, k: nat, d: Duals, d': Duals, used: seq<bool>, delta: int)
    requires Square(c, n) && k < n && Growing(c, n, k, d)
    requires |used| == n + 1 && Shifted(n, k, d, d', used, delta)
    ensures Tight(c, n, k, d')
  {
  }

  lemma ShiftKeepsGrowing(c: Matrix, n: nat, k: nat, d: Duals, d': Duals, used: seq<bool>, delta: int)
    requires Square(c, n) && k < n && Growing(c, n, k, d)
    requires |used| == n + 1 && UsedHaveRows(n, d.p, used)
    requires delta >= 0 || forall j :: 1 <= j <= n ==> !used[j]
    requires Shifted(n, k, d, d', used, delta)
    requires Feasible(c, n, k, d'.u, d'.v) && Tight(c, n, k, d')
    ensures Growing(c, n, k, d') && d'.p == d.p
  {
  }

  lemma ShiftKeepsTree(c: Matrix, n: nat, k: nat, d: Duals, d': Duals, way: seq<int>,
                       used: seq<bool>, depth: seq<nat>, delta: int)
    requires Square(c, n) && k < n && Growing(c, n, k, d)
    requires Tree(c, n, d, way, used, depth)
    requires Shifted(n, k, d, d', used, delta)
    ensures Tree(c, n, d', way, used, depth)
  {
    hide Feasible, Tight, ColumnSigns, Sum;
    forall j | 1 <= j <= n && used[j] ensures Reduced(c, n, d'.u, d'.v, d.p[way[j]], j) == 0 {
      UsedRows(c, n, k, d, used, way[j]);
    }
  }

  lemma ShiftKeepsSlack(c: Matrix, n: nat, k: nat, d: Duals, d': Duals, way: seq<int>,
                        used: seq<bool>, delta: int, minv: seq<int>, minv': seq<int>)
    requires Square(c, n) && k < n && Growing(c, n, k, d)
    requires |used| == n + 1 && UsedHaveRows(n, d.p, used) && used[0]
    requires Slack(c, n, k, d, way, minv, used)
    requires Shifted(n, k, d, d', used, delta)
    requires |minv'| == n + 1 && forall j :: 1 <= j <= n && !used[j] ==> minv'[j] == minv[j] - delta
    ensures Slack(c, n, k, d', way, minv', used)
    ensures Cap(k, d') == Cap(k, d) - delta
  {
    hide Feasible, Tight, ColumnSigns, Sum, AssignedBut;
    UsedRows(c, n, k, d, used, 0);
    forall j, t | 1 <= j <= n && !used[j] && 0 <= t <= n && used[t]
      ensures Reduced(c, n, d'.u, d'.v, d'.p[t], j) == Reduced(c, n, d.u, d.v, d.p[t], j) - delta
    {
      UsedRows(c, n, k, d, used, t);
    }
  }

  /** Only a new row's first delta can be negative. */
  lemma LaterDeltaNonNegative(c: Matrix, n: nat, k: nat, d: Duals, way: seq<int>, minv: seq<int>,
                              used: seq<bool>, j: int)
    requires Square(c, n) && k < n && Growing(c, n, k, d)
    requires |used| == n + 1 && UsedHaveRows(n, d.p, used) && Slack(c, n, k, d, way, minv, used)
    requires RowFeasible(c, n, d.u, d.v, k + 1)
    requires 1 <= j <= n && !used[j] && Cap(k, d) >= 0
    ensures minv[j] >= 0
  {
  }

  /** One whole turn of the tree-growing loop: from standing at column j0 to standing at j1. */
  lemma TurnKeepsAtColumn(c: Matrix, n: nat, k: nat, d: Duals, d': Duals, used: seq<bool>,
                          depth: seq<nat>, j0: int, j1: int, delta: int, way: seq<int>,
                          minv: seq<int>, way': seq<int>, minv': seq<int>, minv'': seq<int>)
    requires Square(c, n) && k < n && AtColumn(c, n, k, d, way, minv, used, depth, j0)
    requires 1 <= d.p[j0] <= n
    requires |way'| == |minv'| == |minv''| == n + 1
    requires Relaxed(c, n, d, used[j0 := true], j0, d.p[j0], way, minv, way', minv')
    requires 1 <= j1 <= n && !used[j0 := true][j1] && delta == minv'[j1] < Cap(k, d)
    requires forall j :: 1 <= j <= n && !used[j0 := true][j] ==> delta <= minv'[j]
    requires Shifted(n, k, d, d', used[j0 := true], delta)
    requires forall j :: 0 <= j <= n && !used[j0 := true][j] ==> minv''[j] == minv'[j] - delta
    ensures j0 != 0 ==> 0 <= way[j0] < |depth|
    ensures |depth| == |way| == n + 1
    ensures AtColumn(c, n, k, d', way', minv'', used[j0 := true], Deeper(n, way, depth, j0), j1)
    ensures j0 != 0 ==> delta >= 0
  {
    hide Feasible, AssignedBut, Tight, ColumnSigns, Relaxed, Shifted, Slack, Tree, RowFeasible;
    var used' := used[j0 := true];
    UseColumn(c, n, k, d, way, minv, used, depth, j0);
    ScanKeepsTree(c, n, d, used', Deeper(n, way, depth, j0), j0, d.p[j0], way, minv, way', minv');
    ScanKeepsSlack(c, n, k, d, used, j0, way, minv, way', minv');
    if j0 != 0 {
      LaterDeltaNonNegative(c, n, k, d, way', minv', used', j1);
    }
    ShiftKeepsFeasible(c, n, k, d, d', used', way', minv', delta);
    ShiftMakesRowFeasible(c, n, k, d, d', used', way', minv', delta);
    ShiftKeepsTight(c, n, k, d, d', used', delta);
    ShiftKeepsGrowing(c, n, k, d, d', used', delta);
    ShiftKeepsTree(c, n, k, d, d', way', used', Deeper(n, way, depth, j0), delta);
    ShiftKeepsSlack(c, n, k, d, d', way', used', delta, minv', minv'');
  }

  // ---- the augmentation ----

  /** The walk back along `way`: the hole h is the only column out of place, and the columns
      still ahead of it carry their old rows. */
  ghost predicate Walking(c: Matrix, n: nat, k: nat, d0: Duals, d: Duals, way: seq<int>,
                          used: seq<bool>, depth: seq<nat>, h: int)
    requires Square(c, n) && k < n && Sized(n, d0)
  {
    && Sized(n, d) && d.u == d0.u && d.v == d0.v
    && Tree(c, n, d0, way, used, depth)
    && 0 <= h <= n && used[h]
    && AssignedBut(n, k + 1, d.p, d.col, h)
    && Tight(c, n, k + 1, d)
    && ColumnSigns(n, d.p, d.v, h)
    && (forall t :: 0 <= t <= n && used[t] && depth[t] < depth[h] ==> d.p[t] == d0.p[t])
  }

  lemma HoleAtFreeColumn(c: Matrix, n: nat, k: nat, d: Duals, j: int)
    requires Square(c, n) && k < n && Growing(c, n, k, d)
    requires 1 <= j <= n && d.p[j] == 0
    ensures AssignedBut(n, k + 1, d.p, d.col, j)
    ensures Tight(c, n, k + 1, d)
    ensures ColumnSigns(n, d.p, d.v, j)
  {
  }

  lemma WalkStarts(c: Matrix, n: nat, k: nat, d: Duals, way: seq<int>, minv: seq<int>,
                   used: seq<bool>, depth: seq<nat>, j: int)
    requires Square(c, n) && k < n && AtColumn(c, n, k, d, way, minv, used, depth, j)
    requires j != 0 && d.p[j] == 0
    ensures |depth| == |way| == n + 1 && 0 <= way[j] <= n
    ensures Walking(c, n, k, d, d, way, used[j := true], Deeper(n, way, depth, j), j)
  {
    hide Feasible, Slack, Tree;
    UseColumn(c, n, k, d, way, minv, used, depth, j);
    HoleAtFreeColumn(c, n, k, d, j);
    hide AssignedBut, Tight, ColumnSigns, Growing;
    var used', depth' := used[j := true], Deeper(n, way, depth, j);
    assert Walking(c, n, k, d, d, way, used', depth', j);
  }

  lemma WalkSteps(c: Matrix, n: nat, k: nat, d0: Duals, d: Duals, way: seq<int>,
                  used: seq<bool>, depth: seq<nat>, h: int)
    requires Square(c, n) && k < n && Sized(n, d0) && Walking(c, n, k, d0, d, way, used, depth, h)
    requires h != 0
    ensures Sized(n, d) && |way| == |depth| == n + 1
    ensures 0 <= way[h] <= n && depth[way[h]] < depth[h] && 1 <= d.p[way[h]] <= n
    ensures Walking(c, n, k, d0, d.(p := d.p[h := d.p[way[h]]], col := d.col[d.p[way[h]] := h]),
                    way, used, depth, way[h])
  {
  }

  lemma WalkEnds(c: Matrix, n: nat, k: nat, d0: Duals, d: Duals, way: seq<int>,
                 used: seq<bool>, depth: seq<nat>)
    requires Square(c, n) && k < n && Growing(c, n, k, d0)
    requires RowFeasible(c, n, d0.u, d0.v, k + 1)
    requires Walking(c, n, k, d0, d, way, used, depth, 0)
    ensures Partial(c, n, k + 1, d)
  {
  }

  /** Column j0 is somebody's, so it can be used. */
  lemma RowOfColumn(c: Matrix, n: nat, k: nat, d: Duals, way: seq<int>, minv: seq<int>,
                    used: seq<bool>, depth: seq<nat>, j0: int)
    requires Square(c, n) && k < n && AtColumn(c, n, k, d, way, minv, used, depth, j0) && d.p[j0] != 0
    ensures Sized(n, d) && 1 <= d.p[j0] <= k + 1 && (j0 == 0 ==> d.p[j0] == k + 1)
  {
  }

  /** After the scan a free column's slack is below INF, so j1 is not -1, and below the cap, so what
      is least was attained. */
  lemma ScanFindsColumn(c: Matrix, n: nat, k: nat, d: Duals, way: seq<int>, minv: seq<int>,
                        used: seq<bool>, depth: seq<nat>, j0: int, lo: int, hi: int,
                        way': seq<int>, minv': seq<int>)
    returns (f: nat)
    requires Square(c, n) && k < n && AtColumn(c, n, k, d, way, minv, used, depth, j0)
    requires d.p[j0] != 0 && EntriesIn(c, -hi, -lo) && BelowCap(lo, hi)
    requires 1 <= d.p[j0] <= n && |way'| == |minv'| == n + 1
    requires Relaxed(c, n, d, used[j0 := true], j0, d.p[j0], way, minv, way', minv')
    requires j0 != 0 ==> -hi <= d.u[k + 1]
    ensures 1 <= f <= n && !used[j0 := true][f] && minv'[f] < INF && minv'[f] < Cap(k, d)
  {
    hide Feasible, Tight, ColumnSigns, Tree, Relaxed, RowFeasible, AssignedBut;
    ScanKeepsSlack(c, n, k, d, used, j0, way, minv, way', minv');
    f := FreeColumn(c, n, k, d);
    assert !used[j0 := true][f];
    assert minv'[f] <= Reduced(c, n, d.u, d.v, d.p[0], f);
    assert c[k][f - 1] <= -lo;
  }

  /** The new row's potential starts at or above -hi and only rises after that. */
  lemma NewRowAbove(c: Matrix, n: nat, k: nat, d: Duals, d': Duals, used: seq<bool>, j0: int, j1: int,
                    delta: int, way: seq<int>, minv: seq<int>, depth: seq<nat>,
                    way': seq<int>, minv': seq<int>, lo: int, hi: int)
    requires Square(c, n) && k < n && AtColumn(c, n, k, d, way, minv, used, depth, j0)
    requires EntriesIn(c, -hi, -lo) && 1 <= d.p[j0] <= n && |way'| == |minv'| == n + 1
    requires Relaxed(c, n, d, used[j0 := true], j0, d.p[j0], way, minv, way', minv')
    requires 1 <= j1 <= n && !used[j0 := true][j1] && delta == minv'[j1] < Cap(k, d)
    requires Shifted(n, k, d, d', used[j0 := true], delta)
    requires j0 != 0 ==> -hi <= d.u[k + 1] && delta >= 0
    ensures -hi <= d'.u[k + 1]
  {
    hide Feasible, Tight, Tree, Slack, RowFeasible, AssignedBut, Sum;
    var i := k + 1;
    assert RowUsed(k, d, used[j0 := true], i);
    if j0 == 0 {
      assert delta == Reduced(c, n, d.u, d.v, i, j1);
      assert -hi <= c[i - 1][j1 - 1] && d.v[j1] <= 0;
    }
  }

  lemma StandsAtDummy(c: Matrix, n: nat, k: nat, d: Duals, way: seq<int>, minv: seq<int>,
                      used: seq<bool>, depth: seq<nat>)
    requires Square(c, n) && k < n && Growing(c, n, k, d) && d.u[k + 1] == 0
    requires |way| == |minv| == |used| == |depth| == n + 1
    requires forall t :: 0 <= t <= n ==> !used[t] && minv[t] == INF
    ensures AtColumn(c, n, k, d, way, minv, used, depth, 0)
    ensures d.p[0] != 0
  {
  }

  /** Every column's row names it back, for the used columns and column j. */
  lemma InverseOfGrowing(c: Matrix, n: nat, k: nat, d: Duals, used: seq<bool>, way: seq<int>,
                         minv: seq<int>, depth: seq<nat>, j: int)
    requires Square(c, n) && k < n && AtColumn(c, n, k, d, way, minv, used, depth, j) && d.p[j] != 0
    ensures forall t :: 0 <= t <= n && used[j := true][t] ==> 1 <= d.p[t] <= k + 1 && d.col[d.p[t]] == t
    ensures forall r :: 1 <= r <= k + 1 ==> 0 <= d.col[r] <= n && d.p[d.col[r]] == r
  {
    hide Feasible, Tight, ColumnSigns, Tree, Slack, RowFeasible;
  }

  /** The potentials of the processed rows and of all real columns stay within the range of the
      scores, however many rows there are. */
  ghost predicate PotentialsIn(n: nat, k: nat, u: seq<int>, v: seq<int>, lo: int, hi: int)
    requires |u| == |v| == n + 1 && k <= n
  {
    && (forall i :: 1 <= i <= k ==> -hi <= u[i] <= -lo)
    && (forall j :: 1 <= j <= n ==> lo - hi <= v[j] <= 0)
  }

  /** d0 before the augmentation, d after it: the potentials are the same. */
  lemma RowKeepsPotentialsIn(c: Matrix, n: nat, k: nat, d0: Duals, d: Duals, lo: int, hi: int)
    requires Square(c, n) && k < n && Growing(c, n, k, d0) && RowFeasible(c, n, d0.u, d0.v, k + 1)
    requires Partial(c, n, k + 1, d) && d.u == d0.u && d.v == d0.v
    requires EntriesIn(c, -hi, -lo)
    ensures PotentialsIn(n, k + 1, d.u, d.v, lo, hi)
  {
    PotentialBounds(c, n, k, d0, lo, hi);
    NewRowBound(c, n, k, d0, lo, hi);
    hide Feasible, RowFeasible, ColumnSigns;
    var i := k + 1;
    assert Reduced(c, n, d.u, d.v, i, d.col[i]) == 0;
    assert -hi <= c[i - 1][d.col[i] - 1];
  }

  lemma EndsRow(c: Matrix, n: nat, k: nat, d0: Duals, d: Duals, way: seq<int>, minv: seq<int>,
                used: seq<bool>, depth: seq<nat>, j: int, used': seq<bool>, depth': seq<nat>,
                lo: int, hi: int)
    requires Square(c, n) && k < n && AtColumn(c, n, k, d0, way, minv, used, depth, j) && j != 0
    requires Sized(n, d0) && Walking(c, n, k, d0, d, way, used', depth', 0)
    requires EntriesIn(c, -hi, -lo)
    ensures Sized(n, d) && Partial(c, n, k + 1, d) && PotentialsIn(n, k + 1, d.u, d.v, lo, hi)
    ensures d.u[0] == 0 && forall i :: k + 1 < i <= n ==> d.u[i] == 0
  {
    hide Feasible, Tight, AssignedBut, ColumnSigns, Tree, Slack, RowFeasible;
    WalkEnds(c, n, k, d0, d, way, used', depth');
    RowKeepsPotentialsIn(c, n, k, d0, d, lo, hi);
  }

  lemma StartsEmpty(c: Matrix, n: nat, d: Duals)
    requires Square(c, n) && Sized(n, d)
    requires forall i :: 0 <= i <= n ==> d.u[i] == d.v[i] == d.p[i] == d.col[i] == 0
    ensures Partial(c, n, 0, d)
  {
    SumZero(d.u);
    SumZero(d.v);
  }

  /** Putting row k + 1 into the dummy column starts its tree. */
  lemma StartsRow(c: Matrix, n: nat, k: nat, d: Duals)
    requires Square(c, n) && k < n && Partial(c, n, k, d)
    requires d.u[0] == 0 && forall i :: k < i <= n ==> d.u[i] == 0
    ensures Growing(c, n, k, d.(p := d.p[0 := k + 1], col := d.col[k + 1 := 0]))
  {
  }
}
