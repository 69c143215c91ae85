/** src/hungarian.cpp: the O(n^3) assignment solver, on arrays as the code has them. */
module Hungarian {
  import opened Sequences
  import opened Assignment
  import opened HungarianTree
  import opened HungarianRuns

  /** a is a permutation of the columns with the largest total score of all. */
  ghost predicate BestAssignment(scores: Matrix, n: nat, a: seq<int>)
    requires Square(scores, n)
  {
    && Permutation(a, n)
    && forall t :: Permutation(t, n) ==> Total(scores, n, t) <= Total(scores, n, a)
  }

  ghost predicate Negated(c: Matrix, scores: Matrix, n: nat)
    requires Square(c, n) && Square(scores, n)
  {
    forall i, j :: 0 <= i < n && 0 <= j < n ==> c[i][j] == -scores[i][j]
  }

  lemma NegatedEntries(c: Matrix, scores: Matrix, n: nat, lo: int, hi: int)
    requires Square(c, n) && Square(scores, n) && Negated(c, scores, n) && EntriesIn(scores, lo, hi)
    ensures EntriesIn(c, -hi, -lo)
  {
  }

  lemma TotalNegated(c: Matrix, scores: Matrix, n: nat, s: seq<int>)
    requires Square(c, n) && Square(scores, n) && Negated(c, scores, n)
    requires |s| <= n && Injection(s, n)
    ensures Total(scores, n, s) == -Total(c, n, s)
  {
    var zeros := seq(|s|, _ => 0);
    SumPlus(Picked(c, n, s), Picked(scores, n, s), zeros);
    SumZero(zeros);
  }

  /** The cheapest full assignment of the negated costs is the best one of the scores. */
  lemma CheapestIsBest(c: Matrix, scores: Matrix, n: nat, s: seq<int>)
    requires Square(c, n) && Square(scores, n) && Negated(c, scores, n)
    requires |s| == n && CheapestInjection(c, n, s)
    ensures BestAssignment(scores, n, s)
    ensures Total(scores, n, s) == -Total(c, n, s)
  {
    TotalNegated(c, scores, n, s);
    forall t | Permutation(t, n) ensures Total(scores, n, t) <= Total(scores, n, s) {
      TotalNegated(c, scores, n, t);
      assert Total(c, n, s) <= Total(c, n, t);
    }
  }

  ghost function Trues(s: seq<bool>): (r: set<int>)
    ensures r <= Range(|s|)
    ensures forall j :: j in r <==> 0 <= j < |s| && s[j]
  {
    set j | j in Range(|s|) && s[j]
  }

  /** Marking one more column: the measure of the tree-growing loop. */
  lemma TruesGrow(s: seq<bool>, j: int)
    requires 0 <= j < |s| && !s[j]
    ensures |Trues(s)| < |Trues(s[j := true])| <= |s|
  {
    assert Trues(s[j := true]) == Trues(s) + {j};
    RangeCardinality(|s|);
    SubsetCardinality(Trues(s[j := true]), Range(|s|));
  }

  lemma SumsBalance(us: seq<int>, vs: seq<int>, i: nat, j: nat, delta: int)
    requires i < |us| && j < |vs|
    ensures Sum(us[i := us[i] + delta]) + Sum(vs[j := vs[j] - delta]) == Sum(us) + Sum(vs)
  {
    SumUpdate(us, i, us[i] + delta);
    SumUpdate(vs, j, vs[j] - delta);
  }

  class Hungarian {
    const n: nat
    const cost: Matrix
    ghost const scores: Matrix
    var maxScore: int
    var assignment: seq<int>

    ghost predicate Valid() {
      && n > 0 && Square(cost, n) && Square(scores, n) && Negated(cost, scores, n)
    }

    constructor (costMatrix: Matrix)
      requires costMatrix != [] && Square(costMatrix, |costMatrix|)
      ensures Valid() && n == |costMatrix| && scores == costMatrix
    {
      var size := |costMatrix|;
      var negated: Matrix := seq(size, _ => seq(size, _ => 0));
      for i := 0 to size
        invariant Square(negated, size)
        invariant forall i', j :: 0 <= i' < i && 0 <= j < size ==> negated[i'][j] == -costMatrix[i'][j]
      {
        for j := 0 to size
          invariant Square(negated, size)
          invariant forall i', j' :: 0 <= i' < i && 0 <= j' < size ==> negated[i'][j'] == -costMatrix[i'][j']
          invariant forall j' :: 0 <= j' < j ==> negated[i][j'] == -costMatrix[i][j']
        {
          negated := negated[i := negated[i][j := -costMatrix[i][j]]];
        }
      }
      n, cost, scores := size, negated, costMatrix;
      maxScore, assignment := 0, [];
    }

    /** The first inner for loop of `solve`: relax every unused column against row i0 and pick the
        one with the least slack. j1 stays -1 exactly when every slack has reached INF. */
    method Scan(u: array<int>, v: array<int>, way: array<int>, minv: array<int>, used: array<bool>,
                j0: nat, i0: nat, ghost p: seq<int>, ghost col: seq<int>)
      returns (delta: int, j1: int)
      requires Valid() && 1 <= i0 <= n
      requires u.Length == v.Length == way.Length == minv.Length == used.Length == |p| == |col| == n + 1
      requires way != minv && u != way && u != minv && v != way && v != minv
      modifies way, minv
      ensures Relaxed(cost, n, Duals(u[..], v[..], p, col), used[..], j0, i0,
                      old(way[..]), old(minv[..]), way[..], minv[..])
      ensures forall j :: 1 <= j <= n && !used[j] ==> delta <= minv[j]
      ensures j1 == -1 || (FirstLeast(n, used[..], minv[..], j1) && delta == minv[j1])
      ensures j1 == -1 <==> forall j :: 1 <= j <= n && !used[j] ==> minv[j] >= INF
    {
      delta, j1 := INF, -1;
      ghost var d := Duals(u[..], v[..], p, col);
      for j := 1 to n + 1
        invariant u[..] == d.u && v[..] == d.v
        invariant forall t :: 0 <= t <= n ==>
                    if 1 <= t < j && !used[t] && Reduced(cost, n, d.u, d.v, i0, t) < old(minv[t]) then
                      minv[t] == Reduced(cost, n, d.u, d.v, i0, t) && way[t] == j0
                    else
                      minv[t] == old(minv[t]) && way[t] == old(way[t])
        invariant forall t :: 1 <= t < j && !used[t] ==> delta <= minv[t]
        invariant j1 == -1 ==> delta == INF
        invariant j1 != -1 ==> delta < INF && 1 <= j1 < j && !used[j1] && delta == minv[j1]
        invariant forall t :: 1 <= t < j1 && !used[t] ==> delta < minv[t]
      {
        if !used[j] {
          var cur := cost[i0 - 1][j - 1] - u[i0] - v[j];
          if cur < minv[j] {
            minv[j] := cur;
            way[j] := j0;
          }
          if minv[j] < delta {
            delta := minv[j];
            j1 := j;
          }
        }
      }
    }

    /** The second inner for loop of `solve`: move the potentials of the tree by delta. */
    method Shift(u: array<int>, v: array<int>, p: array<int>, minv: array<int>, used: array<bool>,
                 delta: int, ghost k: nat, ghost col: seq<int>)
      requires Valid() && k < n
      requires u.Length == v.Length == p.Length == minv.Length == used.Length == |col| == n + 1
      requires u != v && u != p && u != minv && v != p && v != minv && p != minv
      requires forall j :: 0 <= j <= n && used[j] ==> 1 <= p[j] <= k + 1 && col[p[j]] == j
      requires forall r :: 1 <= r <= k + 1 ==> 0 <= col[r] <= n && p[col[r]] == r
      modifies u, v, minv
      ensures Shifted(n, k, Duals(old(u[..]), old(v[..]), p[..], col), Duals(u[..], v[..], p[..], col),
                      used[..], delta)
      ensures forall j :: 0 <= j <= n ==> minv[j] == old(minv[j]) - if used[j] then 0 else delta
    {
      hide Square, Negated, Sum;
      for j := 0 to n + 1
        invariant forall r :: 0 <= r <= n ==>
                    u[r] == old(u[r]) + if 1 <= r <= k + 1 && used[col[r]] && col[r] < j then delta else 0
        invariant forall t :: 0 <= t <= n ==> v[t] == old(v[t]) - if t < j && used[t] then delta else 0
        invariant forall t :: 0 <= t <= n ==>
                    minv[t] == old(minv[t]) - if t < j && !used[t] then delta else 0
        invariant Sum(u[..]) + Sum(v[..]) == Sum(old(u[..])) + Sum(old(v[..]))
      {
        if used[j] {
          ghost var us, vs := u[..], v[..];
          u[p[j]] := u[p[j]] + delta;
          v[j] := v[j] - delta;
          assert u[..] == us[p[j] := us[p[j]] + delta] && v[..] == vs[j := vs[j] - delta];
          SumsBalance(us, vs, p[j], j, delta);
        } else {
          minv[j] := minv[j] - delta;
        }
      }
    }

    /** The body of the first do-while loop of `solve`: use column j0, scan, shift, name j1. The cap
        on the scores is what keeps j1 from ever being -1. */
    method Turn(u: array<int>, v: array<int>, p: array<int>, way: array<int>, minv: array<int>,
                used: array<bool>, j0: nat, ghost depth: seq<nat>, ghost k: nat,
                ghost col: seq<int>, ghost lo: int, ghost hi: int)
      returns (j1: nat, ghost depth': seq<nat>)
      requires Valid() && k < n && EntriesIn(cost, -hi, -lo) && BelowCap(lo, hi)
      requires u.Length == v.Length == p.Length == way.Length == minv.Length == used.Length == n + 1
      requires u != v && u != p && u != way && v != p && v != way && p != way
      requires minv != u && minv != v && minv != p && minv != way
      requires j0 <= n && !used[j0] && p[j0] != 0 && (j0 != 0 ==> -hi <= u[k + 1])
      requires |col| == |depth| == n + 1
      requires AtColumn(cost, n, k, Duals(u[..], v[..], p[..], col), way[..], minv[..], used[..], depth, j0)
      modifies u, v, way, minv, used
      ensures 1 <= j1 <= n && used[..] == old(used[..])[j0 := true] && !used[j1] && -hi <= u[k + 1]
      ensures |depth'| == n + 1
      ensures Step(cost, n,
                   Grow(k, Duals(old(u[..]), old(v[..]), p[..], col), old(way[..]), old(minv[..]), old(used[..]), j0),
                   Grow(k, Duals(u[..], v[..], p[..], col), way[..], minv[..], used[..], j1))
      ensures AtColumn(cost, n, k, Duals(u[..], v[..], p[..], col), way[..], minv[..], used[..], depth', j1)
    {
      hide Growing, Feasible, AssignedBut, Tight, ColumnSigns, Tree, Slack, RowFeasible, Relaxed, Shifted,
        EntriesIn, BelowCap, UsedHaveRows, Square, Negated, AtColumn;
      ghost var d, way0, minv0, used0 := Duals(u[..], v[..], p[..], col), way[..], minv[..], used[..];
      RowOfColumn(cost, n, k, d, way0, minv0, used0, depth, j0);
      used[j0] := true;
      assert used[..] == used0[j0 := true];
      var i0 := p[j0];
      var delta, j := Scan(u, v, way, minv, used, j0, i0, p[..], col);
      ghost var way1, minv1 := way[..], minv[..];
      ghost var f := ScanFindsColumn(cost, n, k, d, way0, minv0, used0, depth, j0, lo, hi, way1, minv1);
      InverseOfGrowing(cost, n, k, d, used0, way0, minv0, depth, j0);
      Shift(u, v, p, minv, used, delta, k, col);
      ghost var d' := Duals(u[..], v[..], p[..], col);
      TurnKeepsAtColumn(cost, n, k, d, d', used0, depth, j0, j, delta, way0, minv0, way1, minv1, minv[..]);
      NewRowAbove(cost, n, k, d, d', used0, j0, j, delta, way0, minv0, depth, way1, minv1, lo, hi);
      assert Turns(cost, n, Grow(k, d, way0, minv0, used0, j0), Grow(k, d', way1, minv[..], used[..], j), minv1);
      depth' := Deeper(n, way0, depth, j0);
      j1 := j;
    }

    /** The first do-while loop of `solve`: grow the tree from column 0 until it reaches a column
        without a row. */
    method GrowTree(u: array<int>, v: array<int>, p: array<int>, way: array<int>, ghost k: nat,
                    ghost col: seq<int>, ghost lo: int, ghost hi: int, ghost ms: seq<Moment>)
      returns (j0: nat, ghost minv': seq<int>, ghost used': seq<bool>, ghost depth: seq<nat>, ghost ms': seq<Moment>)
      requires Valid() && k < n && EntriesIn(cost, -hi, -lo) && BelowCap(lo, hi)
      requires u.Length == v.Length == p.Length == way.Length == n + 1
      requires u != v && u != p && u != way && v != p && v != way && p != way
      requires |col| == n + 1 && Growing(cost, n, k, Duals(u[..], v[..], p[..], col)) && u[k + 1] == 0
      requires RunTo(cost, n, ms, Grow(k, Duals(u[..], v[..], p[..], col), way[..],
                                       seq(n + 1, _ => INF), seq(n + 1, _ => false), 0))
      modifies u, v, way
      ensures RunTo(cost, n, ms', Back(k, Duals(u[..], v[..], p[..], col), way[..], j0))
      ensures AtColumn(cost, n, k, Duals(u[..], v[..], p[..], col), way[..], minv', used', depth, j0)
      ensures 0 < j0 <= n && p[j0] == 0 && |used'| == |depth| == n + 1
    {
      hide Growing, EntriesIn, BelowCap, Square, Negated, AtColumn, Step, RunTo;
      j0 := 0;
      var minv := new int[n + 1](_ => INF);
      var used := new bool[n + 1](_ => false);
      depth, ms' := seq(n + 1, _ => 0), ms;
      assert minv[..] == seq(n + 1, _ => INF) && used[..] == seq(n + 1, _ => false);
      StandsAtDummy(cost, n, k, Duals(u[..], v[..], p[..], col), way[..], minv[..], used[..], depth);
      while true
        invariant 0 <= j0 <= n && !used[j0] && |depth| == n + 1
        invariant AtColumn(cost, n, k, Duals(u[..], v[..], p[..], col), way[..], minv[..], used[..], depth, j0)
        invariant p[j0] != 0 && (j0 != 0 ==> -hi <= u[k + 1])
        invariant RunTo(cost, n, ms', Grow(k, Duals(u[..], v[..], p[..], col), way[..], minv[..], used[..], j0))
        decreases n + 1 - |Trues(used[..])|
      {
        TruesGrow(used[..], j0);
        ghost var m := Grow(k, Duals(u[..], v[..], p[..], col), way[..], minv[..], used[..], j0);
        j0, depth := Turn(u, v, p, way, minv, used, j0, depth, k, col, lo, hi);
        ghost var m' := Grow(k, Duals(u[..], v[..], p[..], col), way[..], minv[..], used[..], j0);
        RunExtends(cost, n, ms', m, m');
        ms' := ms' + [m'];
        if p[j0] == 0 { break; }
      }
      minv', used' := minv[..], used[..];
      ms' := RunTurnsBack(cost, n, ms', Grow(k, Duals(u[..], v[..], p[..], col), way[..], minv', used', j0));
    }

    /** The second do-while loop of `solve`: shift the rows back along `way` to column 0. */
    method Augment(p: array<int>, way: array<int>, start: nat, ghost k: nat, ghost d0: Duals,
                   ghost used: seq<bool>, ghost depth: seq<nat>, ghost ms: seq<Moment>)
      returns (ghost col: seq<int>, ghost ms': seq<Moment>)
      requires Valid() && k < n && p != way && p.Length == way.Length == n + 1
      requires Sized(n, d0) && d0.p == p[..] && 0 < start <= n && |depth| == n + 1
      requires Walking(cost, n, k, d0, d0, way[..], used, depth, start)
      requires RunTo(cost, n, ms, Back(k, d0, way[..], start))
      modifies p
      ensures RunTo(cost, n, ms', Back(k, Duals(d0.u, d0.v, p[..], col), way[..], 0))
      ensures Walking(cost, n, k, d0, Duals(d0.u, d0.v, p[..], col), way[..], used, depth, 0)
    {
      hide Walking, Square, RunTo;
      col, ms' := d0.col, ms;
      var j0 := start;
      assert d0 == Duals(d0.u, d0.v, p[..], col);
      while true
        invariant 0 < j0 <= n && |depth| == n + 1
        invariant Walking(cost, n, k, d0, Duals(d0.u, d0.v, p[..], col), way[..], used, depth, j0)
        invariant RunTo(cost, n, ms', Back(k, Duals(d0.u, d0.v, p[..], col), way[..], j0))
        decreases depth[j0]
      {
        ghost var d := Duals(d0.u, d0.v, p[..], col);
        WalkSteps(cost, n, k, d0, d, way[..], used, depth, j0);
        ms' := RunMoves(cost, n, ms', Back(k, d, way[..], j0));
        var j1 := way[j0];
        p[j0] := p[j1];
        col := col[d.p[j1] := j0];
        assert p[..] == d.p[j0 := d.p[j1]];
        j0 := j1;
        if j0 == 0 { break; }
      }
    }

    /** One turn of the outer loop of `solve`: give row i = k + 1 a column. */
    method InsertRow(u: array<int>, v: array<int>, p: array<int>, way: array<int>, k: nat,
                     ghost col: seq<int>, ghost lo: int, ghost hi: int, ghost ms: seq<Moment>)
      returns (ghost col': seq<int>, ghost ms': seq<Moment>)
      requires Valid() && k < n && EntriesIn(cost, -hi, -lo) && BelowCap(lo, hi)
      requires u.Length == v.Length == p.Length == way.Length == n + 1
      requires u != v && u != p && u != way && v != p && v != way && p != way
      requires |col| == n + 1 && Partial(cost, n, k, Duals(u[..], v[..], p[..], col))
      requires u[0] == 0 && forall i :: k < i <= n ==> u[i] == 0
      requires RunTo(cost, n, ms, Begin(n, k, Duals(u[..], v[..], p[..], col), way[..]))
      modifies u, v, p, way
      ensures RunTo(cost, n, ms', Back(k, Duals(u[..], v[..], p[..], col'), way[..], 0))
      ensures |col'| == n + 1 && Partial(cost, n, k + 1, Duals(u[..], v[..], p[..], col'))
      ensures u[0] == 0 && forall i :: k + 1 < i <= n ==> u[i] == 0
      ensures PotentialsIn(n, k + 1, u[..], v[..], lo, hi)
    {
      hide Partial, Growing, Walking, AtColumn, EntriesIn, PotentialsIn, Square, Negated, BelowCap, Deeper, RunTo;
      ghost var d := Duals(u[..], v[..], p[..], col);
      StartsRow(cost, n, k, d);
      p[0] := k + 1;
      col' := col[k + 1 := 0];
      assert Duals(u[..], v[..], p[..], col') == d.(p := d.p[0 := k + 1], col := d.col[k + 1 := 0]);
      ghost var minv, used, depth;
      var j0: nat;
      j0, minv, used, depth, ms' := GrowTree(u, v, p, way, k, col', lo, hi, ms);
      ghost var d0 := Duals(u[..], v[..], p[..], col');
      WalkStarts(cost, n, k, d0, way[..], minv, used, depth, j0);
      ghost var used', depth' := used[j0 := true], Deeper(n, way[..], depth, j0);
      col', ms' := Augment(p, way, j0, k, d0, used', depth', ms');
      EndsRow(cost, n, k, d0, Duals(u[..], v[..], p[..], col'), way[..], minv, used, depth, j0,
              used', depth', lo, hi);
    }

    /** The outer loop of `solve`. The moments the two loops inside passed through are a run that
        ends here. */
    method InsertRows(u: array<int>, v: array<int>, p: array<int>, way: array<int>, ghost lo: int, ghost hi: int)
      returns (ghost d: Duals, ghost ms: seq<Moment>)
      requires Valid() && EntriesIn(cost, -hi, -lo) && BelowCap(lo, hi)
      requires u.Length == v.Length == p.Length == way.Length == n + 1
      requires u != v && u != p && u != way && v != p && v != way && p != way
      requires forall i :: 0 <= i <= n ==> u[i] == v[i] == p[i] == way[i] == 0
      modifies u, v, p, way
      ensures d.u == u[..] && d.v == v[..] && d.p == p[..]
      ensures Partial(cost, n, n, d) && d.u[0] == 0
      ensures PotentialsIn(n, n, d.u, d.v, lo, hi)
      ensures RunTo(cost, n, ms, Back(n - 1, d, way[..], 0))
    {
      hide Partial, EntriesIn, BelowCap, PotentialsIn, Square, Negated, RunTo, Begin;
      ghost var col := seq(n + 1, _ => 0);
      StartsEmpty(cost, n, Duals(u[..], v[..], p[..], col));
      ms := RunStarts(cost, n, Duals(u[..], v[..], p[..], col), way[..]);
      for i := 1 to n + 1
        invariant |col| == n + 1 && Partial(cost, n, i - 1, Duals(u[..], v[..], p[..], col))
        invariant u[0] == 0 && forall r :: i - 1 < r <= n ==> u[r] == 0
        invariant i > 1 ==> PotentialsIn(n, i - 1, u[..], v[..], lo, hi)
        invariant i <= n ==> RunTo(cost, n, ms, Begin(n, i - 1, Duals(u[..], v[..], p[..], col), way[..]))
        invariant i > n ==> RunTo(cost, n, ms, Back(n - 1, Duals(u[..], v[..], p[..], col), way[..], 0))
      {
        col, ms := InsertRow(u, v, p, way, i - 1, col, lo, hi, ms);
        if i < n {
          ms := RunBegins(cost, n, ms, Back(i - 1, Duals(u[..], v[..], p[..], col), way[..], 0));
        }
      }
      d := Duals(u[..], v[..], p[..], col);
    }

    /** The final loop of `solve`. */
    method TotalScore(a: seq<int>, ghost lo: int, ghost hi: int) returns (total: int)
      requires Valid() && Permutation(a, n) && EntriesIn(scores, lo, hi)
      ensures total == Total(scores, n, a)
      ensures n * lo <= total <= n * hi
    {
      ghost var picked := Picked(scores, n, a);
      total := 0;
      for i := 0 to n
        invariant total == Sum(picked[..i])
      {
        total := total - cost[i][a[i]];
        assert picked[..i + 1] == picked[..i] + [picked[i]];
        SumAppend(picked[..i], picked[i]);
      }
      assert picked[..n] == picked;
      SumBounded(picked, lo, hi);
    }

    /** The loop that turns columns' rows into rows' columns. */
    method ReadAssignment(p: array<int>, ghost d: Duals) returns (a: seq<int>)
      requires Valid() && p.Length == n + 1
      requires Partial(cost, n, n, d) && d.p == p[..]
      ensures a == RowColumns(n, d.col)
    {
      a := seq(n, _ => -1);
      for j := 1 to n + 1
        invariant |a| == n
        invariant forall i :: 1 <= i <= n && d.col[i] < j ==> a[i - 1] == d.col[i] - 1
      {
        if p[j] != 0 {
          a := a[p[j] - 1 := j - 1];
        }
      }
    }

    /** The returned ghost duals certify the result: the assignment is read off them and no
        assignment can score more than they price. */
    method Solve(ghost lo: int, ghost hi: int) returns (ghost d: Duals, ghost ms: seq<Moment>)
      requires Valid() && EntriesIn(scores, lo, hi) && BelowCap(lo, hi)
      modifies this`maxScore, this`assignment
      ensures BestAssignment(scores, n, assignment)
      ensures maxScore == Total(scores, n, assignment)
      ensures n * lo <= maxScore <= n * hi
      ensures Partial(cost, n, n, d) && RowColumns(n, d.col) == assignment
      ensures d.v[0] == maxScore
      ensures PotentialsIn(n, n, d.u, d.v, lo, hi)
      ensures Run(cost, n, ms) && Finished(n, ms[|ms| - 1]) && ms[|ms| - 1].d == d
    {
      hide Partial, EntriesIn, BelowCap, PotentialsIn, Square, Negated, CheapestInjection, BestAssignment,
        Injection, Total, RowColumns, RunTo, Run, Begin;
      var u := new int[n + 1](_ => 0);
      var v := new int[n + 1](_ => 0);
      var p := new int[n + 1](_ => 0);
      var way := new int[n + 1](_ => 0);
      NegatedEntries(cost, scores, n, lo, hi);
      d, ms := InsertRows(u, v, p, way, lo, hi);
      assignment := ReadAssignment(p, d);
      PartialIsCheapest(cost, n, n, d);
      CheapestIsBest(cost, scores, n, assignment);
      maxScore := TotalScore(assignment, lo, hi);
      RunToEnds(cost, n, ms, Back(n - 1, d, way[..], 0));
    }
  }
}
