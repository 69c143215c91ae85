/** src/hungarian.cpp's `solve` as runs of single turns, and the exact range of scores for which no
    run loses its way. */
module HungarianRuns {
  import opened Sequences
  import opened Assignment
  import opened HungarianTree

  /** The head of one of the two do-while loops of `solve`, on row k + 1. Grow: column j is next to
      be used. Back: column j is next to take the row of column way[j]. */
  datatype Moment =
    | Grow(k: nat, d: Duals, way: seq<int>, minv: seq<int>, used: seq<bool>, j: int)
    | Back(k: nat, d: Duals, way: seq<int>, j: int)

  ghost predicate Fits(n: nat, m: Moment) {
    && m.k < n && Sized(n, m.d) && |m.way| == n + 1 && 0 <= m.j <= n
    && (m.Grow? ==> |m.minv| == |m.used| == n + 1)
  }

  /** The least slack of the unused columns is at j1, and at no earlier one, and is below INF. */
  ghost predicate FirstLeast(n: nat, used: seq<bool>, minv: seq<int>, j1: int)
    requires |used| == |minv| == n + 1
  {
    && 1 <= j1 <= n && !used[j1] && minv[j1] < INF
    && (forall j :: 1 <= j <= n && !used[j] ==> minv[j1] <= minv[j])
    && (forall j :: 1 <= j < j1 && !used[j] ==> minv[j1] < minv[j])
  }

  /** One turn of the first do-while loop; `scanned` is minv between its two for loops. */
  ghost predicate Turns(c: Matrix, n: nat, m: Moment, m': Moment, scanned: seq<int>)
    requires Square(c, n)
  {
    && m.Grow? && m'.Grow? && Fits(n, m) && Fits(n, m') && |scanned| == n + 1 && m'.k == m.k
    && 1 <= m.d.p[m.j] <= n && m'.used == m.used[m.j := true]
    && Relaxed(c, n, m.d, m'.used, m.j, m.d.p[m.j], m.way, m.minv, m'.way, scanned)
    && FirstLeast(n, m'.used, scanned, m'.j)
    && Shifted(n, m.k, m.d, m'.d, m'.used, scanned[m'.j])
    && (forall j :: 0 <= j <= n ==> m'.minv[j] == scanned[j] - if m'.used[j] then 0 else scanned[m'.j])
  }

  /** Row k + 1 enters the dummy column and its tree begins. */
  function Begin(n: nat, k: nat, d: Duals, way: seq<int>): Moment
    requires Sized(n, d) && k < n
  {
    Grow(k, d.(p := d.p[0 := k + 1], col := d.col[k + 1 := 0]), way,
         seq(n + 1, _ => INF), seq(n + 1, _ => false), 0)
  }

  function Start(n: nat): Moment
    requires n > 0
  {
    var zeros := seq(n + 1, _ => 0);
    Begin(n, 0, Duals(zeros, zeros, zeros, zeros), zeros)
  }

  /** Column h takes the row of column h'. */
  function Move(d: Duals, h: int, h': int): Duals
    requires 0 <= h < |d.p| && 0 <= h' < |d.p| && 0 <= d.p[h'] < |d.col|
  {
    d.(p := d.p[h := d.p[h']], col := d.col[d.p[h'] := h])
  }

  ghost predicate Step(c: Matrix, n: nat, m: Moment, m': Moment)
    requires Square(c, n)
  {
    && Fits(n, m)
    && match m
       case Grow(k, d, way, minv, used, j) =>
         if j != 0 && d.p[j] == 0 then m' == Back(k, d, way, j)
         else exists scanned :: Turns(c, n, m, m', scanned)
       case Back(k, d, way, j) =>
         if j != 0 then
           0 <= way[j] <= n && 0 <= d.p[way[j]] <= n && m' == Back(k, Move(d, j, way[j]), way, way[j])
         else
           k + 1 < n && m' == Begin(n, k + 1, d, way)
  }

  /** The moments `solve` goes through, up to some point. */
  ghost predicate Run(c: Matrix, n: nat, ms: seq<Moment>)
    requires Square(c, n)
  {
    && n > 0 && ms != [] && ms[0] == Start(n)
    && forall i :: 0 <= i < |ms| - 1 ==> Step(c, n, ms[i], ms[i + 1])
  }

  ghost predicate RunTo(c: Matrix, n: nat, ms: seq<Moment>, m: Moment)
    requires Square(c, n)
  {
    Run(c, n, ms) && ms[|ms| - 1] == m
  }

  lemma RunExtends(c: Matrix, n: nat, ms: seq<Moment>, m: Moment, m': Moment)
    requires Square(c, n) && RunTo(c, n, ms, m) && Step(c, n, m, m')
    ensures RunTo(c, n, ms + [m'], m')
  {
    hide Step;
    var ms' := ms + [m'];
    forall i | 0 <= i < |ms'| - 1 ensures Step(c, n, ms'[i], ms'[i + 1]) {
      assert i < |ms| - 1 ==> Step(c, n, ms[i], ms[i + 1]);
    }
  }

  lemma RunStarts(c: Matrix, n: nat, d: Duals, way: seq<int>) returns (ms: seq<Moment>)
    requires Square(c, n) && n > 0 && Sized(n, d) && |way| == n + 1
    requires forall i :: 0 <= i <= n ==> d.u[i] == d.v[i] == d.p[i] == d.col[i] == way[i] == 0
    ensures RunTo(c, n, ms, Begin(n, 0, d, way))
  {
    var zeros := seq(n + 1, _ => 0);
    assert d == Duals(zeros, zeros, zeros, zeros) && way == zeros;
    ms := [Start(n)];
  }

  lemma RunTurnsBack(c: Matrix, n: nat, ms: seq<Moment>, m: Moment) returns (ms': seq<Moment>)
    requires Square(c, n) && RunTo(c, n, ms, m) && Fits(n, m) && m.Grow? && m.j != 0 && m.d.p[m.j] == 0
    ensures RunTo(c, n, ms', Back(m.k, m.d, m.way, m.j))
  {
    hide Run;
    RunExtends(c, n, ms, m, Back(m.k, m.d, m.way, m.j));
    ms' := ms + [Back(m.k, m.d, m.way, m.j)];
  }

  lemma RunMoves(c: Matrix, n: nat, ms: seq<Moment>, m: Moment) returns (ms': seq<Moment>)
    requires Square(c, n) && RunTo(c, n, ms, m) && Fits(n, m) && m.Back? && m.j != 0
    requires 0 <= m.way[m.j] <= n && 0 <= m.d.p[m.way[m.j]] <= n
    ensures RunTo(c, n, ms', Back(m.k, Move(m.d, m.j, m.way[m.j]), m.way, m.way[m.j]))
  {
    hide Run;
    var m' := Back(m.k, Move(m.d, m.j, m.way[m.j]), m.way, m.way[m.j]);
    RunExtends(c, n, ms, m, m');
    ms' := ms + [m'];
  }

  lemma RunBegins(c: Matrix, n: nat, ms: seq<Moment>, m: Moment) returns (ms': seq<Moment>)
    requires Square(c, n) && RunTo(c, n, ms, m) && Fits(n, m) && m.Back? && m.j == 0 && m.k + 1 < n
    ensures RunTo(c, n, ms', Begin(n, m.k + 1, m.d, m.way))
  {
    hide Run, Begin;
    RunExtends(c, n, ms, m, Begin(n, m.k + 1, m.d, m.way));
    ms' := ms + [Begin(n, m.k + 1, m.d, m.way)];
  }

  lemma RunToEnds(c: Matrix, n: nat, ms: seq<Moment>, m: Moment)
    requires Square(c, n) && RunTo(c, n, ms, m)
    ensures Run(c, n, ms) && ms != [] && ms[|ms| - 1] == m
  {
  }

  /** The scan finds every unused column's slack at INF or above, which leaves j1 at -1. */
  ghost predicate Stuck(c: Matrix, n: nat, m: Moment)
    requires Square(c, n)
  {
    && m.Grow? && Fits(n, m) && 1 <= m.d.p[m.j] <= n
    && forall j :: 1 <= j <= n && j != m.j && !m.used[j] ==>
         m.minv[j] >= INF && Reduced(c, n, m.d.u, m.d.v, m.d.p[m.j], j) >= INF
  }

  ghost predicate GoesBack(c: Matrix, n: nat, k: nat, start: Duals, d: Duals, way: seq<int>,
                           used: seq<bool>, depth: seq<nat>, j: int)
    requires Square(c, n) && k < n
  {
    && Growing(c, n, k, start) && RowFeasible(c, n, start.u, start.v, k + 1)
    && Walking(c, n, k, start, d, way, used, depth, j)
  }

  /** What holds at every moment. */
  ghost predicate Sound(c: Matrix, n: nat, hi: int, m: Moment)
    requires Square(c, n)
  {
    && Fits(n, m)
    && match m
       case Grow(k, d, way, minv, used, j) =>
         && (j != 0 ==> -hi <= d.u[k + 1])
         && exists depth :: AtColumn(c, n, k, d, way, minv, used, depth, j)
       case Back(k, d, way, j) =>
         exists start, used, depth :: GoesBack(c, n, k, start, d, way, used, depth, j)
  }

  lemma BeginsSound(c: Matrix, n: nat, k: nat, d: Duals, way: seq<int>, hi: int)
    requires Square(c, n) && k < n && Partial(c, n, k, d) && |way| == n + 1
    requires d.u[0] == 0 && forall i :: k < i <= n ==> d.u[i] == 0
    ensures Sound(c, n, hi, Begin(n, k, d, way))
  {
    StartsRow(c, n, k, d);
    hide Partial, Growing, AtColumn;
    var m := Begin(n, k, d, way);
    StandsAtDummy(c, n, k, m.d, way, m.minv, m.used, seq(n + 1, _ => 0));
  }

  lemma StartsSound(c: Matrix, n: nat, hi: int)
    requires Square(c, n) && n > 0
    ensures Sound(c, n, hi, Start(n))
  {
    var zeros := seq(n + 1, _ => 0);
    StartsEmpty(c, n, Duals(zeros, zeros, zeros, zeros));
    BeginsSound(c, n, 0, Duals(zeros, zeros, zeros, zeros), zeros, hi);
  }

  lemma TurnKeepsSound(c: Matrix, n: nat, lo: int, hi: int, m: Moment, m': Moment, scanned: seq<int>)
    requires Square(c, n) && EntriesIn(c, -hi, -lo) && BelowCap(lo, hi)
    requires Sound(c, n, hi, m) && Turns(c, n, m, m', scanned)
    ensures Sound(c, n, hi, m')
  {
    hide AtColumn, Relaxed, Shifted, EntriesIn, BelowCap;
    var depth :| AtColumn(c, n, m.k, m.d, m.way, m.minv, m.used, depth, m.j);
    var f := ScanFindsColumn(c, n, m.k, m.d, m.way, m.minv, m.used, depth, m.j, lo, hi, m'.way, scanned);
    TurnKeepsAtColumn(c, n, m.k, m.d, m'.d, m.used, depth, m.j, m'.j, scanned[m'.j], m.way, m.minv,
                      m'.way, scanned, m'.minv);
    NewRowAbove(c, n, m.k, m.d, m'.d, m.used, m.j, m'.j, scanned[m'.j], m.way, m.minv, depth,
                m'.way, scanned, lo, hi);
  }

  lemma TurnToBackSound(c: Matrix, n: nat, hi: int, m: Moment)
    requires Square(c, n) && m.Grow? && Sound(c, n, hi, m) && m.j != 0 && m.d.p[m.j] == 0
    ensures Sound(c, n, hi, Back(m.k, m.d, m.way, m.j))
  {
    hide Walking, Growing, Tree, Slack, RowFeasible;
    var depth :| AtColumn(c, n, m.k, m.d, m.way, m.minv, m.used, depth, m.j);
    WalkStarts(c, n, m.k, m.d, m.way, m.minv, m.used, depth, m.j);
    assert GoesBack(c, n, m.k, m.d, m.d, m.way, m.used[m.j := true], Deeper(n, m.way, depth, m.j), m.j);
  }

  lemma MoveKeepsSound(c: Matrix, n: nat, hi: int, m: Moment)
    requires Square(c, n) && m.Back? && Sound(c, n, hi, m) && m.j != 0
    ensures 0 <= m.way[m.j] <= n && 1 <= m.d.p[m.way[m.j]] <= n
    ensures Sound(c, n, hi, Back(m.k, Move(m.d, m.j, m.way[m.j]), m.way, m.way[m.j]))
  {
    hide Walking, RowFeasible, Feasible, Tight, AssignedBut, ColumnSigns, Sum;
    var start, used, depth :| GoesBack(c, n, m.k, start, m.d, m.way, used, depth, m.j);
    WalkSteps(c, n, m.k, start, m.d, m.way, used, depth, m.j);
    assert GoesBack(c, n, m.k, start, Move(m.d, m.j, m.way[m.j]), m.way, used, depth, m.way[m.j]);
  }

  /** Back at column 0, one more row has a column. */
  lemma BackAtDummy(c: Matrix, n: nat, hi: int, m: Moment)
    requires Square(c, n) && m.Back? && Sound(c, n, hi, m) && m.j == 0
    ensures Partial(c, n, m.k + 1, m.d)
    ensures m.d.u[0] == 0 && forall i :: m.k + 1 < i <= n ==> m.d.u[i] == 0
  {
    hide Tree, RowFeasible, Feasible, Tight, AssignedBut, ColumnSigns, Sum;
    var start, used, depth :| GoesBack(c, n, m.k, start, m.d, m.way, used, depth, m.j);
    WalkEnds(c, n, m.k, start, m.d, m.way, used, depth);
  }

  lemma StepKeepsSound(c: Matrix, n: nat, lo: int, hi: int, m: Moment, m': Moment)
    requires Square(c, n) && EntriesIn(c, -hi, -lo) && BelowCap(lo, hi)
    requires Sound(c, n, hi, m) && Step(c, n, m, m')
    ensures Sound(c, n, hi, m')
  {
    hide Turns, Sound, EntriesIn, BelowCap, Partial, Begin;
    if m.Grow? {
      if m.j != 0 && m.d.p[m.j] == 0 {
        TurnToBackSound(c, n, hi, m);
      } else {
        var scanned :| Turns(c, n, m, m', scanned);
        TurnKeepsSound(c, n, lo, hi, m, m', scanned);
      }
    } else if m.j != 0 {
      MoveKeepsSound(c, n, hi, m);
    } else {
      BackAtDummy(c, n, hi, m);
      BeginsSound(c, n, m.k + 1, m.d, m.way, hi);
    }
  }

  /** Below the cap every moment of every run is sound. */
  lemma {:induction false} RunIsSound(c: Matrix, n: nat, lo: int, hi: int, ms: seq<Moment>, i: nat)
    requires Square(c, n) && EntriesIn(c, -hi, -lo) && BelowCap(lo, hi)
    requires Run(c, n, ms) && i < |ms|
    ensures Sound(c, n, hi, ms[i])
  {
    hide Step, Sound, EntriesIn, BelowCap, Start;
    if i == 0 {
      StartsSound(c, n, hi);
    } else {
      RunIsSound(c, n, lo, hi, ms, i - 1);
      assert Step(c, n, ms[i - 1], ms[i - 1 + 1]);
      StepKeepsSound(c, n, lo, hi, ms[i - 1], ms[i]);
    }
  }

  /** The scan of a stuck moment, carried out. */
  lemma StuckScan(c: Matrix, n: nat, m: Moment) returns (way': seq<int>, scanned: seq<int>)
    requires Square(c, n) && Stuck(c, n, m)
    ensures m.Grow? && Fits(n, m) && 1 <= m.d.p[m.j] <= n && |way'| == |scanned| == n + 1
    ensures Relaxed(c, n, m.d, m.used[m.j := true], m.j, m.d.p[m.j], m.way, m.minv, way', scanned)
    ensures forall j :: 1 <= j <= n && !m.used[m.j := true][j] ==> scanned[j] >= INF
  {
    var r, used' := m.d.p[m.j], m.used[m.j := true];
    way' := seq(n + 1, j requires 0 <= j <= n =>
      if j != 0 && !used'[j] && Reduced(c, n, m.d.u, m.d.v, r, j) < m.minv[j] then m.j else m.way[j]);
    scanned := seq(n + 1, j requires 0 <= j <= n =>
      if j != 0 && !used'[j] && Reduced(c, n, m.d.u, m.d.v, r, j) < m.minv[j]
      then Reduced(c, n, m.d.u, m.d.v, r, j) else m.minv[j]);
  }

  lemma SoundNotStuck(c: Matrix, n: nat, lo: int, hi: int, m: Moment)
    requires Square(c, n) && EntriesIn(c, -hi, -lo) && BelowCap(lo, hi) && Sound(c, n, hi, m)
    ensures !Stuck(c, n, m)
  {
    hide AtColumn, Relaxed, EntriesIn, BelowCap, Square, Stuck;
    if Stuck(c, n, m) {
      var way', scanned := StuckScan(c, n, m);
      var depth :| AtColumn(c, n, m.k, m.d, m.way, m.minv, m.used, depth, m.j);
      var f := ScanFindsColumn(c, n, m.k, m.d, m.way, m.minv, m.used, depth, m.j, lo, hi, way', scanned);
    }
  }

  /** No run over costs in [-hi, -lo] gets stuck. */
  ghost predicate NeverStuck(lo: int, hi: int) {
    forall n, c, ms :: n > 0 && Square(c, n) && EntriesIn(c, -hi, -lo) && Run(c, n, ms) ==>
      !Stuck(c, n, ms[|ms| - 1])
  }

  /** A run that has come to the end of the outer loop. */
  ghost predicate Finished(n: nat, m: Moment) {
    m.Back? && m.j == 0 && m.k + 1 == n
  }

  /** Where a run below the cap ends, p is a minimum-cost assignment and v[0] is minus its cost. */
  lemma FinishedIsCheapest(c: Matrix, n: nat, lo: int, hi: int, ms: seq<Moment>, m: Moment)
    requires Square(c, n) && EntriesIn(c, -hi, -lo) && BelowCap(lo, hi)
    requires RunTo(c, n, ms, m) && Finished(n, m)
    ensures Sized(n, m.d) && CheapestInjection(c, n, RowColumns(n, m.d.col))
    ensures m.d.v[0] == -Total(c, n, RowColumns(n, m.d.col))
  {
    RunIsSound(c, n, lo, hi, ms, |ms| - 1);
    BackAtDummy(c, n, hi, m);
    hide Run, RunTo, Sound, CheapestInjection, Total;
    PartialIsCheapest(c, n, n, m.d);
  }

  // ---- beyond the cap ----

  /** With a cost of INF or more, the only column of a 1 x 1 matrix is never reached. */
  lemma LowScoreStuck(lo: int, hi: int)
    requires lo <= hi && lo <= -INF
    ensures !NeverStuck(lo, hi)
  {
    var c := [[-lo]];
    assert Square(c, 1) && EntriesIn(c, -hi, -lo);
    assert RunTo(c, 1, [Start(1)], Start(1)) && Stuck(c, 1, Start(1));
  }

  lemma SumOfThree(x: int, y: int, z: int)
    ensures Sum([x, y, z]) == x + y + z
  {
    assert [x, y, z] == [x, y] + [z] && [x, y] == [x] + [y];
    SumAppend([x, y], z);
    SumAppend([x], y);
    SumAppend([], x);
    assert [x] == [] + [x];
  }

  function TwoRows(lo: int, hi: int): (c: Matrix)
    ensures Square(c, 2)
  {
    [[-hi, -lo], [-hi, -lo]]
  }

  /** Row 1 takes column 1; row 2 uses column 1 and stands there. */
  function WideRun(lo: int, hi: int): (ms: seq<Moment>)
    ensures |ms| == 6
  {
    var way, infs, none := [0, 0, 0], [INF, INF, INF], [false, false, false];
    var minv, used := [INF, 0, hi - lo], [true, false, false];
    [Grow(0, Duals([0, 0, 0], [0, 0, 0], [1, 0, 0], [0, 0, 0]), way, infs, none, 0),
     Grow(0, Duals([0, -hi, 0], [hi, 0, 0], [1, 0, 0], [0, 0, 0]), way, minv, used, 1),
     Back(0, Duals([0, -hi, 0], [hi, 0, 0], [1, 0, 0], [0, 0, 0]), way, 1),
     Back(0, Duals([0, -hi, 0], [hi, 0, 0], [1, 1, 0], [0, 1, 0]), way, 0),
     Grow(1, Duals([0, -hi, 0], [hi, 0, 0], [2, 1, 0], [0, 1, 0]), way, infs, none, 0),
     Grow(1, Duals([0, -hi, -hi], [2 * hi, 0, 0], [2, 1, 0], [0, 1, 0]), way, minv, used, 1)]
  }

  lemma FirstWideTurn(lo: int, hi: int)
    requires -INF < lo && hi - lo >= INF
    ensures Turns(TwoRows(lo, hi), 2, WideRun(lo, hi)[0], WideRun(lo, hi)[1], [INF, -hi, -lo])
  {
    hide Sum;
    SumOfThree(0, 0, 0);
    SumOfThree(0, -hi, 0);
    SumOfThree(hi, 0, 0);
  }

  lemma SecondWideTurn(lo: int, hi: int)
    requires -INF < lo && hi - lo >= INF
    ensures Turns(TwoRows(lo, hi), 2, WideRun(lo, hi)[4], WideRun(lo, hi)[5], [INF, -hi, -lo])
  {
    hide Sum;
    SumOfThree(0, -hi, 0);
    SumOfThree(hi, 0, 0);
    SumOfThree(0, -hi, -hi);
    SumOfThree(2 * hi, 0, 0);
  }

  lemma WideStart(lo: int, hi: int)
    ensures Start(2) == WideRun(lo, hi)[0]
    ensures Begin(2, 1, WideRun(lo, hi)[3].d, WideRun(lo, hi)[3].way) == WideRun(lo, hi)[4]
  {
    assert Start(2) == WideRun(lo, hi)[0];
  }

  lemma WideSteps(lo: int, hi: int)
    requires -INF < lo && hi - lo >= INF
    ensures var c, ms := TwoRows(lo, hi), WideRun(lo, hi);
            forall i :: 0 <= i < 5 ==> Step(c, 2, ms[i], ms[i + 1])
  {
    hide Turns, Start, Begin;
    FirstWideTurn(lo, hi);
    SecondWideTurn(lo, hi);
    WideStart(lo, hi);
    var c, ms := TwoRows(lo, hi), WideRun(lo, hi);
    assert Step(c, 2, ms[0], ms[1]) && Step(c, 2, ms[4], ms[5]);
    assert Step(c, 2, ms[1], ms[2]) && Step(c, 2, ms[2], ms[3]) && Step(c, 2, ms[3], ms[4]);
  }

  lemma WideEnd(lo: int, hi: int)
    requires -INF < lo && hi - lo >= INF
    ensures EntriesIn(TwoRows(lo, hi), -hi, -lo) && Stuck(TwoRows(lo, hi), 2, WideRun(lo, hi)[5])
  {
  }

  /** On [[hi, lo], [hi, lo]], row 2 uses column 1 and then finds column 2 at INF or above. */
  lemma WideRangeStuck(lo: int, hi: int)
    requires -INF < lo && hi - lo >= INF
    ensures !NeverStuck(lo, hi)
  {
    hide Step, WideRun, TwoRows, Stuck, EntriesIn, Start, Begin;
    var c, ms := TwoRows(lo, hi), WideRun(lo, hi);
    WideStart(lo, hi);
    WideSteps(lo, hi);
    WideEnd(lo, hi);
    assert Run(c, 2, ms) && Stuck(c, 2, ms[|ms| - 1]);
  }

  /** The cap is exact: over the scores in [lo, hi] no run gets stuck if and only if the range is
      below the cap. */
  lemma CapIsExact(lo: int, hi: int)
    requires lo <= hi
    ensures NeverStuck(lo, hi) <==> BelowCap(lo, hi)
  {
    if BelowCap(lo, hi) {
      forall n, c, ms | n > 0 && Square(c, n) && EntriesIn(c, -hi, -lo) && Run(c, n, ms)
        ensures !Stuck(c, n, ms[|ms| - 1])
      {
        RunIsSound(c, n, lo, hi, ms, |ms| - 1);
        SoundNotStuck(c, n, lo, hi, ms[|ms| - 1]);
      }
    } else if lo <= -INF {
      LowScoreStuck(lo, hi);
    } else {
      WideRangeStuck(lo, hi);
    }
  }
}
