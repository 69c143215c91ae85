/** Linear-programming duality for the assignment problem, in the form src/hungarian.cpp keeps it:
    rows 1..n and columns 1..n with potentials u and v, column 0 a dummy, costs 0-based. */
module Assignment {
  import opened Sequences

  type Matrix = seq<seq<int>>

  ghost predicate Square(c: Matrix, n: nat) {
    |c| == n && forall i :: 0 <= i < n ==> |c[i]| == n
  }

  ghost predicate EntriesIn(c: Matrix, lo: int, hi: int) {
    forall i, j :: 0 <= i < |c| && 0 <= j < |c[i]| ==> lo <= c[i][j] <= hi
  }

  /** The entries an assignment of the first |s| rows picks up, and their total. */
  function Picked(c: Matrix, n: nat, s: seq<int>): (r: seq<int>)
    requires |c| == n && |s| <= n && forall i :: 0 <= i < |s| ==> 0 <= s[i] < |c[i]|
    ensures |r| == |s| && forall i :: 0 <= i < |s| ==> r[i] == c[i][s[i]]
  {
    seq(|s|, i requires 0 <= i < |s| => c[i][s[i]])
  }

  function Total(c: Matrix, n: nat, s: seq<int>): int
    requires |c| == n && |s| <= n && forall i :: 0 <= i < |s| ==> 0 <= s[i] < |c[i]|
  {
    Sum(Picked(c, n, s))
  }

  /** Potentials, the row p[j] of each column (0 for none) and, its ghost inverse,
      the column col[i] of each row. */
  datatype Duals = Duals(u: seq<int>, v: seq<int>, p: seq<int>, col: seq<int>)

  ghost predicate Sized(n: nat, d: Duals) {
    |d.u| == |d.v| == |d.p| == |d.col| == n + 1
  }

  /** Reduced cost of row i and column j. */
  function Reduced(c: Matrix, n: nat, u: seq<int>, v: seq<int>, i: int, j: int): int
    requires |c| == n && 1 <= i <= n && 1 <= j <= |c[i - 1]| && |u| == n + 1 && j < |v|
  {
    c[i - 1][j - 1] - u[i] - v[j]
  }

  ghost predicate RowFeasible(c: Matrix, n: nat, u: seq<int>, v: seq<int>, i: int)
    requires Square(c, n) && 1 <= i <= n && |u| == |v| == n + 1
  {
    forall j :: 1 <= j <= n ==> Reduced(c, n, u, v, i, j) >= 0
  }

  /** No processed row is priced above a cost. */
  ghost predicate Feasible(c: Matrix, n: nat, k: nat, u: seq<int>, v: seq<int>)
    requires Square(c, n) && k <= n && |u| == |v| == n + 1
  {
    forall i, j :: 1 <= i <= k && 1 <= j <= n ==> Reduced(c, n, u, v, i, j) >= 0
  }

  /** Rows 1..k each have exactly one column, outside the hole h. */
  ghost predicate AssignedBut(n: nat, k: nat, p: seq<int>, col: seq<int>, h: int)
    requires |p| == |col| == n + 1 && k <= n
  {
    && (forall j :: 0 <= j <= n && j != h ==> 0 <= p[j] <= k && (p[j] != 0 ==> col[p[j]] == j))
    && (forall i :: 1 <= i <= k ==> 0 <= col[i] <= n && col[i] != h && p[col[i]] == i)
  }

  /** Assigned pairs meet their cost exactly. */
  ghost predicate Tight(c: Matrix, n: nat, k: nat, d: Duals)
    requires Square(c, n) && k <= n && Sized(n, d)
  {
    forall i :: 1 <= i <= k && 1 <= d.col[i] <= n ==> Reduced(c, n, d.u, d.v, i, d.col[i]) == 0
  }

  /** Column potentials never rise above zero, and stay zero on columns without a row. */
  ghost predicate ColumnSigns(n: nat, p: seq<int>, v: seq<int>, h: int)
    requires |p| == |v| == n + 1
  {
    forall j :: 1 <= j <= n ==> v[j] <= 0 && (p[j] == 0 && j != h ==> v[j] == 0)
  }

  /** What holds between rows: k rows assigned, optimally priced, nothing gained or lost. */
  ghost predicate Partial(c: Matrix, n: nat, k: nat, d: Duals)
    requires Square(c, n) && k <= n
  {
    && Sized(n, d)
    && Feasible(c, n, k, d.u, d.v)
    && AssignedBut(n, k, d.p, d.col, 0)
    && Tight(c, n, k, d)
    && ColumnSigns(n, d.p, d.v, 0)
    && Sum(d.u) + Sum(d.v) == 0
  }

  /** The assignment of the first k rows as 0-based columns. */
  function RowColumns(k: nat, col: seq<int>): (s: seq<int>)
    requires k < |col|
    ensures |s| == k && forall i :: 0 <= i < k ==> s[i] == col[i + 1] - 1
  {
    seq(k, i requires 0 <= i < k => col[i + 1] - 1)
  }

  /** A column has a row exactly when it is some row's column. */
  lemma ColumnTaken(n: nat, k: nat, p: seq<int>, col: seq<int>, j: int)
    requires |p| == |col| == n + 1 && k <= n && AssignedBut(n, k, p, col, 0) && 1 <= j <= n
    ensures p[j] != 0 <==> (j - 1) in RowColumns(k, col)
  {
    var s := RowColumns(k, col);
    if p[j] != 0 {
      assert s[p[j] - 1] == j - 1;
    }
    if i :| 0 <= i < k && s[i] == j - 1 {
      assert p[col[i + 1]] == i + 1;
    }
  }

  lemma RowColumnsInjective(c: Matrix, n: nat, k: nat, d: Duals)
    requires Square(c, n) && k <= n && Partial(c, n, k, d)
    ensures Injection(RowColumns(k, d.col), n)
    ensures forall j :: 1 <= j <= n ==> (d.p[j] != 0 <==> (j - 1) in RowColumns(k, d.col))
  {
    hide Feasible, Tight, ColumnSigns, Sum;
    forall j | 1 <= j <= n ensures d.p[j] != 0 <==> (j - 1) in RowColumns(k, d.col) {
      ColumnTaken(n, k, d.p, d.col, j);
    }
  }

  /** Weak duality: potentials that are feasible for the first k rows bound every assignment. */
  lemma WeakDuality(c: Matrix, n: nat, k: nat, u: seq<int>, v: seq<int>, s: seq<int>)
    requires Square(c, n) && k <= n && |u| == |v| == n + 1
    requires Feasible(c, n, k, u, v)
    requires forall j :: 1 <= j <= n ==> v[j] <= 0
    requires |s| == k && Injection(s, n)
    ensures Total(c, n, s) >= Sum(u[1..k + 1]) + Sum(v[1..])
  {
    hide Sum;
    var paid := Gather(v[1..], s);
    var priced := seq(k, i requires 0 <= i < k => u[i + 1] + v[s[i] + 1]);
    SumPlus(u[1..k + 1], paid, priced);
    forall i | 0 <= i < k ensures priced[i] <= Picked(c, n, s)[i] {
      assert Reduced(c, n, u, v, i + 1, s[i] + 1) >= 0;
    }
    SumMonotone(priced, Picked(c, n, s));
    SumGatherNonPositive(v[1..], s);
  }

  /** Strong duality: an assignment along tight pairs that uses every priced column meets the bound. */
  lemma StrongDuality(c: Matrix, n: nat, k: nat, u: seq<int>, v: seq<int>, s: seq<int>)
    requires Square(c, n) && k <= n && |u| == |v| == n + 1
    requires |s| == k && Injection(s, n)
    requires forall i :: 0 <= i < k ==> c[i][s[i]] == u[i + 1] + v[s[i] + 1]
    requires forall j :: 0 <= j < n && j !in s ==> v[j + 1] == 0
    ensures Total(c, n, s) == Sum(u[1..k + 1]) + Sum(v[1..])
  {
    var paid := Gather(v[1..], s);
    SumPlus(u[1..k + 1], paid, Picked(c, n, s));
    SumGatherSupport(v[1..], s);
  }

  /** Tight pairs and zero-priced free columns, read off the invariant. */
  lemma PartialIsTight(c: Matrix, n: nat, k: nat, d: Duals)
    requires Square(c, n) && k <= n && Sized(n, d)
    requires AssignedBut(n, k, d.p, d.col, 0) && Tight(c, n, k, d)
    ensures var s := RowColumns(k, d.col);
            forall i :: 0 <= i < k ==> 0 <= s[i] < n && c[i][s[i]] == d.u[i + 1] + d.v[s[i] + 1]
  {
  }

  lemma FreeIsUnpriced(n: nat, s: seq<int>, p: seq<int>, v: seq<int>)
    requires |p| == |v| == n + 1 && ColumnSigns(n, p, v, 0)
    requires forall j :: 1 <= j <= n ==> (p[j] != 0 <==> (j - 1) in s)
    ensures forall j :: 0 <= j < n && j !in s ==> v[j + 1] == 0
  {
  }

  /** s is a cheapest way to give the first |s| rows distinct columns. */
  ghost predicate CheapestInjection(c: Matrix, n: nat, s: seq<int>)
    requires Square(c, n)
  {
    && |s| <= n && Injection(s, n)
    && forall t :: |t| == |s| && Injection(t, n) ==> Total(c, n, s) <= Total(c, n, t)
  }

  /** The dummy column balances the prices of the processed rows and the real columns. */
  lemma DummyBalances(n: nat, k: nat, u: seq<int>, v: seq<int>)
    requires k <= n && |u| == |v| == n + 1 && Sum(u) + Sum(v) == 0
    requires u[0] == 0 && forall i :: k < i <= n ==> u[i] == 0
    ensures v[0] == -(Sum(u[1..k + 1]) + Sum(v[1..]))
  {
    assert u == (u[..1] + u[1..k + 1]) + u[k + 1..];
    SumConcat(u[..1] + u[1..k + 1], u[k + 1..]);
    SumConcat(u[..1], u[1..k + 1]);
    SumZero(u[..1]);
    SumZero(u[k + 1..]);
    assert v == [v[0]] + v[1..];
    SumConcat([v[0]], v[1..]);
    assert [v[0]] == [] + [v[0]];
    SumAppend([], v[0]);
  }

  /** An assignment that meets the dual bound is a cheapest one. */
  lemma MeetingTheBound(c: Matrix, n: nat, k: nat, u: seq<int>, v: seq<int>, s: seq<int>)
    requires Square(c, n) && k <= n && |u| == |v| == n + 1
    requires Feasible(c, n, k, u, v) && forall j :: 1 <= j <= n ==> v[j] <= 0
    requires |s| == k && Injection(s, n)
    requires Total(c, n, s) == Sum(u[1..k + 1]) + Sum(v[1..])
    ensures CheapestInjection(c, n, s)
  {
    forall t | |t| == k && Injection(t, n) ensures Total(c, n, s) <= Total(c, n, t) {
      WeakDuality(c, n, k, u, v, t);
    }
  }

  /** After k rows the assignment is a minimum-cost injection of those rows, and the dummy
      column's potential is minus its cost. */
  lemma PartialIsCheapest(c: Matrix, n: nat, k: nat, d: Duals)
    requires Square(c, n) && k <= n && Partial(c, n, k, d)
    requires d.u[0] == 0 && forall i :: k < i <= n ==> d.u[i] == 0
    ensures Injection(RowColumns(k, d.col), n)
    ensures CheapestInjection(c, n, RowColumns(k, d.col))
    ensures d.v[0] == -Total(c, n, RowColumns(k, d.col))
  {
    hide Feasible, AssignedBut, Tight, RowColumns, Injection, CheapestInjection, Total;
    RowColumnsInjective(c, n, k, d);
    PartialIsTight(c, n, k, d);
    FreeIsUnpriced(n, RowColumns(k, d.col), d.p, d.v);
    DummyBalances(n, k, d.u, d.v);
    StrongDuality(c, n, k, d.u, d.v, RowColumns(k, d.col));
    MeetingTheBound(c, n, k, d.u, d.v, RowColumns(k, d.col));
  }

  /** Below n rows some column is still free. */
  lemma FreeColumn(c: Matrix, n: nat, k: nat, d: Duals) returns (f: nat)
    requires Square(c, n) && k < n && Partial(c, n, k, d)
    ensures 1 <= f <= n && d.p[f] == 0 && d.v[f] == 0
  {
    RowColumnsInjective(c, n, k, d);
    hide Feasible, AssignedBut, Tight, RowColumns, Injection;
    Pigeonhole(RowColumns(k, d.col), n);
    var x :| 0 <= x < n && x !in RowColumns(k, d.col);
    f := x + 1;
    assert d.p[f] == 0;
  }

  /** The potentials never leave the range of the costs, however many rows have been added. */
  lemma PotentialBounds(c: Matrix, n: nat, k: nat, d: Duals, lo: int, hi: int)
    requires Square(c, n) && k < n && Partial(c, n, k, d) && EntriesIn(c, -hi, -lo)
    ensures forall i :: 1 <= i <= k ==> -hi <= d.u[i] <= -lo
    ensures forall j :: 1 <= j <= n ==> lo - hi <= d.v[j] <= 0
  {
    var f := FreeColumn(c, n, k, d);
    assert forall i :: 0 <= i < n ==> -hi <= c[i][f - 1] <= -lo;
    forall i | 1 <= i <= k ensures -hi <= d.u[i] <= -lo {
      assert Reduced(c, n, d.u, d.v, i, f) >= 0 && Reduced(c, n, d.u, d.v, i, d.col[i]) == 0;
    }
    forall j | 1 <= j <= n ensures lo - hi <= d.v[j] <= 0 {
      if d.p[j] != 0 {
        assert Reduced(c, n, d.u, d.v, d.p[j], d.col[d.p[j]]) == 0;
        assert -hi <= c[d.p[j] - 1][j - 1];
        assert -hi <= d.u[d.p[j]] <= -lo;
      } else {
        assert c[0][j - 1] <= -lo && -hi <= c[0][j - 1];
      }
    }
  }
}
