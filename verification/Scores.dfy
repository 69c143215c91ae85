/** main.cpp (and its twin in server/server.cpp): preference lists sorted by score, and what stable,
    partial and best matchings score against each other, for any number n of men and women. */
module Scores {
  import opened Sequences
  import SM = StableMatching
  import BM = BipartiteMatching
  import opened Assignment
  import H = Hungarian

  // ---- preference lists ----

  /** order lists the indices of key by falling value, ties in any order. */
  ghost predicate Descending(key: seq<int>, order: seq<int>) {
    && Permutation(order, |key|)
    && forall i, j :: 0 <= i < j < |order| ==> key[order[i]] >= key[order[j]]
  }

  /** order' is order with i put in at position k. */
  ghost predicate InsertedAt(order: seq<int>, order': seq<int>, i: int, k: nat) {
    && |order'| == |order| + 1 && k <= |order|
    && order'[k] == i
    && (forall x :: 0 <= x < k ==> order'[x] == order[x])
    && (forall x :: k < x < |order'| ==> order'[x] == order[x - 1])
  }

  lemma InsertKeepsInjection(order: seq<int>, order': seq<int>, i: nat, k: nat)
    requires |order| == i && Injection(order, i) && InsertedAt(order, order', i, k)
    ensures Injection(order', i + 1)
  {
  }

  /** i goes in front of the first entry with a smaller key. */
  lemma InsertKeepsFalling(key: seq<int>, order: seq<int>, order': seq<int>, i: nat, k: nat)
    requires i < |key| && |order| == i && Injection(order, i) && InsertedAt(order, order', i, k)
    requires forall x, y :: 0 <= x < y < i ==> key[order[x]] >= key[order[y]]
    requires k > 0 ==> key[order[k - 1]] >= key[i]
    requires forall x :: k <= x < i ==> key[order[x]] < key[i]
    ensures forall x :: 0 <= x < |order'| ==> 0 <= order'[x] < |key|
    ensures forall x, y :: 0 <= x < y < |order'| ==> key[order'[x]] >= key[order'[y]]
  {
  }

  /** Both at once, for i put in at position k of order. */
  lemma Insertion(key: seq<int>, order: seq<int>, i: nat, k: nat)
    requires i < |key| && |order| == i && Injection(order, i) && k <= i
    requires forall x, y :: 0 <= x < y < i ==> key[order[x]] >= key[order[y]]
    requires k > 0 ==> key[order[k - 1]] >= key[i]
    requires forall x :: k <= x < i ==> key[order[x]] < key[i]
    ensures var order' := order[..k] + [i] + order[k..];
            && |order'| == i + 1 && Injection(order', i + 1)
            && forall x, y :: 0 <= x < y < |order'| ==> key[order'[x]] >= key[order'[y]]
  {
    var order' := order[..k] + [i] + order[k..];
    assert InsertedAt(order, order', i, k);
    InsertKeepsInjection(order, order', i, k);
    InsertKeepsFalling(key, order, order', i, k);
  }

  /** std::iota followed by std::sort with a strict descending comparator. */
  method SortDescending(key: seq<int>) returns (order: seq<int>)
    ensures Descending(key, order)
  {
    order := [];
    for i := 0 to |key|
      invariant |order| == i && Injection(order, i)
      invariant forall x, y :: 0 <= x < y < i ==> key[order[x]] >= key[order[y]]
    {
      var k := i;
      while k > 0 && key[order[k - 1]] < key[i]
        invariant 0 <= k <= i
        invariant forall x :: k <= x < i ==> key[order[x]] < key[i]
      {
        k := k - 1;
      }
      Insertion(key, order, i, k);
      order := order[..k] + [i] + order[k..];
    }
  }

  function Column(c: Matrix, n: nat, w: nat): (r: seq<int>)
    requires Square(c, n) && w < n
    ensures |r| == n && forall m :: 0 <= m < n ==> r[m] == c[m][w]
  {
    seq(n, m requires 0 <= m < n => c[m][w])
  }

  ghost predicate MenSorted(c: Matrix, n: nat, prefs: SM.Prefs)
    requires Square(c, n)
  {
    |prefs| == n && forall m :: 0 <= m < n ==> Descending(c[m], prefs[m])
  }

  ghost predicate WomenSorted(c: Matrix, n: nat, prefs: SM.Prefs)
    requires Square(c, n)
  {
    |prefs| == n && forall w :: 0 <= w < n ==> Descending(Column(c, n, w), prefs[w])
  }

  method MenPrefs(c: Matrix, n: nat) returns (prefs: SM.Prefs)
    requires Square(c, n)
    ensures MenSorted(c, n, prefs) && SM.PreferenceLists(prefs, n)
  {
    prefs := [];
    for m := 0 to n
      invariant |prefs| == m && forall i :: 0 <= i < m ==> Descending(c[i], prefs[i])
    {
      var list := SortDescending(c[m]);
      prefs := prefs + [list];
    }
  }

  method WomenPrefs(c: Matrix, n: nat) returns (prefs: SM.Prefs)
    requires Square(c, n)
    ensures WomenSorted(c, n, prefs) && SM.PreferenceLists(prefs, n)
  {
    prefs := [];
    for w := 0 to n
      invariant |prefs| == w && forall i :: 0 <= i < w ==> Descending(Column(c, n, i), prefs[i])
    {
      var list := SortDescending(Column(c, n, w));
      prefs := prefs + [list];
    }
  }

  // ---- scores and counts ----

  /** What each man's pairing adds to the score; -1 adds nothing. */
  function Earned(c: Matrix, n: nat, m: seq<int>): (r: seq<int>)
    requires Square(c, n) && |m| == n && forall i :: 0 <= i < n ==> -1 <= m[i] < n
    ensures |r| == n && forall i :: 0 <= i < n ==> r[i] == if m[i] == -1 then 0 else c[i][m[i]]
  {
    seq(n, i requires 0 <= i < n => if m[i] == -1 then 0 else c[i][m[i]])
  }

  function ScoreOf(c: Matrix, n: nat, m: seq<int>): int
    requires Square(c, n) && |m| == n && forall i :: 0 <= i < n ==> -1 <= m[i] < n
  {
    Sum(Earned(c, n, m))
  }

  /** Nobody matched scores nothing, and every couple adds its own score, whoever else is unmatched. */
  lemma NobodyScores(c: Matrix, n: nat, m: seq<int>)
    requires Square(c, n) && |m| == n && forall i :: 0 <= i < n ==> m[i] == -1
    ensures ScoreOf(c, n, m) == 0
  {
    SumZero(Earned(c, n, m));
  }

  lemma CoupleAddsItsScore(c: Matrix, n: nat, m: seq<int>, a: nat, b: nat)
    requires Square(c, n) && |m| == n && forall i :: 0 <= i < n ==> -1 <= m[i] < n
    requires a < n && b < n && m[a] == -1
    ensures ScoreOf(c, n, m[a := b]) == ScoreOf(c, n, m) + c[a][b]
  {
    SumUpdate(Earned(c, n, m), a, c[a][b]);
    assert Earned(c, n, m[a := b]) == Earned(c, n, m)[a := c[a][b]];
  }

  /** The `score` lambda of `analysis`. */
  method Score(c: Matrix, n: nat, m: seq<int>) returns (t: int)
    requires Square(c, n) && |m| == n && forall i :: 0 <= i < n ==> -1 <= m[i] < n
    ensures t == ScoreOf(c, n, m)
  {
    t := 0;
    ghost var earned := Earned(c, n, m);
    for i := 0 to n
      invariant t == Sum(earned[..i])
    {
      if m[i] != -1 {
        t := t + c[i][m[i]];
      }
      assert earned[..i + 1] == earned[..i] + [earned[i]];
      SumAppend(earned[..i], earned[i]);
    }
    assert earned[..n] == earned;
  }

  lemma MatchedPrefix(m: seq<int>, i: nat)
    requires i < |m|
    ensures BM.Size(m[..i + 1]) == BM.Size(m[..i]) + if m[i] != -1 then 1 else 0
  {
    if m[i] != -1 {
      assert BM.Matched(m[..i + 1]) == BM.Matched(m[..i]) + {i as int};
    } else {
      assert BM.Matched(m[..i + 1]) == BM.Matched(m[..i]);
    }
  }

  /** The `count` lambda of `analysis`. */
  method Count(m: seq<int>) returns (k: nat)
    ensures k == BM.Size(m)
  {
    k := 0;
    assert BM.Matched(m[..0]) == {};
    for i := 0 to |m|
      invariant k == BM.Size(m[..i])
    {
      MatchedPrefix(m, i);
      if m[i] != -1 {
        k := k + 1;
      }
    }
    assert m[..|m|] == m;
  }

  /** A man and a woman who would both score strictly higher together than with their partners. */
  ghost predicate BothScoreHigher(c: Matrix, n: nat, m: seq<int>, a: int, b: int)
    requires Square(c, n) && Permutation(m, n) && 0 <= a < n && 0 <= b < n
    requires SM.PartnerOf(m, b) < n
  {
    c[a][b] > c[a][m[a]] && c[a][b] > c[SM.PartnerOf(m, b)][b]
  }

  /** With score-sorted lists, higher score means better rank, whatever the ties. */
  lemma HigherScoreBetterRank(key: seq<int>, list: seq<int>, x: int, y: int)
    requires Descending(key, list) && 0 <= x < |key| && 0 <= y < |key|
    ensures key[x] > key[y] ==> IndexOf(list, x) < IndexOf(list, y)
  {
    IndexOfPermutation(list, |key|, x);
    IndexOfPermutation(list, |key|, y);
  }

  /** A matching stable for score-sorted lists leaves no man and woman who both score higher together. */
  lemma StableInScores(c: Matrix, n: nat, prefA: SM.Prefs, prefB: SM.Prefs, m: seq<int>, a: int, b: int)
    requires Square(c, n) && MenSorted(c, n, prefA) && WomenSorted(c, n, prefB)
    requires SM.Stable(prefA, prefB, m) && 0 <= a < n && 0 <= b < n
    ensures SM.PartnerOf(m, b) < n && m[SM.PartnerOf(m, b)] == b
    ensures !BothScoreHigher(c, n, m, a, b)
  {
    IndexOfPermutation(m, n, b);
    assert !SM.Blocks(prefA, prefB, m, a, b);
    HigherScoreBetterRank(c[a], prefA[a], b, m[a]);
    HigherScoreBetterRank(Column(c, n, b), prefB[b], a, SM.PartnerOf(m, b));
  }

  ghost predicate NonNegative(c: Matrix) {
    forall i, j :: 0 <= i < |c| && 0 <= j < |c[i]| ==> c[i][j] >= 0
  }

  /** What each woman scores with her partner in m. */
  function WomanEarns(c: Matrix, n: nat, m: seq<int>): (f: seq<int>)
    requires Square(c, n) && forall b :: 0 <= b < n ==> SM.PartnerOf(m, b) < n
    ensures |f| == n && forall b :: 0 <= b < n ==> f[b] == c[SM.PartnerOf(m, b)][b]
  {
    seq(n, b requires 0 <= b < n => c[SM.PartnerOf(m, b)][b])
  }

  lemma WomenEarnTotal(c: Matrix, n: nat, m: seq<int>)
    requires Square(c, n) && Permutation(m, n)
    ensures forall b :: 0 <= b < n ==> SM.PartnerOf(m, b) < n
    ensures Sum(WomanEarns(c, n, m)) == Total(c, n, m)
  {
    hide Sum, IndexOf;
    forall b | 0 <= b < n ensures SM.PartnerOf(m, b) < n {
      IndexOfPermutation(m, n, b);
    }
    var f := WomanEarns(c, n, m);
    forall i | 0 <= i < n ensures f[m[i]] == c[i][m[i]] {
      IndexOfUnique(m, i);
    }
    SumGatherPermutation(f, m);
    assert Gather(f, m) == Picked(c, n, m);
  }

  /** If each entry of q is at most the sum of p's entry and the entry of f that t picks, and f is
      p rearranged, q sums to at most twice p: each man and each woman is charged once. */
  lemma ChargedTwice(p: seq<int>, q: seq<int>, f: seq<int>, t: seq<int>)
    requires |p| == |q| == |f| && Permutation(t, |f|) && Sum(f) == Sum(p)
    requires forall a :: 0 <= a < |q| ==> q[a] <= p[a] + f[t[a]]
    ensures Sum(q) <= 2 * Sum(p)
  {
    hide Sum;
    var women := Gather(f, t);
    SumGatherPermutation(f, t);
    hide Permutation, Injection;
    var bound := seq(|p|, i requires 0 <= i < |p| => p[i] + women[i]);
    SumPlus(p, women, bound);
    SumMonotone(q, bound);
  }

  /** Any couple scores no more than its man and its woman do, together, with their partners in m. */
  lemma EitherEarnsMore(c: Matrix, n: nat, prefA: SM.Prefs, prefB: SM.Prefs, m: seq<int>, a: int, b: int)
    requires Square(c, n) && NonNegative(c) && MenSorted(c, n, prefA) && WomenSorted(c, n, prefB)
    requires SM.Stable(prefA, prefB, m) && 0 <= a < n && 0 <= b < n
    ensures 0 <= m[a] < n && SM.PartnerOf(m, b) < n
    ensures c[a][b] <= c[a][m[a]] + c[SM.PartnerOf(m, b)][b]
  {
    StableInScores(c, n, prefA, prefB, m, a, b);
    hide MenSorted, WomenSorted, SM.Stable;
    assert c[a][m[a]] >= 0 && c[SM.PartnerOf(m, b)][b] >= 0;
  }

  /** A stable matching scores at least half of any assignment. */
  lemma StableIsHalfOptimal(c: Matrix, n: nat, prefA: SM.Prefs, prefB: SM.Prefs, m: seq<int>, t: seq<int>)
    requires Square(c, n) && NonNegative(c) && MenSorted(c, n, prefA) && WomenSorted(c, n, prefB)
    requires SM.Stable(prefA, prefB, m) && Permutation(t, n)
    ensures Total(c, n, t) <= 2 * Total(c, n, m)
  {
    hide Sum, IndexOf, Descending, NonNegative;
    WomenEarnTotal(c, n, m);
    forall a | 0 <= a < n
      ensures Picked(c, n, t)[a] <= Picked(c, n, m)[a] + WomanEarns(c, n, m)[t[a]]
    {
      EitherEarnsMore(c, n, prefA, prefB, m, a, t[a]);
    }
    hide SM.Stable;
    ChargedTwice(Picked(c, n, m), Picked(c, n, t), WomanEarns(c, n, m), t);
  }

  // ---- partial matchings ----

  /** -1 or a woman, no woman twice. */
  ghost predicate Partly(m: seq<int>, n: nat) {
    && |m| == n
    && (forall i :: 0 <= i < n ==> -1 <= m[i] < n)
    && (forall i, j :: 0 <= i < j < n && m[i] != -1 ==> m[i] != m[j])
  }

  /** n women cannot all be taken when a man is single. */
  lemma NotAllTaken(m: seq<int>, n: nat, a: int)
    requires |m| == n && 0 <= a < n && m[a] == -1
    ensures exists x :: 0 <= x < n && x !in m
  {
    hide IndexOf;
    if forall x :: 0 <= x < n ==> x in m {
      var holder := seq(n, x requires 0 <= x < n => IndexOf(m, x) as int);
      forall x | 0 <= x < n ensures 0 <= holder[x] < n && m[holder[x]] == x {
        assert x in m;
      }
      assert forall x :: 0 <= x < n ==> holder[x] != a;
      PermutationHits(holder, n, a);
    }
  }

  lemma UnusedWoman(m: seq<int>, n: nat, a: int) returns (b: int)
    requires Partly(m, n) && 0 <= a < n && m[a] == -1
    ensures 0 <= b < n && b !in m
  {
    NotAllTaken(m, n, a);
    b :| 0 <= b < n && b !in m;
  }

  /** Any partial matching can be completed to an assignment that keeps its couples. */
  lemma Complete(m: seq<int>, n: nat) returns (t: seq<int>)
    requires Partly(m, n)
    ensures Permutation(t, n) && forall i :: 0 <= i < n && m[i] != -1 ==> t[i] == m[i]
    decreases n - |BM.Matched(m)|
  {
    if a :| 0 <= a < n && m[a] == -1 {
      var b := UnusedWoman(m, n, a);
      var m' := m[a := b];
      assert BM.Matched(m') == BM.Matched(m) + {a};
      BM.SizeBounded(m');
      t := Complete(m', n);
    } else {
      t := m;
    }
  }

  /** The best assignment outscores every partial matching of a non-negative matrix. */
  lemma BestBeatsPartial(c: Matrix, n: nat, best: seq<int>, m: seq<int>)
    requires Square(c, n) && NonNegative(c) && H.BestAssignment(c, n, best) && Partly(m, n)
    ensures ScoreOf(c, n, m) <= Total(c, n, best)
  {
    var t := Complete(m, n);
    forall i | 0 <= i < n ensures Earned(c, n, m)[i] <= Picked(c, n, t)[i] {
      assert c[i][t[i]] >= 0;
    }
    SumMonotone(Earned(c, n, m), Picked(c, n, t));
  }

  lemma TotalIsScore(c: Matrix, n: nat, m: seq<int>)
    requires Square(c, n) && Permutation(m, n)
    ensures ScoreOf(c, n, m) == Total(c, n, m)
  {
    assert Earned(c, n, m) == Picked(c, n, m);
  }
}
