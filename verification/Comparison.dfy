/** main.cpp's runners and report: one score matrix through all four algorithms. */
module Comparison {
  import opened Sequences
  import opened Assignment
  import opened Scores
  import SM = StableMatching
  import GS = GaleShapley
  import BM = BipartiteMatching
  import HK = HopcroftKarp
  import L = Layers
  import AT = AlternatingTrees
  import BL = Blossom
  import HT = HungarianTree
  import H = Hungarian

  /** A partial matching whose couples all reach the threshold. */
  ghost predicate Compatible(c: Matrix, n: nat, t: int, m: seq<int>)
    requires Square(c, n)
  {
    Partly(m, n) && forall i :: 0 <= i < n && m[i] != -1 ==> c[i][m[i]] >= t
  }

  /** No compatible matching has more couples. */
  ghost predicate MostCouples(c: Matrix, n: nat, t: int, m: seq<int>)
    requires Square(c, n)
  {
    Compatible(c, n, t, m) && forall w :: Compatible(c, n, t, w) ==> BM.Size(w) <= BM.Size(m)
  }

  // ---- Hopcroft-Karp on the threshold edges ----

  /** Pairs the nested loops of the runners have been through, standing at (m, w). */
  ghost predicate Before(i: int, x: int, m: int, w: int) {
    i < m || (i == m && x < w)
  }

  ghost predicate EdgesUpTo(adj: BM.Adjacency, c: Matrix, n: nat, t: int, m: int, w: int)
    requires Square(c, n)
  {
    && |adj| == n
    && forall i, x :: 0 <= i < n ==>
         (x in adj[i] <==> 0 <= x < n && c[i][x] >= t && Before(i, x, m, w))
  }

  lemma NextEdge(adj: BM.Adjacency, c: Matrix, n: nat, t: int, m: nat, w: nat)
    requires Square(c, n) && m < n && w < n && EdgesUpTo(adj, c, n, t, m, w)
    ensures c[m][w] >= t ==> EdgesUpTo(adj[m := adj[m] + [w]], c, n, t, m, w + 1)
    ensures c[m][w] < t ==> EdgesUpTo(adj, c, n, t, m, w + 1)
  {
  }

  lemma NextRow(adj: BM.Adjacency, c: Matrix, n: nat, t: int, m: nat)
    requires Square(c, n) && m < n && EdgesUpTo(adj, c, n, t, m, n)
    ensures EdgesUpTo(adj, c, n, t, m + 1, 0)
  {
  }

  lemma MatchingsAreCompatible(adj: BM.Adjacency, c: Matrix, n: nat, t: int, m: seq<int>)
    requires Square(c, n) && EdgesUpTo(adj, c, n, t, n, 0)
    ensures BM.IsMatching(adj, m) && (forall i :: 0 <= i < n ==> m[i] >= -1) <==> Compatible(c, n, t, m)
  {
  }

  lemma NoEdges(adj: BM.Adjacency, c: Matrix, n: nat, t: int)
    requires Square(c, n) && |adj| == n && forall i :: 0 <= i < n ==> adj[i] == []
    ensures EdgesUpTo(adj, c, n, t, 0, 0)
  {
  }

  lemma MaximumIsMostCouples(adj: BM.Adjacency, c: Matrix, n: nat, t: int, m: seq<int>, mr: seq<int>)
    requires Square(c, n) && EdgesUpTo(adj, c, n, t, n, 0)
    requires BM.Consistent(adj, n, m, mr) && forall w :: BM.IsMatching(adj, w) ==> BM.Size(w) <= BM.Size(m)
    ensures MostCouples(c, n, t, m)
  {
  }

  method RunHopcroftKarp(c: Matrix, n: nat, t: int) returns (matchM: seq<int>)
    requires Square(c, n) && n < L.INF
    ensures MostCouples(c, n, t, matchM)
  {
    hide EdgesUpTo, Compatible, BM.IsMatching;
    var hk := new HK.HopcroftKarp(n, n);
    NoEdges(hk.adj, c, n, t);
    for m := 0 to n
      invariant hk.Valid() && fresh(hk) && EdgesUpTo(hk.adj, c, n, t, m, 0)
    {
      for w := 0 to n
        invariant hk.Valid() && EdgesUpTo(hk.adj, c, n, t, m, w)
      {
        NextEdge(hk.adj, c, n, t, m, w);
        if c[m][w] >= t {
          hk.AddCompatiblePair(m, w);
        }
      }
      NextRow(hk.adj, c, n, t, m);
    }
    var couples;
    ghost var phases;
    couples, phases := hk.MaxMatching();
    matchM := hk.matchLeft;
    MaximumIsMostCouples(hk.adj, c, n, t, matchM, hk.matchRight);
  }

  // ---- Blossom on men 0..n-1 and women n..2n-1 ----

  /** The encoded edge: one end is a man, the other a woman, and their score reaches t. */
  ghost predicate Meets(c: Matrix, n: nat, t: int, m: int, w: int, v: int, x: int)
    requires Square(c, n)
  {
    || (0 <= v < n && n <= x < 2 * n && c[v][x - n] >= t && Before(v, x - n, m, w))
    || (n <= v < 2 * n && 0 <= x < n && c[x][v - n] >= t && Before(x, v - n, m, w))
  }

  ghost predicate EncodedUpTo(adj: AT.Graph, c: Matrix, n: nat, t: int, m: int, w: int)
    requires Square(c, n)
  {
    && |adj| == 2 * n
    && forall v, x :: 0 <= v < 2 * n ==> (x in adj[v] <==> Meets(c, n, t, m, w, v, x))
  }

  lemma NextEncoded(adj: AT.Graph, c: Matrix, n: nat, t: int, m: nat, w: nat)
    requires Square(c, n) && m < n && w < n && EncodedUpTo(adj, c, n, t, m, w)
    ensures c[m][w] >= t ==>
              EncodedUpTo(adj[m := adj[m] + [n + w]][n + w := adj[n + w] + [m]], c, n, t, m, w + 1)
    ensures c[m][w] < t ==> EncodedUpTo(adj, c, n, t, m, w + 1)
  {
  }

  lemma NextEncodedRow(adj: AT.Graph, c: Matrix, n: nat, t: int, m: nat)
    requires Square(c, n) && m < n && EncodedUpTo(adj, c, n, t, m, n)
    ensures EncodedUpTo(adj, c, n, t, m + 1, 0)
  {
  }

  lemma NoEncoded(adj: AT.Graph, c: Matrix, n: nat, t: int)
    requires Square(c, n) && |adj| == 2 * n && forall v :: 0 <= v < 2 * n ==> adj[v] == []
    ensures EncodedUpTo(adj, c, n, t, 0, 0)
  {
  }

  /** Men are one colour, women the other. */
  function IsMan(n: nat): (colour: seq<bool>)
    ensures |colour| == 2 * n && forall v :: 0 <= v < 2 * n ==> colour[v] == (v < n)
  {
    seq(2 * n, v => v < n)
  }

  lemma EncodingIsTwoColoured(adj: AT.Graph, c: Matrix, n: nat, t: int)
    requires Square(c, n) && EncodedUpTo(adj, c, n, t, n, 0)
    ensures AT.TwoColoured(adj, IsMan(n))
  {
    forall v, i | 0 <= v < |adj| && 0 <= i < |adj[v]| && 0 <= adj[v][i] < |adj|
      ensures IsMan(n)[v] != IsMan(n)[adj[v][i]]
    {
      assert adj[v][i] in adj[v];
    }
  }

  /** The index translation of runBlossom. */
  function WomenOf(n: nat, raw: seq<int>): (m: seq<int>)
    requires |raw| == 2 * n
    ensures |m| == n && forall i :: 0 <= i < n ==> m[i] == if raw[i] == -1 then -1 else raw[i] - n
  {
    seq(n, i requires 0 <= i < n => if raw[i] == -1 then -1 else raw[i] - n)
  }

  lemma WomenOfIsCompatible(adj: AT.Graph, c: Matrix, n: nat, t: int, raw: seq<int>)
    requires Square(c, n) && EncodedUpTo(adj, c, n, t, n, 0) && AT.Coupling(adj, raw)
    ensures Compatible(c, n, t, WomenOf(n, raw))
    ensures BM.Size(WomenOf(n, raw)) == |AT.Coloured(raw, IsMan(n))|
  {
    var m := WomenOf(n, raw);
    forall i | 0 <= i < n && raw[i] != -1
      ensures n <= raw[i] < 2 * n && raw[raw[i]] == i && c[i][raw[i] - n] >= t
    {
      assert AT.Coupled(adj, raw, i);
      assert Meets(c, n, t, n, 0, i, raw[i]);
    }
    hide EncodedUpTo, AT.Coupling;
    forall i, j | 0 <= i < j < n && m[i] != -1 ensures m[i] != m[j] {
      assert raw[raw[i]] == i;
    }
    assert BM.Matched(m) == AT.Coloured(raw, IsMan(n));
  }

  /** The coupling of men and women that a compatible matching stands for. */
  function Encode(n: nat, m: seq<int>): (raw: seq<int>)
    requires |m| == n
    ensures |raw| == 2 * n
    ensures forall i :: 0 <= i < n ==> raw[i] == if m[i] == -1 then -1 else n + m[i]
    ensures forall w :: 0 <= w < n ==> raw[n + w] == if IndexOf(m, w) == n then -1 else IndexOf(m, w)
  {
    seq(2 * n, v requires 0 <= v < 2 * n =>
      if v < n then (if m[v] == -1 then -1 else n + m[v])
      else if IndexOf(m, v - n) == n then -1 else IndexOf(m, v - n))
  }

  lemma EncodedMan(adj: AT.Graph, c: Matrix, n: nat, t: int, m: seq<int>, v: nat)
    requires Square(c, n) && EncodedUpTo(adj, c, n, t, n, 0) && Compatible(c, n, t, m) && v < n
    ensures AT.Coupled(adj, Encode(n, m), v)
  {
  }

  lemma EncodedWoman(adj: AT.Graph, c: Matrix, n: nat, t: int, m: seq<int>, w: nat)
    requires Square(c, n) && EncodedUpTo(adj, c, n, t, n, 0) && Compatible(c, n, t, m) && w < n
    ensures AT.Coupled(adj, Encode(n, m), n + w)
  {
  }

  lemma EncodeIsCoupling(adj: AT.Graph, c: Matrix, n: nat, t: int, m: seq<int>)
    requires Square(c, n) && EncodedUpTo(adj, c, n, t, n, 0) && Compatible(c, n, t, m)
    ensures AT.Coupling(adj, Encode(n, m))
    ensures |AT.Coloured(Encode(n, m), IsMan(n))| == BM.Size(m)
  {
    var raw := Encode(n, m);
    assert |adj| == 2 * n;
    assert AT.Coloured(raw, IsMan(n)) == BM.Matched(m);
    hide EncodedUpTo, Encode, Compatible, IndexOf, AT.Coupled;
    forall v | 0 <= v < 2 * n ensures AT.Coupled(adj, raw, v) {
      if v < n {
        EncodedMan(adj, c, n, t, m, v);
      } else {
        EncodedWoman(adj, c, n, t, m, v - n);
      }
    }
  }

  lemma CompatibleSize(c: Matrix, n: nat, t: int, m: seq<int>)
    requires Square(c, n) && Compatible(c, n, t, m)
    ensures |m| == n
  {
  }

  lemma MaximumCouplingIsMostCouples(adj: AT.Graph, c: Matrix, n: nat, t: int, raw: seq<int>)
    requires Square(c, n) && EncodedUpTo(adj, c, n, t, n, 0) && AT.Simple(adj)
    requires AT.Coupling(adj, raw) && forall w :: AT.Coupling(adj, w) ==> AT.Couples(w) <= AT.Couples(raw)
    ensures |raw| == 2 * n && MostCouples(c, n, t, WomenOf(n, raw))
  {
    assert |adj| == |raw| == 2 * n;
    hide EncodedUpTo, AT.Simple, AT.Coupling, AT.TwoColoured, Compatible, AT.Couples, BM.Size;
    EncodingIsTwoColoured(adj, c, n, t);
    WomenOfIsCompatible(adj, c, n, t, raw);
    AT.CouplesByColour(adj, raw, IsMan(n));
    forall w | Compatible(c, n, t, w) ensures BM.Size(w) <= BM.Size(WomenOf(n, raw)) {
      CompatibleSize(c, n, t, w);
      EncodeIsCoupling(adj, c, n, t, w);
      AT.CouplesByColour(adj, Encode(n, w), IsMan(n));
    }
  }

  /** The loop after it, which turns vertices back into women. */
  method Women(n: nat, raw: seq<int>) returns (matchM: seq<int>)
    requires |raw| == 2 * n
    ensures matchM == WomenOf(n, raw)
  {
    matchM := seq(n, _ => -1);
    for m := 0 to n
      invariant |matchM| == n
      invariant forall i :: 0 <= i < n ==> matchM[i] == if i < m then WomenOf(n, raw)[i] else -1
    {
      if raw[m] != -1 {
        matchM := matchM[m := raw[m] - n];
      }
    }
  }

  method RunBlossom(c: Matrix, n: nat, t: int) returns (matchM: seq<int>)
    requires Square(c, n)
    ensures MostCouples(c, n, t, matchM)
  {
    hide EncodedUpTo, Compatible, MostCouples, AT.Simple, AT.Coupling, AT.TwoColoured;
    var bl := new BL.Blossom(2 * n);
    NoEncoded(bl.adj, c, n, t);
    for m := 0 to n
      invariant bl.Valid() && fresh(bl) && EncodedUpTo(bl.adj, c, n, t, m, 0)
    {
      for w := 0 to n
        invariant bl.Valid() && EncodedUpTo(bl.adj, c, n, t, m, w)
      {
        NextEncoded(bl.adj, c, n, t, m, w);
        if c[m][w] >= t {
          bl.AddCompatiblePair(m, n + w);
        }
      }
      NextEncodedRow(bl.adj, c, n, t, m);
    }
    EncodingIsTwoColoured(bl.adj, c, n, t);
    var couples := bl.MaxMatching(IsMan(n));
    MaximumCouplingIsMostCouples(bl.adj, c, n, t, bl.mates);
    matchM := Women(n, bl.mates);
  }

  // ---- the other two runners ----

  /** The lists are those some run of std::sort could have built. */
  ghost predicate ScoreSortedStable(c: Matrix, n: nat, m: seq<int>)
    requires Square(c, n)
  {
    exists prefA, prefB ::
      && MenSorted(c, n, prefA) && WomenSorted(c, n, prefB)
      && SM.Stable(prefA, prefB, m) && SM.ManOptimal(prefA, prefB, m)
  }

  lemma ListsSized(prefs: SM.Prefs, n: nat)
    requires SM.PreferenceLists(prefs, n)
    ensures |prefs| == n
  {
  }

  /** isStable always answers yes to what run has left. */
  method RunGaleShapley(c: Matrix, n: nat) returns (matchM: seq<int>, stable: bool)
    requires Square(c, n) && n > 0
    ensures Permutation(matchM, n) && ScoreSortedStable(c, n, matchM) && stable
  {
    hide MenSorted, WomenSorted, SM.PreferenceLists, SM.Stable, SM.ManOptimal, GS.IsRankTable, GS.Inverse;
    var prefA := MenPrefs(c, n);
    var prefB := WomenPrefs(c, n);
    ListsSized(prefA, n);
    ListsSized(prefB, n);
    var gs := new GS.GaleShapley(prefA, prefB);
    ghost var proposals := gs.Run();
    matchM := gs.matchA;
    stable := gs.IsStable();
  }

  method RunHungarian(c: Matrix, n: nat, ghost lo: int, ghost hi: int) returns (matchM: seq<int>)
    requires Square(c, n) && n > 0 && EntriesIn(c, lo, hi) && HT.BelowCap(lo, hi)
    ensures H.BestAssignment(c, n, matchM)
  {
    var hung := new H.Hungarian(c);
    ghost var d, ms := hung.Solve(lo, hi);
    matchM := hung.assignment;
  }

  // ---- the report ----

  /** Some way to pair everybody off has every couple at or above the threshold. */
  ghost predicate EverybodyCompatible(c: Matrix, n: nat, t: int)
    requires Square(c, n)
  {
    exists w :: Permutation(w, n) && Compatible(c, n, t, w)
  }

  /** Woman b has no partner, or she and man a both score strictly higher together. */
  ghost predicate Tempted(c: Matrix, n: nat, m: seq<int>, a: int, b: int)
    requires Square(c, n) && Permutation(m, n) && 0 <= a < n && 0 <= b < n
  {
    SM.PartnerOf(m, b) < n ==> BothScoreHigher(c, n, m, a, b)
  }

  /** A couple whose score is the threshold itself counts. */
  lemma ThresholdIncluded(x: int, t: int)
    ensures Square([[x]], 1) && (EverybodyCompatible([[x]], 1, t) <==> x >= t)
  {
    if x >= t {
      assert Permutation([0], 1) && Compatible([[x]], 1, t, [0]);
    }
    if w :| Permutation(w, 1) && Compatible([[x]], 1, t, w) {
      assert w[0] == 0;
    }
  }

  /** No man and woman both score strictly higher together than with their partners. */
  ghost predicate NobodyTempted(c: Matrix, n: nat, m: seq<int>)
    requires Square(c, n) && Permutation(m, n)
  {
    forall a, b :: 0 <= a < n && 0 <= b < n ==> !Tempted(c, n, m, a, b)
  }

  lemma StableNobodyTempted(c: Matrix, n: nat, prefA: SM.Prefs, prefB: SM.Prefs, m: seq<int>)
    requires Square(c, n) && Permutation(m, n) && MenSorted(c, n, prefA) && WomenSorted(c, n, prefB)
    requires |prefA| == |prefB| == n && SM.Stable(prefA, prefB, m)
    ensures NobodyTempted(c, n, m)
  {
    hide MenSorted, WomenSorted, SM.Stable;
    forall a, b | 0 <= a < n && 0 <= b < n ensures !Tempted(c, n, m, a, b) {
      StableInScores(c, n, prefA, prefB, m, a, b);
    }
  }

  lemma SortedStableNobodyTempted(c: Matrix, n: nat, m: seq<int>)
    requires Square(c, n) && Permutation(m, n) && ScoreSortedStable(c, n, m)
    ensures NobodyTempted(c, n, m)
  {
    hide NobodyTempted, SM.Stable, SM.ManOptimal;
    var prefA, prefB :| MenSorted(c, n, prefA) && WomenSorted(c, n, prefB)
      && SM.Stable(prefA, prefB, m) && SM.ManOptimal(prefA, prefB, m);
    StableNobodyTempted(c, n, prefA, prefB, m);
  }

  lemma AssignmentIsPartly(m: seq<int>, n: nat)
    requires Permutation(m, n)
    ensures Partly(m, n) && forall i :: 0 <= i < n ==> m[i] != -1
  {
  }

  lemma PartlyInRange(c: Matrix, n: nat, t: int, m: seq<int>)
    requires Square(c, n) && MostCouples(c, n, t, m)
    ensures Partly(m, n)
  {
  }

  /** n couples exactly when nobody is left out. */
  lemma FullMeansAll(m: seq<int>, n: nat)
    requires |m| == n
    ensures BM.Size(m) == n <==> forall i :: 0 <= i < n ==> m[i] != -1
  {
    RangeCardinality(n);
    SubsetCardinality(BM.Matched(m), Range(n));
    assert BM.Matched(m) == Range(n) <==> forall i :: 0 <= i < n ==> m[i] != -1;
  }

  /** A threshold matching with the most couples has n of them exactly when everybody can be paired off. */
  lemma FullPool(c: Matrix, n: nat, t: int, m: seq<int>)
    requires Square(c, n) && MostCouples(c, n, t, m)
    ensures BM.Size(m) == n <==> EverybodyCompatible(c, n, t)
  {
    FullMeansAll(m, n);
    if BM.Size(m) == n {
      assert Permutation(m, n);
    }
    if EverybodyCompatible(c, n, t) {
      var w :| Permutation(w, n) && Compatible(c, n, t, w);
      FullMeansAll(w, n);
      RangeCardinality(n);
      SubsetCardinality(BM.Matched(m), Range(n));
    }
  }

  /** The tests behind the three notes of `analysis`. */
  method Analysis(c: Matrix, n: nat, t: int, gs: seq<int>, hk: seq<int>, hu: seq<int>, bl: seq<int>)
    returns (identical: bool, fullPool: bool, highest: bool)
    requires Square(c, n) && NonNegative(c)
    requires Permutation(gs, n) && ScoreSortedStable(c, n, gs)
    requires MostCouples(c, n, t, hk) && MostCouples(c, n, t, bl)
    requires H.BestAssignment(c, n, hu)
    ensures identical <==> hk == bl
    ensures fullPool <==> EverybodyCompatible(c, n, t)
    ensures highest
  {
    hide NonNegative, ScoreSortedStable, Compatible, Sum, BM.Size, MostCouples, EverybodyCompatible;
    identical := hk == bl;
    AssignmentIsPartly(gs, n);
    AssignmentIsPartly(hu, n);
    PartlyInRange(c, n, t, hk);
    var countHk := Count(hk);
    var countHu := Count(hu);
    FullMeansAll(hk, n);
    FullMeansAll(hu, n);
    fullPool := countHk == countHu;
    FullPool(c, n, t, hk);
    var scoreHu := Score(c, n, hu);
    var scoreGs := Score(c, n, gs);
    var scoreHk := Score(c, n, hk);
    highest := scoreHu >= scoreGs && scoreHu >= scoreHk;
    TotalIsScore(c, n, hu);
    BestBeatsPartial(c, n, hu, gs);
    BestBeatsPartial(c, n, hu, hk);
  }

  /** The two threshold algorithms form equally many couples, although perhaps not the same ones. */
  lemma SameNumberOfCouples(c: Matrix, n: nat, t: int, hk: seq<int>, bl: seq<int>)
    requires Square(c, n) && MostCouples(c, n, t, hk) && MostCouples(c, n, t, bl)
    ensures BM.Size(hk) == BM.Size(bl)
  {
  }

  /** gs scores at most as much as hu, and at least half as much. */
  ghost predicate WithinHalf(c: Matrix, n: nat, gs: seq<int>, hu: seq<int>)
    requires Square(c, n)
  {
    && Permutation(gs, n) && Permutation(hu, n)
    && Total(c, n, gs) <= Total(c, n, hu) <= 2 * Total(c, n, gs)
  }

  ghost predicate Outscored(c: Matrix, n: nat, m: seq<int>, hu: seq<int>)
    requires Square(c, n)
  {
    Partly(m, n) && Permutation(hu, n) && ScoreOf(c, n, m) <= Total(c, n, hu)
  }

  /** The score sandwich: stable <= best <= twice stable, and no threshold matching beats the best. */
  lemma ScoreSandwich(c: Matrix, n: nat, t: int, gs: seq<int>, hk: seq<int>, hu: seq<int>)
    requires Square(c, n) && NonNegative(c)
    requires Permutation(gs, n) && ScoreSortedStable(c, n, gs)
    requires H.BestAssignment(c, n, hu) && Compatible(c, n, t, hk)
    ensures WithinHalf(c, n, gs, hu) && Outscored(c, n, hk, hu)
  {
    BestBeatsPartial(c, n, hu, hk);
    var prefA, prefB :| MenSorted(c, n, prefA) && WomenSorted(c, n, prefB)
      && SM.Stable(prefA, prefB, gs) && SM.ManOptimal(prefA, prefB, gs);
    StableIsHalfOptimal(c, n, prefA, prefB, gs, hu);
  }

  lemma EntriesNonNegative(c: Matrix, hi: int)
    requires EntriesIn(c, 0, hi)
    ensures NonNegative(c)
  {
  }

  /** Scores from 0 to 100, and pools of up to 999,999,999 couples, are admitted below. */
  lemma PoolsAdmitted(c: Matrix, n: nat)
    requires Square(c, n) && n <= 999_999_999 && EntriesIn(c, 0, 100)
    ensures n < L.INF && EntriesIn(c, 0, 100) && 100 < HT.INF && HT.BelowCap(0, 100)
  {
  }

  /** The whole of main: every claim the report rests on, for any non-negative matrix below the cap. */
  method CompareAll(c: Matrix, n: nat, t: int, ghost hi: int)
    returns (gs: seq<int>, hk: seq<int>, hu: seq<int>, bl: seq<int>,
             stable: bool, identical: bool, fullPool: bool, highest: bool)
    requires Square(c, n) && 0 < n < L.INF && EntriesIn(c, 0, hi) && 0 <= hi < HT.INF
    ensures Permutation(gs, n) && ScoreSortedStable(c, n, gs)
    ensures MostCouples(c, n, t, hk) && MostCouples(c, n, t, bl) && BM.Size(hk) == BM.Size(bl)
    ensures H.BestAssignment(c, n, hu)
    ensures WithinHalf(c, n, gs, hu) && Outscored(c, n, hk, hu) && Outscored(c, n, bl, hu)
    ensures NobodyTempted(c, n, gs)
    ensures stable && highest && (identical <==> hk == bl)
    ensures fullPool <==> EverybodyCompatible(c, n, t)
    ensures fullPool <==> BM.Size(hk) == BM.Size(bl) == n
  {
    hide EntriesIn, ScoreSortedStable, Permutation, H.BestAssignment, Square, NonNegative, Compatible,
      WithinHalf, Outscored, NobodyTempted, EverybodyCompatible, BM.Size;
    gs, stable := RunGaleShapley(c, n);
    hk := RunHopcroftKarp(c, n, t);
    hu := RunHungarian(c, n, 0, hi);
    bl := RunBlossom(c, n, t);
    EntriesNonNegative(c, hi);
    SameNumberOfCouples(c, n, t, hk, bl);
    ScoreSandwich(c, n, t, gs, hk, hu);
    ScoreSandwich(c, n, t, gs, bl, hu);
    identical, fullPool, highest := Analysis(c, n, t, gs, hk, hu, bl);
    FullPool(c, n, t, hk);
    SortedStableNobodyTempted(c, n, gs);
  }
}
