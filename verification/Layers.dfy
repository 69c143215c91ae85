/** Breadth-first layers of a matching, and what they prove about src/hopcroft_karp.cpp: how far a
    matching can be from maximum, and that a phase lengthens the shortest augmenting path. */
module Layers {
  import opened Sequences
  import opened BipartiteMatching

  /** HopcroftKarp::INF. */
  const INF: int := 1_000_000_000

  /** Man p is one layer above man a and has an edge to a's woman. */
  ghost predicate Parent(adj: Adjacency, ml: seq<int>, d: seq<int>, a: int, p: int)
    requires |ml| == |d| == |adj| && 0 <= a < |adj|
  {
    0 <= p < |adj| && d[p] == d[a] - 1 && ml[a] in adj[p]
  }

  /** Free men, and only they, are in layer 0; every other finite layer has a parent. */
  ghost predicate Rooted(adj: Adjacency, ml: seq<int>, d: seq<int>) {
    && |ml| == |d| == |adj|
    && (forall a :: 0 <= a < |d| ==> 0 <= d[a] <= INF)
    && (forall a :: 0 <= a < |d| ==> (d[a] == 0 <==> ml[a] == -1))
    && (forall a :: 0 <= a < |d| && 0 < d[a] < INF ==> exists p :: Parent(adj, ml, d, a, p))
  }

  /** No edge skips a layer. */
  ghost predicate NoSkip(adj: Adjacency, right: nat, mr: seq<int>, d: seq<int>)
    requires Graph(adj, right) && |mr| == right && |d| == |adj|
    requires forall b :: 0 <= b < right && mr[b] != -1 ==> 0 <= mr[b] < |adj|
  {
    forall a, i :: 0 <= a < |adj| && 0 <= i < |adj[a]| && d[a] < INF && mr[adj[a][i]] != -1 ==>
      d[mr[adj[a][i]]] <= d[a] + 1
  }

  /** The layering bfs leaves in distLeft_. */
  ghost predicate Layered(adj: Adjacency, right: nat, ml: seq<int>, mr: seq<int>, d: seq<int>)
    requires Graph(adj, right)
  {
    Consistent(adj, right, ml, mr) && Rooted(adj, ml, d) && NoSkip(adj, right, mr, d)
  }

  /** Man a has an edge to a free woman. */
  ghost predicate SeesFree(adj: Adjacency, mr: seq<int>, a: int)
    requires 0 <= a < |adj|
  {
    exists i :: 0 <= i < |adj[a]| && 0 <= adj[a][i] < |mr| && mr[adj[a][i]] == -1
  }

  // ---- layers are inhabited ----

  /** Layers 0..k below man a hold at least k + 1 men, so a finite layer is below the number of men. */
  lemma {:induction false} LayersInhabited(adj: Adjacency, ml: seq<int>, d: seq<int>, a: int)
    returns (men: set<int>)
    requires Rooted(adj, ml, d) && 0 <= a < |d| && d[a] < INF
    ensures men <= Range(|d|) && |men| == d[a] + 1
    ensures forall x :: x in men ==> d[x] <= d[a]
    decreases d[a]
  {
    if d[a] == 0 {
      men := {a};
    } else {
      var p :| Parent(adj, ml, d, a, p);
      var above := LayersInhabited(adj, ml, d, p);
      men := above + {a};
    }
  }

  lemma LayerBelowLeft(adj: Adjacency, ml: seq<int>, d: seq<int>, a: int)
    requires Rooted(adj, ml, d) && 0 <= a < |d| && d[a] < INF
    ensures d[a] < |d|
  {
    var men := LayersInhabited(adj, ml, d, a);
    RangeCardinality(|d|);
    SubsetCardinality(men, Range(|d|));
  }

  // ---- the deficiency bound ----

  /** Matched men in layer t. */
  ghost function InLayer(ml: seq<int>, d: seq<int>, t: int): (r: set<int>)
    requires |d| == |ml|
    ensures forall a :: a in r <==> a in Matched(ml) && d[a] == t
  {
    set a | a in Matched(ml) && d[a] == t
  }

  ghost function UpTo(ml: seq<int>, d: seq<int>, t: int): (r: set<int>)
    requires |d| == |ml|
    ensures forall a :: a in r <==> a in Matched(ml) && d[a] <= t
  {
    set a | a in Matched(ml) && d[a] <= t
  }

  ghost function Above(ml: seq<int>, d: seq<int>, t: int): (r: set<int>)
    requires |d| == |ml|
    ensures forall a :: a in r <==> a in Matched(ml) && d[a] > t
  {
    set a | a in Matched(ml) && d[a] > t
  }

  /** Men that matching w couples and that lie in layers 0..t. */
  ghost function CoupledUpTo(w: seq<int>, d: seq<int>, t: int): (r: set<int>)
    requires |d| == |w|
    ensures forall a :: a in r <==> a in Matched(w) && d[a] <= t
  {
    set a | a in Matched(w) && d[a] <= t
  }

  /** The men w couples lie in layers 0..t or are matched by ml too. */
  lemma FarMenMatched(adj: Adjacency, ml: seq<int>, d: seq<int>, t: nat, w: seq<int>)
    requires Rooted(adj, ml, d) && |w| == |d|
    ensures Size(w) <= |CoupledUpTo(w, d, t)| + |Above(ml, d, t)|
  {
    var near := CoupledUpTo(w, d, t);
    forall a | a in Matched(w) ensures a in near + Above(ml, d, t) {
      assert d[a] > t ==> ml[a] != -1;
    }
    SubsetCardinality(Matched(w), near + Above(ml, d, t));
  }

  /** The women w gives to men in layers 0..t are held, in ml, by distinct men in layers up to t + 1. */
  lemma HoldersBound(adj: Adjacency, right: nat, ml: seq<int>, mr: seq<int>, d: seq<int>, t: nat, w: seq<int>)
    requires Graph(adj, right) && Layered(adj, right, ml, mr, d) && t < INF
    requires forall a :: 0 <= a < |adj| && d[a] <= t ==> !SeesFree(adj, mr, a)
    requires IsMatching(adj, w)
    ensures |CoupledUpTo(w, d, t)| <= |UpTo(ml, d, t + 1)|
  {
    var near := CoupledUpTo(w, d, t);
    forall a | a in near ensures 0 <= w[a] < right && mr[w[a]] != -1 && mr[w[a]] in UpTo(ml, d, t + 1) {
      var i :| 0 <= i < |adj[a]| && adj[a][i] == w[a];
      assert !SeesFree(adj, mr, a);
    }
    var holder := map a | a in near :: mr[w[a]];
    forall a, a' | a in near && a' in near && a != a' ensures holder[a] != holder[a'] {
      assert w[a] != w[a'];
      assert ml[mr[w[a]]] == w[a] && ml[mr[w[a']]] == w[a'];
    }
    InjectionCardinality(near, holder, UpTo(ml, d, t + 1));
  }

  lemma SplitAt(ml: seq<int>, d: seq<int>, t: int)
    requires |d| == |ml|
    ensures |UpTo(ml, d, t + 1)| == |UpTo(ml, d, t)| + |InLayer(ml, d, t + 1)|
    ensures Size(ml) == |UpTo(ml, d, t)| + |Above(ml, d, t)|
  {
    assert UpTo(ml, d, t + 1) == UpTo(ml, d, t) + InLayer(ml, d, t + 1);
    assert Matched(ml) == UpTo(ml, d, t) + Above(ml, d, t);
  }

  /** If no man in layers 0..t sees a free woman, then the men beyond layer t and the women seen
      from layers 0..t cover every edge; counting them bounds every matching w. With t past the
      last layer this is maximality (Koenig); with t small it bounds what is still to gain. */
  lemma CoverBound(adj: Adjacency, right: nat, ml: seq<int>, mr: seq<int>, d: seq<int>, t: nat, w: seq<int>)
    requires Graph(adj, right) && Layered(adj, right, ml, mr, d) && t < INF
    requires forall a :: 0 <= a < |adj| && d[a] <= t ==> !SeesFree(adj, mr, a)
    requires IsMatching(adj, w)
    ensures Size(w) <= Size(ml) + |InLayer(ml, d, t + 1)|
  {
    hide Graph, SeesFree, Consistent, NoSkip, Size;
    HoldersBound(adj, right, ml, mr, d, t, w);
    FarMenMatched(adj, ml, d, t, w);
    SplitAt(ml, d, t);
  }

  /** Some layer among 1..k is no larger than the k-th part of the matched men. */
  lemma {:induction false} LayersShareMatched(ml: seq<int>, d: seq<int>, k: nat, x: nat)
    requires |d| == |ml| && forall a :: 0 <= a < |d| && d[a] == 0 ==> ml[a] == -1
    requires forall t :: 1 <= t <= k ==> x <= |InLayer(ml, d, t)|
    ensures k * x <= |UpTo(ml, d, k)|
    decreases k
  {
    if k > 0 {
      LayersShareMatched(ml, d, k - 1, x);
      SplitAt(ml, d, k - 1);
      assert k * x == (k - 1) * x + x;
    }
  }

  lemma LayerZeroFree(adj: Adjacency, right: nat, ml: seq<int>, mr: seq<int>, d: seq<int>)
    requires Graph(adj, right) && Layered(adj, right, ml, mr, d)
    ensures |d| == |ml| && forall a :: 0 <= a < |d| && d[a] == 0 ==> ml[a] == -1
  {
  }

  lemma LayerBound(adj: Adjacency, right: nat, ml: seq<int>, mr: seq<int>, d: seq<int>, t: nat, k: nat, w: seq<int>)
    requires Graph(adj, right) && Layered(adj, right, ml, mr, d) && 1 <= t <= k < INF
    requires forall a :: 0 <= a < |adj| && d[a] < k ==> !SeesFree(adj, mr, a)
    requires IsMatching(adj, w)
    ensures |d| == |ml| && Size(w) - Size(ml) <= |InLayer(ml, d, t)|
  {
    CoverBound(adj, right, ml, mr, d, t - 1, w);
  }

  lemma GainBound(adj: Adjacency, right: nat, ml: seq<int>, mr: seq<int>, d: seq<int>, k: nat,
                  w: seq<int>, gain: nat)
    requires Graph(adj, right) && Layered(adj, right, ml, mr, d) && k < INF
    requires forall a :: 0 <= a < |adj| && d[a] < k ==> !SeesFree(adj, mr, a)
    requires IsMatching(adj, w) && Size(w) == Size(ml) + gain
    ensures k * gain <= Size(ml)
  {
    LayerZeroFree(adj, right, ml, mr, d);
    forall t | 1 <= t <= k ensures gain <= |InLayer(ml, d, t)| {
      LayerBound(adj, right, ml, mr, d, t, k, w);
    }
    hide Layered, SeesFree, IsMatching, Graph;
    LayersShareMatched(ml, d, k, gain);
    SubsetCardinality(UpTo(ml, d, k), Matched(ml));
  }

  /** A matching whose first k layers see no free woman is within 1/k of its own size of maximum. */
  lemma DeficiencyBound(adj: Adjacency, right: nat, ml: seq<int>, mr: seq<int>, d: seq<int>, k: nat, w: seq<int>)
    requires Graph(adj, right) && Layered(adj, right, ml, mr, d) && k < INF
    requires forall a :: 0 <= a < |adj| && d[a] < k ==> !SeesFree(adj, mr, a)
    requires IsMatching(adj, w)
    ensures k * (Size(w) - Size(ml)) <= Size(ml)
  {
    hide Layered, SeesFree, IsMatching, Graph, Size;
    var gain := Size(w) - Size(ml);
    if gain >= 0 {
      GainBound(adj, right, ml, mr, d, k, w, gain);
    } else {
      assert k * gain <= 0;
    }
  }

  /** Women seen from a finite layer. */
  ghost function SeenWomen(adj: Adjacency, right: nat, d: seq<int>): (r: set<int>)
    requires |d| == |adj|
    ensures forall b :: b in r <==> 0 <= b < right && exists a :: 0 <= a < |adj| && d[a] < INF && b in adj[a]
  {
    set b | b in Range(right) && exists a :: 0 <= a < |adj| && d[a] < INF && b in adj[a]
  }

  ghost function UnreachedMen(d: seq<int>): (r: set<int>)
    ensures forall a :: a in r <==> 0 <= a < |d| && d[a] == INF
  {
    set a | a in Range(|d|) && d[a] == INF
  }

  ghost function ReachedMatched(ml: seq<int>, d: seq<int>): (r: set<int>)
    requires |d| == |ml|
    ensures forall a :: a in r <==> a in Matched(ml) && d[a] < INF
  {
    set a | a in Matched(ml) && d[a] < INF
  }

  /** The man who holds a woman seen from a finite layer is in a finite layer himself. */
  lemma HolderReached(adj: Adjacency, right: nat, ml: seq<int>, mr: seq<int>, d: seq<int>, a: int, i: nat)
    requires Graph(adj, right) && Layered(adj, right, ml, mr, d) && |adj| < INF
    requires 0 <= a < |adj| && i < |adj[a]| && d[a] < INF && mr[adj[a][i]] != -1
    ensures d[mr[adj[a][i]]] < INF
  {
    LayerBelowLeft(adj, ml, d, a);
    assert d[mr[adj[a][i]]] <= d[a] + 1;
  }

  lemma SeenWomenHeld(adj: Adjacency, right: nat, ml: seq<int>, mr: seq<int>, d: seq<int>)
    requires Graph(adj, right) && Layered(adj, right, ml, mr, d) && |adj| < INF
    requires forall a :: 0 <= a < |adj| && d[a] < INF ==> !SeesFree(adj, mr, a)
    ensures |SeenWomen(adj, right, d)| <= |ReachedMatched(ml, d)|
  {
    var seen := SeenWomen(adj, right, d);
    forall b | b in seen ensures mr[b] != -1 && ml[mr[b]] == b && mr[b] in ReachedMatched(ml, d) {
      var a :| 0 <= a < |adj| && d[a] < INF && b in adj[a];
      var i :| 0 <= i < |adj[a]| && adj[a][i] == b;
      assert !SeesFree(adj, mr, a);
      LayerBelowLeft(adj, ml, d, a);
      HolderReached(adj, right, ml, mr, d, a, i);
    }
    hide Graph, Layered, SeesFree;
    var holder := map b | b in seen :: mr[b];
    InjectionCardinality(seen, holder, ReachedMatched(ml, d));
  }

  lemma ReachedHoldSeen(adj: Adjacency, right: nat, ml: seq<int>, mr: seq<int>, d: seq<int>)
    requires Graph(adj, right) && Layered(adj, right, ml, mr, d)
    ensures |ReachedMatched(ml, d)| <= |SeenWomen(adj, right, d)|
  {
    var reached := ReachedMatched(ml, d);
    forall a | a in reached ensures ml[a] in SeenWomen(adj, right, d) && 0 <= ml[a] < right && mr[ml[a]] == a {
      assert ml[a] in adj[a];
    }
    hide Graph, Layered;
    var wife := map a | a in reached :: ml[a];
    InjectionCardinality(reached, wife, SeenWomen(adj, right, d));
  }

  /** Koenig's cover: when no man in a finite layer sees a free woman, the men bfs did not reach and
      the women it saw touch every edge, and there are exactly as many of them as couples. */
  lemma KoenigCover(adj: Adjacency, right: nat, ml: seq<int>, mr: seq<int>, d: seq<int>)
    requires Graph(adj, right) && Layered(adj, right, ml, mr, d) && |adj| < INF
    requires forall a :: 0 <= a < |adj| && d[a] < INF ==> !SeesFree(adj, mr, a)
    ensures forall a, i :: 0 <= a < |adj| && 0 <= i < |adj[a]| ==>
              a in UnreachedMen(d) || adj[a][i] in SeenWomen(adj, right, d)
    ensures |UnreachedMen(d)| + |SeenWomen(adj, right, d)| == Size(ml)
  {
    SeenWomenHeld(adj, right, ml, mr, d);
    ReachedHoldSeen(adj, right, ml, mr, d);
    assert Matched(ml) == UnreachedMen(d) + ReachedMatched(ml, d);
    forall a, i | 0 <= a < |adj| && 0 <= i < |adj[a]| && a !in UnreachedMen(d)
      ensures adj[a][i] in SeenWomen(adj, right, d)
    {
      assert adj[a][i] in adj[a];
    }
  }

  /** Koenig: when no man in a finite layer sees a free woman, the matching is maximum. */
  lemma NoAugmentationIsMaximum(adj: Adjacency, right: nat, ml: seq<int>, mr: seq<int>, d: seq<int>, w: seq<int>)
    requires Graph(adj, right) && Layered(adj, right, ml, mr, d) && |adj| < INF
    requires forall a :: 0 <= a < |adj| && d[a] < INF ==> !SeesFree(adj, mr, a)
    requires IsMatching(adj, w)
    ensures Size(w) <= Size(ml)
  {
    var t := INF - 2;
    CoverBound(adj, right, ml, mr, d, t, w);
    forall a | 0 <= a < |d| ensures d[a] != t + 1 {
      if d[a] < INF {
        LayerBelowLeft(adj, ml, d, a);
      }
    }
    assert InLayer(ml, d, t + 1) == {};
  }

  // ---- one phase ----

  /** Layer of a man as far as shortest paths of L + 1 men are concerned. */
  function Capped(x: int, L: int): int {
    if x < L + 1 then x else L + 1
  }

  /** What holds all through a phase for the layering d it started from, L being the first layer
      that saw a free woman. dist is distLeft_ with dead men set to INF. */
  ghost predicate PhaseMatching(adj: Adjacency, right: nat, ml: seq<int>, mr: seq<int>, d: seq<int>, L: nat)
    requires Graph(adj, right)
  {
    && Consistent(adj, right, ml, mr) && |d| == |adj|
    && (forall a :: 0 <= a < |d| ==> 0 <= d[a] && (d[a] < |d| || d[a] == INF))
    && (forall a :: 0 <= a < |d| && ml[a] == -1 ==> d[a] == 0)
    && (forall a, i :: 0 <= a < |adj| && 0 <= i < |adj[a]| ==>
         var b := adj[a][i];
         if mr[b] == -1 then d[a] >= L else Capped(d[mr[b]], L) <= Capped(d[a], L) + 1)
  }

  /** A dead man: all his edges have been tried. */
  ghost predicate DeadAreDone(adj: Adjacency, d: seq<int>, dist: seq<int>, iter: seq<nat>) {
    && |d| == |dist| == |iter| == |adj|
    && (forall a :: 0 <= a < |adj| ==> iter[a] <= |adj[a]|)
    && (forall a :: 0 <= a < |adj| ==> dist[a] == d[a] || dist[a] == INF)
    && (forall a :: 0 <= a < |adj| && dist[a] == INF && d[a] < INF ==> iter[a] == |adj[a]|)
  }

  /** An edge of man a to woman b that can no longer start a shortest continuation. */
  ghost predicate Exhausted(mr: seq<int>, d: seq<int>, dist: seq<int>, L: nat, a: int, b: int)
    requires 0 <= a < |d| == |dist| && 0 <= b < |mr|
    requires mr[b] == -1 || 0 <= mr[b] < |d|
  {
    d[a] <= L ==>
      mr[b] != -1 && (d[a] < L ==> d[mr[b]] != d[a] + 1 || dist[mr[b]] == INF)
  }

  ghost predicate TriedAreExhausted(adj: Adjacency, right: nat, ml: seq<int>, mr: seq<int>,
                                    d: seq<int>, dist: seq<int>, iter: seq<nat>, L: nat)
    requires Graph(adj, right) && Consistent(adj, right, ml, mr) && DeadAreDone(adj, d, dist, iter)
  {
    forall a, i :: 0 <= a < |adj| && 0 <= i < iter[a] ==> Exhausted(mr, d, dist, L, a, adj[a][i])
  }

  ghost predicate Phase(adj: Adjacency, right: nat, ml: seq<int>, mr: seq<int>,
                        d: seq<int>, L: nat, dist: seq<int>, iter: seq<nat>)
    requires Graph(adj, right)
  {
    && PhaseMatching(adj, right, ml, mr, d, L)
    && DeadAreDone(adj, d, dist, iter)
    && TriedAreExhausted(adj, right, ml, mr, d, dist, iter, L)
  }

  /** The path `dfs` returns: it goes down one layer at a time, through men still alive. */
  ghost predicate LayeredPath(adj: Adjacency, mr: seq<int>, d: seq<int>, dist: seq<int>,
                              xs: seq<int>, ys: seq<int>) {
    && Alternating(adj, mr, xs, ys) && |d| == |dist| == |adj|
    && (forall i :: 0 <= i < |xs| ==> d[xs[i]] == d[xs[0]] + i && dist[xs[i]] == d[xs[i]] < INF)
  }

  lemma LayeredPathDistinct(adj: Adjacency, mr: seq<int>, d: seq<int>, dist: seq<int>,
                            xs: seq<int>, ys: seq<int>)
    requires LayeredPath(adj, mr, d, dist, xs, ys)
    ensures Distinct(xs) && Distinct(ys)
  {
    forall i, j | 0 <= i < j < |xs| ensures xs[i] != xs[j] && ys[i] != ys[j] {
      assert d[xs[i]] < d[xs[j]];
      assert mr[ys[i]] == xs[i + 1];
      assert j < |xs| - 1 ==> mr[ys[j]] == xs[j + 1] && d[xs[i + 1]] < d[xs[j + 1]];
    }
  }

  lemma PhaseStarts(adj: Adjacency, right: nat, ml: seq<int>, mr: seq<int>, d: seq<int>, L: nat, iter: seq<nat>)
    requires Graph(adj, right) && Layered(adj, right, ml, mr, d) && L < |adj|
    requires forall a :: 0 <= a < |adj| && d[a] < L ==> !SeesFree(adj, mr, a)
    requires |iter| == |adj| && forall a :: 0 <= a < |iter| ==> iter[a] == 0
    ensures Phase(adj, right, ml, mr, d, L, d, iter)
  {
    forall a | 0 <= a < |d| && d[a] < INF ensures d[a] < |d| {
      LayerBelowLeft(adj, ml, d, a);
    }
    forall a, i | 0 <= a < |adj| && 0 <= i < |adj[a]| && mr[adj[a][i]] == -1 ensures d[a] >= L {
      assert SeesFree(adj, mr, a);
    }
  }

  lemma AdvanceKeepsPhase(adj: Adjacency, right: nat, ml: seq<int>, mr: seq<int>,
                          d: seq<int>, L: nat, dist: seq<int>, iter: seq<nat>, a: int)
    requires Graph(adj, right) && Phase(adj, right, ml, mr, d, L, dist, iter)
    requires 0 <= a < |adj| && iter[a] < |adj[a]| && dist[a] == d[a] < INF
    requires var b := adj[a][iter[a]]; mr[b] != -1 && (dist[mr[b]] != d[a] + 1 || dist[mr[b]] == INF)
    ensures Phase(adj, right, ml, mr, d, L, dist, iter[a := iter[a] + 1])
  {
  }

  lemma KillKeepsPhase(adj: Adjacency, right: nat, ml: seq<int>, mr: seq<int>,
                       d: seq<int>, L: nat, dist: seq<int>, iter: seq<nat>, a: int)
    requires Graph(adj, right) && Phase(adj, right, ml, mr, d, L, dist, iter)
    requires 0 <= a < |adj| && iter[a] == |adj[a]|
    ensures Phase(adj, right, ml, mr, d, L, dist[a := INF], iter)
  {
  }

  /** Who holds woman b after the flip: the same man as before, or the man of the path who took her from
      the next one on it, a layer further down, or took her free. */
  lemma HolderAfterFlip(adj: Adjacency, mr: seq<int>, d: seq<int>, dist: seq<int>,
                        xs: seq<int>, ys: seq<int>, b: int)
    requires LayeredPath(adj, mr, d, dist, xs, ys) && 0 <= b < |mr|
    ensures forall i :: 0 <= i < |xs| ==> 0 <= xs[i] < |adj| && 0 <= ys[i] < |mr|
    ensures var x := Write(mr, ys, xs)[b];
            || x == mr[b]
            || (&& 0 <= x < |d| == |dist| && dist[x] == d[x] < INF
                && (mr[b] == -1 || (0 <= mr[b] < |d| && d[mr[b]] == d[x] + 1 && dist[mr[b]] == d[mr[b]])))
  {
    hide Write;
    LayeredPathDistinct(adj, mr, d, dist, xs, ys);
    WriteSpec(mr, ys, xs);
    if k :| 0 <= k < |ys| && ys[k] == b {
      assert Write(mr, ys, xs)[ys[k]] == xs[k];
      assert k < |xs| - 1 ==> mr[ys[k]] == xs[k + 1] && d[xs[k + 1]] == d[xs[k]] + 1;
    }
  }

  lemma FlipKeepsEdge(adj: Adjacency, right: nat, ml: seq<int>, mr: seq<int>, d: seq<int>, L: nat,
                      dist: seq<int>, xs: seq<int>, ys: seq<int>, a: int, i: nat)
    requires Graph(adj, right) && PhaseMatching(adj, right, ml, mr, d, L)
    requires LayeredPath(adj, mr, d, dist, xs, ys) && ml[xs[0]] == -1
    requires 0 <= a < |adj| && i < |adj[a]|
    ensures var b' := Write(mr, ys, xs)[adj[a][i]];
            if b' == -1 then d[a] >= L else 0 <= b' < |d| && Capped(d[b'], L) <= Capped(d[a], L) + 1
  {
    hide LayeredPath, Write;
    HolderAfterFlip(adj, mr, d, dist, xs, ys, adj[a][i]);
  }

  /** Augmenting along a layered path keeps the layering valid for shortest paths, although the
      path itself may be longer than the shortest. */
  lemma FlipKeepsPhaseMatching(adj: Adjacency, right: nat, ml: seq<int>, mr: seq<int>,
                               d: seq<int>, L: nat, dist: seq<int>, xs: seq<int>, ys: seq<int>)
    requires Graph(adj, right) && PhaseMatching(adj, right, ml, mr, d, L)
    requires LayeredPath(adj, mr, d, dist, xs, ys) && ml[xs[0]] == -1
    ensures PhaseMatching(adj, right, Write(ml, xs, ys), Write(mr, ys, xs), d, L)
  {
    LayeredPathDistinct(adj, mr, d, dist, xs, ys);
    AugmentKeepsConsistent(adj, right, ml, mr, xs, ys);
    WriteSpec(ml, xs, ys);
    hide Augmenting, Distinct;
    var ml', mr' := Write(ml, xs, ys), Write(mr, ys, xs);
    assert forall i :: 0 <= i < |xs| ==> ml'[xs[i]] == ys[i] != -1;
    assert forall a :: a in xs ==> ml'[a] != -1;
    assert forall a :: 0 <= a < |d| && ml'[a] == -1 ==> d[a] == 0;
    forall a, i | 0 <= a < |adj| && 0 <= i < |adj[a]|
      ensures var b := adj[a][i];
              if mr'[b] == -1 then d[a] >= L else Capped(d[mr'[b]], L) <= Capped(d[a], L) + 1
    {
      FlipKeepsEdge(adj, right, ml, mr, d, L, dist, xs, ys, a, i);
    }
  }

  lemma FlipKeepsExhausted(adj: Adjacency, right: nat, ml: seq<int>, mr: seq<int>, d: seq<int>, L: nat,
                           dist: seq<int>, xs: seq<int>, ys: seq<int>, a: int, i: nat)
    requires Graph(adj, right) && PhaseMatching(adj, right, ml, mr, d, L)
    requires LayeredPath(adj, mr, d, dist, xs, ys) && ml[xs[0]] == -1
    requires 0 <= a < |adj| && i < |adj[a]| && Exhausted(mr, d, dist, L, a, adj[a][i])
    ensures var mr' := Write(mr, ys, xs);
            (mr'[adj[a][i]] == -1 || 0 <= mr'[adj[a][i]] < |d|) && Exhausted(mr', d, dist, L, a, adj[a][i])
  {
    hide LayeredPath, Write;
    HolderAfterFlip(adj, mr, d, dist, xs, ys, adj[a][i]);
  }

  lemma FlipKeepsPhase(adj: Adjacency, right: nat, ml: seq<int>, mr: seq<int>, d: seq<int>, L: nat,
                       dist: seq<int>, iter: seq<nat>, xs: seq<int>, ys: seq<int>)
    requires Graph(adj, right) && Phase(adj, right, ml, mr, d, L, dist, iter)
    requires LayeredPath(adj, mr, d, dist, xs, ys) && ml[xs[0]] == -1
    ensures Phase(adj, right, Write(ml, xs, ys), Write(mr, ys, xs), d, L, dist, iter)
  {
    FlipKeepsPhaseMatching(adj, right, ml, mr, d, L, dist, xs, ys);
    forall a, i | 0 <= a < |adj| && 0 <= i < iter[a]
      ensures var mr' := Write(mr, ys, xs);
              (mr'[adj[a][i]] == -1 || 0 <= mr'[adj[a][i]] < |d|) && Exhausted(mr', d, dist, L, a, adj[a][i])
    {
      FlipKeepsExhausted(adj, right, ml, mr, d, L, dist, xs, ys, a, i);
    }
  }

  /** Layers grow by at most one per step of an augmenting walk. */
  lemma {:induction false} WalkDepth(adj: Adjacency, right: nat, ml: seq<int>, mr: seq<int>, d: seq<int>, L: nat,
                                     xs: seq<int>, ys: seq<int>, i: nat)
    requires Graph(adj, right) && PhaseMatching(adj, right, ml, mr, d, L)
    requires Augmenting(adj, ml, mr, xs, ys) && i < |xs|
    ensures Capped(d[xs[i]], L) <= i
  {
    if i > 0 {
      WalkDepth(adj, right, ml, mr, d, L, xs, ys, i - 1);
      var j :| 0 <= j < |adj[xs[i - 1]]| && adj[xs[i - 1]][j] == ys[i - 1];
      assert mr[ys[i - 1]] == xs[i - 1 + 1];
    }
  }

  /** From position i on, the last layer L can only be reached in time from layer i or deeper. */
  lemma {:induction false} WalkHeight(adj: Adjacency, right: nat, ml: seq<int>, mr: seq<int>, d: seq<int>, L: nat,
                                      xs: seq<int>, ys: seq<int>, i: nat)
    requires Graph(adj, right) && PhaseMatching(adj, right, ml, mr, d, L)
    requires Augmenting(adj, ml, mr, xs, ys) && i < |xs| == L + 1
    ensures Capped(d[xs[i]], L) >= i
    decreases |xs| - i
  {
    if i == L {
      var j :| 0 <= j < |adj[xs[i]]| && adj[xs[i]][j] == ys[i];
    } else {
      WalkHeight(adj, right, ml, mr, d, L, xs, ys, i + 1);
      var j :| 0 <= j < |adj[xs[i]]| && adj[xs[i]][j] == ys[i];
    }
  }

  /** If a path of L + 1 men were left, its men would all be dead, and the last could not be. */
  lemma {:induction false} WalkDead(adj: Adjacency, right: nat, ml: seq<int>, mr: seq<int>, d: seq<int>, L: nat,
                                    dist: seq<int>, iter: seq<nat>, xs: seq<int>, ys: seq<int>, i: nat)
    requires Graph(adj, right) && Phase(adj, right, ml, mr, d, L, dist, iter) && |adj| < INF && L < |adj|
    requires Augmenting(adj, ml, mr, xs, ys) && i < |xs| == L + 1
    requires dist[xs[0]] == INF
    ensures d[xs[i]] == i && dist[xs[i]] == INF
  {
    WalkDepth(adj, right, ml, mr, d, L, xs, ys, i);
    WalkHeight(adj, right, ml, mr, d, L, xs, ys, i);
    if i > 0 {
      WalkDead(adj, right, ml, mr, d, L, dist, iter, xs, ys, i - 1);
      var j :| 0 <= j < |adj[xs[i - 1]]| && adj[xs[i - 1]][j] == ys[i - 1];
      assert Exhausted(mr, d, dist, L, xs[i - 1], adj[xs[i - 1]][j]);
      assert mr[ys[i - 1]] == xs[i - 1 + 1];
    }
  }

  lemma DeadSeesNoFree(adj: Adjacency, right: nat, ml: seq<int>, mr: seq<int>, d: seq<int>, L: nat,
                       dist: seq<int>, iter: seq<nat>, a: int, j: nat)
    requires Graph(adj, right) && Phase(adj, right, ml, mr, d, L, dist, iter)
    requires 0 <= a < |adj| && dist[a] == INF && d[a] <= L < INF && j < |adj[a]|
    ensures mr[adj[a][j]] != -1
  {
  }

  lemma PathTooLong(adj: Adjacency, right: nat, ml: seq<int>, mr: seq<int>, d: seq<int>, L: nat,
                    dist: seq<int>, iter: seq<nat>, xs: seq<int>, ys: seq<int>)
    requires Graph(adj, right) && Phase(adj, right, ml, mr, d, L, dist, iter) && |adj| < INF && L < |adj|
    requires Augmenting(adj, ml, mr, xs, ys) && dist[xs[0]] == INF
    ensures |xs| > L + 1
  {
    hide TriedAreExhausted, DeadAreDone;
    var last := |xs| - 1;
    WalkDepth(adj, right, ml, mr, d, L, xs, ys, last);
    var j :| 0 <= j < |adj[xs[last]]| && adj[xs[last]][j] == ys[last];
    if last == L {
      WalkDead(adj, right, ml, mr, d, L, dist, iter, xs, ys, last);
      DeadSeesNoFree(adj, right, ml, mr, d, L, dist, iter, xs[last], j);
    }
  }

  /** Stretch: at the end of a phase every augmenting path has more than L + 1 men. */
  lemma PhaseStretches(adj: Adjacency, right: nat, ml: seq<int>, mr: seq<int>, d: seq<int>, L: nat,
                       dist: seq<int>, iter: seq<nat>)
    requires Graph(adj, right) && Phase(adj, right, ml, mr, d, L, dist, iter) && |adj| < INF && L < |adj|
    requires forall a :: 0 <= a < |adj| && ml[a] == -1 ==> dist[a] == INF
    ensures NoShorterPath(adj, ml, mr, L + 1)
  {
    forall xs, ys | Augmenting(adj, ml, mr, xs, ys) ensures |xs| > L + 1 {
      PathTooLong(adj, right, ml, mr, d, L, dist, iter, xs, ys);
    }
  }
}
