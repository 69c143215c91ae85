/** Alternating search trees in a two-coloured graph, for src/blossom.cpp: what a search labels,
    what an augmentation leaves alone, and why failed roots bound every matching. */
module AlternatingTrees {
  import opened Sequences

  type Graph = seq<seq<int>>

  /** Undirected, no loops. */
  ghost predicate Simple(adj: Graph) {
    forall v, i :: 0 <= v < |adj| && 0 <= i < |adj[v]| ==>
      0 <= adj[v][i] < |adj| && adj[v][i] != v && v in adj[adj[v][i]]
  }

  /** addCompatiblePair: the edge between a and b goes to the end of both lists. */
  function WithPair(adj: Graph, a: nat, b: nat): Graph
    requires a < |adj| && b < |adj| && a != b
  {
    adj[a := adj[a] + [b]][b := adj[b] + [a]]
  }

  lemma PairKeepsSimple(adj: Graph, a: nat, b: nat)
    requires Simple(adj) && a < |adj| && b < |adj| && a != b
    ensures Simple(WithPair(adj, a, b))
  {
  }

  ghost predicate TwoColoured(adj: Graph, colour: seq<bool>) {
    && |colour| == |adj|
    && (forall v, i :: 0 <= v < |adj| && 0 <= i < |adj[v]| && 0 <= adj[v][i] < |adj| ==>
         colour[v] != colour[adj[v][i]])
  }

  /** m pairs vertices along edges; -1 is nobody. */
  ghost predicate Coupled(adj: Graph, m: seq<int>, v: int)
    requires |m| == |adj| && 0 <= v < |m|
  {
    m[v] == -1 || (0 <= m[v] < |m| && m[m[v]] == v && m[v] in adj[v])
  }

  ghost predicate Coupling(adj: Graph, m: seq<int>) {
    |m| == |adj| && forall v :: 0 <= v < |m| ==> Coupled(adj, m, v)
  }

  /** One vertex of each couple: the smaller one. */
  ghost function Firsts(m: seq<int>): (r: set<int>)
    ensures forall v :: v in r <==> 0 <= v < |m| && v < m[v]
  {
    set v | v in Range(|m|) && v < m[v]
  }

  ghost function Couples(m: seq<int>): nat {
    |Firsts(m)|
  }

  /** Matched vertices of one colour. */
  ghost function Coloured(m: seq<int>, colour: seq<bool>): (r: set<int>)
    requires |colour| == |m|
    ensures forall v :: v in r <==> 0 <= v < |m| && colour[v] && m[v] != -1
  {
    set v | v in Range(|m|) && colour[v] && m[v] != -1
  }

  lemma EdgeColours(adj: Graph, colour: seq<bool>, v: int, u: int)
    requires Simple(adj) && TwoColoured(adj, colour) && 0 <= v < |adj| && u in adj[v]
    ensures 0 <= u < |adj| && u != v && colour[u] != colour[v] && v in adj[u]
  {
  }

  /** Mates point at each other and differ in colour. */
  ghost predicate Mates(m: seq<int>, colour: seq<bool>)
    requires |colour| == |m|
  {
    forall v :: 0 <= v < |m| && m[v] != -1 ==>
      0 <= m[v] < |m| && m[m[v]] == v && m[v] != v && colour[m[v]] != colour[v]
  }

  lemma CouplingMates(adj: Graph, m: seq<int>, colour: seq<bool>)
    requires Simple(adj) && TwoColoured(adj, colour) && Coupling(adj, m)
    ensures Mates(m, colour)
  {
    forall v | 0 <= v < |m| && m[v] != -1
      ensures 0 <= m[v] < |m| && m[m[v]] == v && m[v] != v && colour[m[v]] != colour[v]
    {
      assert Coupled(adj, m, v);
      EdgeColours(adj, colour, v, m[v]);
    }
  }

  lemma FirstsToColoured(m: seq<int>, colour: seq<bool>)
    requires |colour| == |m| && Mates(m, colour)
    ensures |Firsts(m)| <= |Coloured(m, colour)|
  {
    var f := map v | v in Firsts(m) :: if colour[v] then v else m[v];
    InjectionCardinality(Firsts(m), f, Coloured(m, colour));
  }

  lemma ColouredToFirsts(m: seq<int>, colour: seq<bool>)
    requires |colour| == |m| && Mates(m, colour)
    ensures |Coloured(m, colour)| <= |Firsts(m)|
  {
    var g := map v | v in Coloured(m, colour) :: if v < m[v] then v else m[v];
    InjectionCardinality(Coloured(m, colour), g, Firsts(m));
  }

  /** Each couple has one vertex of each colour, so counting one colour counts couples. */
  lemma CouplesByColour(adj: Graph, m: seq<int>, colour: seq<bool>)
    requires Simple(adj) && TwoColoured(adj, colour) && Coupling(adj, m)
    ensures Couples(m) == |Coloured(m, colour)|
  {
    CouplingMates(adj, m, colour);
    FirstsToColoured(m, colour);
    ColouredToFirsts(m, colour);
  }

  // ---- failed roots ----

  /** All neighbours of outer are inner, and every inner vertex is matched into outer: no
      augmenting path can enter. */
  ghost predicate Sealed(adj: Graph, m: seq<int>, outer: set<int>, inner: set<int>)
    requires |m| == |adj|
  {
    && (forall v :: v in outer ==> 0 <= v < |adj|)
    && (forall v, i :: v in outer && 0 <= i < |adj[v]| ==> adj[v][i] in inner)
    && (forall u :: u in inner ==> 0 <= u < |adj| && m[u] != -1 && m[u] in outer)
  }

  /** When every free vertex of one colour lies in a sealed outer set of that colour, the matching
      is maximum. */
  lemma SealedIsMaximum(adj: Graph, m: seq<int>, colour: seq<bool>, outer: set<int>, inner: set<int>, w: seq<int>)
    requires Simple(adj) && TwoColoured(adj, colour) && Coupling(adj, m) && Coupling(adj, w)
    requires Sealed(adj, m, outer, inner) && forall v :: v in outer ==> colour[v]
    requires forall v :: 0 <= v < |adj| && colour[v] && m[v] == -1 ==> v in outer
    ensures Couples(w) <= Couples(m)
  {
    CouplesByColour(adj, m, colour);
    CouplesByColour(adj, w, colour);
    var cw := Coloured(w, colour);
    forall v | v in cw && v in outer
      ensures 0 <= w[v] < |m| && w[w[v]] == v && m[w[v]] in outer && 0 <= m[w[v]] < |m| && m[m[w[v]]] == w[v]
    {
      assert Coupled(adj, w, v);
      var i :| 0 <= i < |adj[v]| && adj[v][i] == w[v];
      assert w[v] in inner && Coupled(adj, m, w[v]);
    }
    var f := map v | v in cw :: if v in outer then m[w[v]] else v;
    hide Simple, TwoColoured, Coupling, Sealed;
    forall v, v' | v in cw && v' in cw && v != v' ensures f[v] != f[v'] {
      if v in outer && v' in outer {
        assert w[w[v]] == v && w[w[v']] == v';
        assert m[f[v]] == w[v] && m[f[v']] == w[v'];
      }
    }
    InjectionCardinality(cw, f, Coloured(m, colour));
  }

  // ---- one search ----

  /** labels: 1 outer, -1 inner, 0 not reached. Outer vertices have the root's colour and hang from
      their mate, which is inner and hangs by an edge from an outer vertex one level up. depth is
      ghost. */
  ghost predicate Tree(adj: Graph, m: seq<int>, colour: seq<bool>, s: int,
                       labels: seq<int>, pred: seq<int>, depth: seq<nat>)
    requires |m| == |colour| == |adj|
  {
    && |labels| == |pred| == |depth| == |adj|
    && 0 <= s < |adj| && labels[s] == 1 && m[s] == -1
    && (forall v :: 0 <= v < |adj| ==> -1 <= labels[v] <= 1)
    && (forall v :: 0 <= v < |adj| && labels[v] == 1 ==> colour[v] == colour[s])
    && (forall v :: 0 <= v < |adj| && labels[v] == 1 && v != s ==>
         0 <= m[v] < |adj| && labels[m[v]] == -1 && depth[v] == depth[m[v]])
    && (forall v :: 0 <= v < |adj| && labels[v] == -1 ==>
         && 0 <= m[v] < |adj| && labels[m[v]] == 1
         && 0 <= pred[v] < |adj| && labels[pred[v]] == 1 && v in adj[pred[v]]
         && depth[v] == depth[pred[v]] + 1)
  }

  ghost predicate Inner(labels: seq<int>, u: int) {
    0 <= u < |labels| && labels[u] == -1
  }

  /** The queue holds outer vertices; outer vertices that left it, other than cur, are finished. */
  ghost predicate Searched(adj: Graph, labels: seq<int>, q: seq<int>, cur: int, i: int)
    requires |labels| == |adj|
  {
    && (forall k :: 0 <= k < |q| ==> 0 <= q[k] < |adj| && labels[q[k]] == 1)
    && (forall v, j :: 0 <= v < |adj| && labels[v] == 1 && v !in q && v != cur && 0 <= j < |adj[v]| ==>
         Inner(labels, adj[v][j]))
    && (0 <= cur < |adj| ==>
         labels[cur] == 1 && forall j :: 0 <= j < i && j < |adj[cur]| ==> Inner(labels, adj[cur][j]))
  }

  /** An outer vertex never sees another one: the graph has no odd cycle. */
  lemma OuterSeesNoOuter(adj: Graph, m: seq<int>, colour: seq<bool>, s: int,
                         labels: seq<int>, pred: seq<int>, depth: seq<nat>, v: int, u: int)
    requires Simple(adj) && TwoColoured(adj, colour) && |m| == |adj|
    requires Tree(adj, m, colour, s, labels, pred, depth)
    requires 0 <= v < |adj| && labels[v] == 1 && u in adj[v]
    ensures 0 <= u < |adj| && u != v && -1 <= labels[u] <= 0 && v in adj[u]
  {
    EdgeColours(adj, colour, v, u);
  }

  /** Hanging the unreached couple u, w below the outer vertex v. */
  lemma BranchKeepsTree(adj: Graph, m: seq<int>, colour: seq<bool>, s: int,
                        labels: seq<int>, pred: seq<int>, depth: seq<nat>, v: int, u: int, w: int)
    requires |m| == |colour| == |adj| && Tree(adj, m, colour, s, labels, pred, depth)
    requires 0 <= v < |adj| && labels[v] == 1 && u in adj[v]
    requires 0 <= u < |adj| && 0 <= w < |adj| && u != w && labels[u] == 0 && m[u] == w && m[w] == u
    requires colour[w] == colour[s]
    ensures labels[w] == 0
    ensures Tree(adj, m, colour, s, labels[u := -1][w := 1], pred[u := v][w := u],
                 depth[u := depth[v] + 1][w := depth[v] + 1])
  {
  }

  lemma TreeGrows(adj: Graph, m: seq<int>, colour: seq<bool>, s: int,
                  labels: seq<int>, pred: seq<int>, depth: seq<nat>, v: int, u: int)
    requires Simple(adj) && TwoColoured(adj, colour) && Coupling(adj, m)
    requires Tree(adj, m, colour, s, labels, pred, depth)
    requires 0 <= v < |adj| && labels[v] == 1 && u in adj[v]
    requires 0 <= u < |adj| && labels[u] == 0 && m[u] != -1
    ensures 0 <= m[u] < |adj| && m[u] != u && labels[m[u]] == 0
    ensures var w := m[u];
            Tree(adj, m, colour, s, labels[u := -1][w := 1], pred[u := v][w := u],
                 depth[u := depth[v] + 1][w := depth[v] + 1])
  {
    assert Coupled(adj, m, u);
    EdgeColours(adj, colour, v, u);
    EdgeColours(adj, colour, u, m[u]);
    assert m[m[u]] == u;
    BranchKeepsTree(adj, m, colour, s, labels, pred, depth, v, u, m[u]);
  }

  lemma SearchGrows(adj: Graph, labels: seq<int>, q: seq<int>, v: int, i: int, u: int, w: int)
    requires |labels| == |adj| && 0 <= v < |adj| && 0 <= i < |adj[v]| && adj[v][i] == u
    requires Searched(adj, labels, q, v, i)
    requires 0 <= u < |adj| && 0 <= w < |adj| && u != w && labels[u] == 0 && labels[w] == 0
    ensures Searched(adj, labels[u := -1][w := 1], q + [w], v, i + 1)
  {
  }

  ghost function Unlabelled(labels: seq<int>): (r: set<int>)
    ensures forall v :: v in r <==> 0 <= v < |labels| && labels[v] == 0
  {
    set v | v in Range(|labels|) && labels[v] == 0
  }

  lemma LabellingShrinks(labels: seq<int>, u: int, w: int)
    requires 0 <= u < |labels| && 0 <= w < |labels| && u != w && labels[u] == 0 && labels[w] == 0
    ensures |Unlabelled(labels[u := -1][w := 1])| < |Unlabelled(labels)|
  {
    assert Unlabelled(labels) == Unlabelled(labels[u := -1][w := 1]) + {u, w};
  }

  lemma PopStarts(adj: Graph, labels: seq<int>, q: seq<int>)
    requires |labels| == |adj| && q != [] && Searched(adj, labels, q, -1, 0)
    ensures 0 <= q[0] < |adj| && labels[q[0]] == 1 && Searched(adj, labels, q[1..], q[0], 0)
  {
  }

  ghost function Labelled(labels: seq<int>, x: int): (r: set<int>)
    ensures forall v :: v in r <==> 0 <= v < |labels| && labels[v] == x
  {
    set v | v in Range(|labels|) && labels[v] == x
  }

  /** A search that runs dry seals its tree. */
  lemma FailedTreeIsSealed(adj: Graph, m: seq<int>, colour: seq<bool>, s: int,
                           labels: seq<int>, pred: seq<int>, depth: seq<nat>, outer: set<int>, inner: set<int>)
    requires |m| == |colour| == |adj| && Tree(adj, m, colour, s, labels, pred, depth)
    requires Searched(adj, labels, [], -1, 0) && Sealed(adj, m, outer, inner)
    ensures Sealed(adj, m, outer + Labelled(labels, 1), inner + Labelled(labels, -1))
  {
  }

  lemma OuterNeighbourInner(adj: Graph, m: seq<int>, outer: set<int>, inner: set<int>, u: int, p: int)
    requires |m| == |adj| && Sealed(adj, m, outer, inner) && 0 <= u < |adj| && p in adj[u]
    ensures u in outer ==> p in inner
  {
  }

  /** Outer vertices of a new search never lie on the inner side of an old failed tree. */
  lemma {:induction false} OuterAvoidsInner(adj: Graph, m: seq<int>, colour: seq<bool>, s: int,
                                            labels: seq<int>, pred: seq<int>, depth: seq<nat>,
                                            outer: set<int>, inner: set<int>, v: int)
    requires Simple(adj) && Coupling(adj, m) && |colour| == |adj|
    requires Tree(adj, m, colour, s, labels, pred, depth) && Sealed(adj, m, outer, inner)
    requires 0 <= v < |adj| && labels[v] == 1
    ensures v !in inner
    decreases depth[v]
  {
    if v != s {
      var u := m[v];
      var p := pred[u];
      assert Coupled(adj, m, v);
      OuterAvoidsInner(adj, m, colour, s, labels, pred, depth, outer, inner, p);
      var i :| 0 <= i < |adj[p]| && adj[p][i] == u;
      assert p in adj[adj[p][i]];
      OuterNeighbourInner(adj, m, outer, inner, u, p);
    }
  }

  // ---- the trace-back ----

  /** Everybody but cur is in place, and nobody points at cur. */
  ghost predicate CoupledBut(adj: Graph, m: seq<int>, cur: int)
    requires |m| == |adj|
  {
    forall w :: 0 <= w < |adj| && w != cur ==> Coupled(adj, m, w) && m[w] != cur
  }

  /** The vertices matched so far: those of m0, and u once it has been passed. */
  ghost predicate MatchedAlong(m0: seq<int>, m: seq<int>, u: int, cur: int)
    requires |m0| == |m| && 0 <= u < |m| && 0 <= cur < |m|
  {
    && (forall w :: 0 <= w < |m| && w != cur && w != u ==> (m[w] != -1 <==> m0[w] != -1))
    && (cur != u ==> m[u] != -1 && m0[cur] != -1)
  }

  /** The trace keeps off the sealed sets. */
  ghost predicate Untouched(m0: seq<int>, m: seq<int>, cur: int, outer: set<int>, inner: set<int>)
    requires |m0| == |m|
  {
    forall w :: w in outer || w in inner ==> 0 <= w < |m| && w != cur && m[w] == m0[w]
  }

  /** Flipping back from the free vertex u: cur is the one vertex out of place, due to be matched to
      pred[cur]; outer vertices from there up still have their old mates; no vertex of the sealed
      sets has been touched. */
  ghost predicate Tracing(adj: Graph, m0: seq<int>, m: seq<int>, u: int, labels: seq<int>, pred: seq<int>,
                          depth: seq<nat>, cur: int, outer: set<int>, inner: set<int>)
    requires |m0| == |m| == |labels| == |pred| == |depth| == |adj|
  {
    && 0 <= cur < |adj| && 0 <= u < |adj|
    && 0 <= pred[cur] < |adj| && labels[pred[cur]] == 1 && cur in adj[pred[cur]]
    && (labels[cur] == 0 || depth[cur] == depth[pred[cur]] + 1)
    && (forall w :: 0 <= w < |adj| && labels[w] != 0 && depth[w] <= depth[pred[cur]] ==> m[w] == m0[w])
    && CoupledBut(adj, m, cur) && MatchedAlong(m0, m, u, cur) && Untouched(m0, m, cur, outer, inner)
  }

  lemma TraceStarts(adj: Graph, m: seq<int>, colour: seq<bool>, s: int, labels: seq<int>, pred: seq<int>,
                    depth: seq<nat>, v: int, u: int, outer: set<int>, inner: set<int>)
    requires Simple(adj) && Coupling(adj, m) && |colour| == |adj|
    requires Tree(adj, m, colour, s, labels, pred, depth) && Sealed(adj, m, outer, inner)
    requires 0 <= v < |adj| && labels[v] == 1 && 0 <= u < |adj| && u in adj[v] && u != v && v in adj[u]
    requires labels[u] == 0 && m[u] == -1
    ensures Tracing(adj, m, m, u, labels, pred[u := v], depth, u, outer, inner)
  {
    OuterAvoidsInner(adj, m, colour, s, labels, pred, depth, outer, inner, v);
    OuterNeighbourInner(adj, m, outer, inner, u, v);
    forall w | 0 <= w < |adj| && w != u ensures Coupled(adj, m, w) && m[w] != u {
      assert Coupled(adj, m, w);
    }
  }

  /** The next vertex back is out of reach of the sealed sets. */
  lemma TraceStaysOutside(adj: Graph, m: seq<int>, outer: set<int>, inner: set<int>, cur: int, x: int)
    requires Coupling(adj, m) && Sealed(adj, m, outer, inner)
    requires 0 <= x < |adj| && cur in adj[x] && cur !in outer && cur !in inner && x !in inner
    ensures x !in outer
    ensures m[x] != -1 ==> 0 <= m[x] < |adj| && m[x] !in outer && m[x] !in inner
  {
    OuterNeighbourInner(adj, m, outer, inner, x, cur);
    assert Coupled(adj, m, x);
    if m[x] != -1 {
      assert Coupled(adj, m, m[x]);
      OuterNeighbourInner(adj, m, outer, inner, m[x], x);
    }
  }

  lemma SwapMatches(m0: seq<int>, m: seq<int>, u: int, cur: int, x: int)
    requires |m0| == |m| && 0 <= u < |m| && 0 <= cur < |m| && 0 <= x < |m| && MatchedAlong(m0, m, u, cur)
    requires 0 <= m[x] < |m| && m[x] != u && m0[x] == m[x] && m0[m[x]] != -1
    ensures MatchedAlong(m0, m[cur := x][x := cur], u, m[x])
  {
  }

  lemma SwapOutside(adj: Graph, m0: seq<int>, m: seq<int>, outer: set<int>, inner: set<int>, cur: int, x: int)
    requires Coupling(adj, m0) && Sealed(adj, m0, outer, inner) && |m| == |adj| && 0 <= cur < |m|
    requires 0 <= x < |adj| && cur in adj[x] && x !in inner && m0[x] == m[x] != -1
    requires Untouched(m0, m, cur, outer, inner)
    ensures Untouched(m0, m[cur := x][x := cur], m[x], outer, inner)
  {
    assert cur !in outer && cur !in inner;
    TraceStaysOutside(adj, m0, outer, inner, cur, x);
    hide Coupling, Sealed;
  }

  lemma CoupledMate(adj: Graph, m: seq<int>, cur: int, x: int)
    requires |m| == |adj| && 0 <= x < |adj| && CoupledBut(adj, m, cur) && x != cur && m[x] != -1
    ensures 0 <= m[x] < |adj| && m[m[x]] == x && m[x] in adj[x] && m[x] != cur
  {
  }

  lemma MateOfOuter(adj: Graph, m: seq<int>, colour: seq<bool>, s: int,
                    labels: seq<int>, pred: seq<int>, depth: seq<nat>, x: int)
    requires |m| == |colour| == |adj| && Tree(adj, m, colour, s, labels, pred, depth)
    requires 0 <= x < |adj| && labels[x] == 1 && m[x] != -1
    ensures 0 <= m[x] < |adj| && labels[m[x]] == -1 && depth[m[x]] == depth[x] && m[m[x]] != -1
    ensures var p := pred[m[x]];
            0 <= p < |adj| && labels[p] == 1 && m[x] in adj[p] && depth[x] == depth[p] + 1
  {
  }

  /** Giving x to cur leaves only x's old mate y out of place. */
  lemma SwapCouples(adj: Graph, m: seq<int>, cur: int, x: int)
    requires |m| == |adj| && 0 <= cur < |adj| && 0 <= x < |adj| && cur != x
    requires cur in adj[x] && x in adj[cur] && 0 <= m[x] < |adj| && m[x] != x
    requires CoupledBut(adj, m, cur)
    ensures CoupledBut(adj, m[cur := x][x := cur], m[x])
  {
  }

  lemma EdgeBack(adj: Graph, x: int, cur: int)
    requires Simple(adj) && 0 <= x < |adj| && cur in adj[x]
    ensures 0 <= cur < |adj| && cur != x && x in adj[cur]
  {
  }

  lemma TraceSteps(adj: Graph, colour: seq<bool>, s: int, m0: seq<int>, m: seq<int>, u: int, labels: seq<int>,
                   pred0: seq<int>, pred: seq<int>, depth: seq<nat>, cur: int, outer: set<int>, inner: set<int>)
    requires Simple(adj) && Coupling(adj, m0) && |colour| == |m| == |adj|
    requires Tree(adj, m0, colour, s, labels, pred0, depth) && Sealed(adj, m0, outer, inner)
    requires 0 <= u < |adj| && m0[u] == -1 && labels[u] == 0 && |pred| == |adj|
    requires forall w :: 0 <= w < |adj| && w != u ==> pred[w] == pred0[w]
    requires Tracing(adj, m0, m, u, labels, pred, depth, cur, outer, inner)
    requires m[pred[cur]] != -1
    ensures var x := pred[cur]; var y := m[x]; var m' := m[cur := x][x := cur];
            && 0 <= y < |adj| && depth[pred[y]] < depth[x]
            && Tracing(adj, m0, m', u, labels, pred, depth, y, outer, inner)
  {
    var x := pred[cur];
    var y := m[x];
    var m' := m[cur := x][x := cur];
    hide Simple, Sealed, Coupling, Coupled, CoupledBut, MatchedAlong, Untouched, Tree;
    EdgeBack(adj, x, cur);
    CoupledMate(adj, m, cur, x);
    EdgeBack(adj, x, y);
    MateOfOuter(adj, m0, colour, s, labels, pred0, depth, x);
    assert y != u && pred[y] == pred0[y];
    SwapCouples(adj, m, cur, x);
    SwapMatches(m0, m, u, cur, x);
    OuterAvoidsInner(adj, m0, colour, s, labels, pred0, depth, outer, inner, x);
    SwapOutside(adj, m0, m, outer, inner, cur, x);
  }

  /** The trace reaches the root: everything is in place again, with u and s matched as well. */
  lemma TraceEnds(adj: Graph, colour: seq<bool>, s: int, m0: seq<int>, m: seq<int>, u: int, labels: seq<int>,
                  pred0: seq<int>, pred: seq<int>, depth: seq<nat>, cur: int, outer: set<int>, inner: set<int>)
    requires Simple(adj) && Coupling(adj, m0) && |colour| == |m| == |adj|
    requires Tree(adj, m0, colour, s, labels, pred0, depth) && Sealed(adj, m0, outer, inner)
    requires |pred| == |adj|
    requires Tracing(adj, m0, m, u, labels, pred, depth, cur, outer, inner)
    requires m[pred[cur]] == -1
    ensures var m' := m[cur := pred[cur]][pred[cur] := cur];
            && Coupling(adj, m')
            && (forall w :: 0 <= w < |adj| ==> (m'[w] != -1 <==> m0[w] != -1 || w == u || w == s))
            && Sealed(adj, m', outer, inner)
  {
    var x := pred[cur];
    var m' := m[cur := x][x := cur];
    OuterAvoidsInner(adj, m0, colour, s, labels, pred0, depth, outer, inner, x);
    TraceStaysOutside(adj, m0, outer, inner, cur, x);
    EdgeBack(adj, x, cur);
    assert x == s;
    forall w | 0 <= w < |adj| ensures Coupled(adj, m', w) {
      assert w != cur ==> Coupled(adj, m, w);
    }
  }

  /** Matching u and s, of different colours, adds one to the matched vertices of each colour. */
  lemma OneMoreColoured(m0: seq<int>, m: seq<int>, colour: seq<bool>, u: int, s: int)
    requires |m0| == |m| == |colour| && 0 <= u < |m| && 0 <= s < |m| && colour[u] != colour[s]
    requires m0[u] == -1 && m0[s] == -1
    requires forall w :: 0 <= w < |m| ==> (m[w] != -1 <==> m0[w] != -1 || w == u || w == s)
    ensures |Coloured(m, colour)| == |Coloured(m0, colour)| + 1
  {
    var t := if colour[u] then u else s;
    assert Coloured(m, colour) == Coloured(m0, colour) + {t};
  }
}
