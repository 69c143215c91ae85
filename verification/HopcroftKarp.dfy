/** src/hopcroft_karp.cpp: breadth-first layering, depth-first augmentation, the phase loop. */
module HopcroftKarp {
  import opened Sequences
  import opened BipartiteMatching
  import opened Layers

  // ---- the bfs queue ----

  /** The queue holds distinct discovered men in layer order, spanning layers base and base + 1. */
  ghost predicate Frontier(d: seq<int>, q: seq<int>, base: int) {
    && (forall i :: 0 <= i < |q| ==> 0 <= q[i] < |d| && base <= d[q[i]] <= base + 1 && d[q[i]] < INF)
    && (forall i, j :: 0 <= i < j < |q| ==> q[i] != q[j] && d[q[i]] <= d[q[j]])
  }

  /** Man a's first i edges lead to free women or to men at most one layer further. */
  ghost predicate EdgesDone(adj: Adjacency, mr: seq<int>, d: seq<int>, a: int, i: int)
    requires 0 <= a < |adj| == |d| && i <= |adj[a]|
  {
    forall j :: 0 <= j < i && 0 <= adj[a][j] < |mr| && 0 <= mr[adj[a][j]] < |d| ==> d[mr[adj[a][j]]] <= d[a] + 1
  }

  /** Discovered men that have left the queue, other than cur, are finished and not below base. */
  ghost predicate Explored(adj: Adjacency, mr: seq<int>, d: seq<int>, q: seq<int>, cur: int, base: int)
    requires |adj| == |d|
  {
    forall a :: 0 <= a < |d| && d[a] < INF && a !in q && a != cur ==>
      d[a] <= base && EdgesDone(adj, mr, d, a, |adj[a]|)
  }

  ghost predicate SeesFreeWithin(adj: Adjacency, mr: seq<int>, a: int, i: int)
    requires 0 <= a < |adj| && i <= |adj[a]|
  {
    exists j :: 0 <= j < i && 0 <= adj[a][j] < |mr| && mr[adj[a][j]] == -1
  }

  /** `found` says whether a finished man, or cur within its first i edges, sees a free woman. */
  ghost predicate FoundSoFar(adj: Adjacency, mr: seq<int>, d: seq<int>, q: seq<int>, cur: int, i: int, found: bool)
    requires |adj| == |d| && (0 <= cur < |adj| ==> i <= |adj[cur]|)
  {
    found <==> exists a :: 0 <= a < |d| && d[a] < INF && a !in q &&
                 (if a == cur then SeesFreeWithin(adj, mr, a, i) else SeesFree(adj, mr, a))
  }

  ghost function Unseen(d: seq<int>): (r: set<int>)
    ensures forall a :: a in r <==> 0 <= a < |d| && d[a] == INF
  {
    set a | a in Range(|d|) && d[a] == INF
  }

  ghost predicate Searching(adj: Adjacency, right: nat, ml: seq<int>, mr: seq<int>, d: seq<int>, q: seq<int>,
                            base: int, cur: int, i: int, found: bool)
    requires Graph(adj, right)
  {
    && Consistent(adj, right, ml, mr) && Rooted(adj, ml, d)
    && Frontier(d, q, base)
    && Explored(adj, mr, d, q, cur, base)
    && -1 <= cur < |adj| && (cur >= 0 ==> 0 <= i <= |adj[cur]| && d[cur] == base < INF && cur !in q)
    && (cur >= 0 ==> EdgesDone(adj, mr, d, cur, i))
    && FoundSoFar(adj, mr, d, q, cur, i, found)
  }

  lemma PopStarts(adj: Adjacency, right: nat, ml: seq<int>, mr: seq<int>, d: seq<int>, q: seq<int>,
                  base: int, found: bool)
    requires Graph(adj, right) && Searching(adj, right, ml, mr, d, q, base, -1, 0, found) && q != []
    ensures 0 <= q[0] < |d| && d[q[0]] < INF
    ensures Searching(adj, right, ml, mr, d, q[1..], d[q[0]], q[0], 0, found)
  {
    var a := q[0];
    assert forall x :: x in q <==> x == a || x in q[1..];
    assert a in q;
  }

  lemma EdgeToFree(adj: Adjacency, right: nat, ml: seq<int>, mr: seq<int>, d: seq<int>, q: seq<int>,
                   base: int, a: int, i: int, found: bool)
    requires Graph(adj, right) && Searching(adj, right, ml, mr, d, q, base, a, i, found)
    requires a >= 0 && i < |adj[a]| && mr[adj[a][i]] == -1
    ensures Searching(adj, right, ml, mr, d, q, base, a, i + 1, true)
  {
  }

  lemma EdgeToSeen(adj: Adjacency, right: nat, ml: seq<int>, mr: seq<int>, d: seq<int>, q: seq<int>,
                   base: int, a: int, i: int, found: bool)
    requires Graph(adj, right) && Searching(adj, right, ml, mr, d, q, base, a, i, found)
    requires a >= 0 && i < |adj[a]| && mr[adj[a][i]] != -1 && d[mr[adj[a][i]]] != INF
    ensures Searching(adj, right, ml, mr, d, q, base, a, i + 1, found)
  {
  }

  lemma ParentStays(adj: Adjacency, ml: seq<int>, d: seq<int>, layer: int, x: int, p: int, a2: int)
    requires |ml| == |d| == |adj| && 0 <= x < |adj| && Parent(adj, ml, d, x, p)
    requires 0 <= a2 < |d| && d[a2] == INF && x != a2 && d[x] <= INF
    ensures Parent(adj, ml, d[a2 := layer], x, p)
  {
  }

  lemma DiscoverKeepsRooted(adj: Adjacency, ml: seq<int>, d: seq<int>, a: int, a2: int)
    requires Rooted(adj, ml, d) && 0 <= a < |d| && d[a] + 1 < INF
    requires 0 <= a2 < |d| && d[a2] == INF && ml[a2] in adj[a]
    ensures Rooted(adj, ml, d[a2 := d[a] + 1])
  {
    var d' := d[a2 := d[a] + 1];
    assert Parent(adj, ml, d', a2, a);
    forall x | 0 <= x < |d| && 0 < d'[x] < INF ensures exists p :: Parent(adj, ml, d', x, p) {
      if x != a2 {
        var p :| Parent(adj, ml, d, x, p);
        ParentStays(adj, ml, d, d[a] + 1, x, p, a2);
      }
    }
  }

  lemma DiscoverKeepsExplored(adj: Adjacency, mr: seq<int>, d: seq<int>, q: seq<int>, a: int, a2: int, base: int)
    requires |adj| == |d| && 0 <= a < |d| && 0 <= a2 < |d| && d[a2] == INF && d[a] + 1 < INF
    requires Explored(adj, mr, d, q, a, base)
    ensures Explored(adj, mr, d[a2 := d[a] + 1], q + [a2], a, base)
  {
  }

  lemma DiscoverKeepsFound(adj: Adjacency, mr: seq<int>, d: seq<int>, q: seq<int>, a: int, i: int, a2: int, found: bool)
    requires |adj| == |d| && 0 <= a < |d| && 0 <= i <= |adj[a]| && 0 <= a2 < |d| && d[a2] == INF && d[a] + 1 < INF
    requires FoundSoFar(adj, mr, d, q, a, i, found)
    ensures FoundSoFar(adj, mr, d[a2 := d[a] + 1], q + [a2], a, i, found)
  {
  }

  lemma DiscoverKeepsFrontier(d: seq<int>, q: seq<int>, base: int, a: int, a2: int)
    requires 0 <= a < |d| && 0 <= a2 < |d| && d[a2] == INF && d[a] == base && base + 1 < INF
    requires Frontier(d, q, base)
    ensures Frontier(d[a2 := d[a] + 1], q + [a2], base)
  {
  }

  lemma DiscoverKeepsEdges(adj: Adjacency, mr: seq<int>, d: seq<int>, a: int, i: int, a2: int)
    requires 0 <= a < |adj| == |d| && 0 <= i < |adj[a]| && 0 <= adj[a][i] < |mr| && mr[adj[a][i]] == a2
    requires 0 <= a2 < |d| && d[a2] == INF && d[a] + 1 < INF && EdgesDone(adj, mr, d, a, i)
    ensures EdgesDone(adj, mr, d[a2 := d[a] + 1], a, i + 1)
  {
  }

  lemma UnseenShrinks(d: seq<int>, a2: int, x: int)
    requires 0 <= a2 < |d| && d[a2] == INF && x < INF
    ensures |Unseen(d[a2 := x])| < |Unseen(d)|
  {
    assert Unseen(d) == Unseen(d[a2 := x]) + {a2};
  }

  lemma NextEdgeKeepsFound(adj: Adjacency, mr: seq<int>, d: seq<int>, q: seq<int>, a: int, i: int, found: bool)
    requires |adj| == |d| && 0 <= a < |d| && 0 <= i < |adj[a]|
    requires 0 <= adj[a][i] < |mr| && mr[adj[a][i]] != -1
    requires FoundSoFar(adj, mr, d, q, a, i, found)
    ensures FoundSoFar(adj, mr, d, q, a, i + 1, found)
  {
  }

  lemma Discover(adj: Adjacency, right: nat, ml: seq<int>, mr: seq<int>, d: seq<int>, q: seq<int>,
                 base: int, a: int, i: int, found: bool)
    requires Graph(adj, right) && Searching(adj, right, ml, mr, d, q, base, a, i, found)
    requires |adj| < INF && a >= 0 && i < |adj[a]| && mr[adj[a][i]] != -1 && d[mr[adj[a][i]]] == INF
    ensures d[a] + 1 < INF
    ensures var a2 := mr[adj[a][i]];
            && Searching(adj, right, ml, mr, d[a2 := d[a] + 1], q + [a2], base, a, i + 1, found)
            && |Unseen(d[a2 := d[a] + 1])| < |Unseen(d)|
  {
    hide Explored, FoundSoFar, EdgesDone, Frontier, Unseen;
    var a2 := mr[adj[a][i]];
    LayerBelowLeft(adj, ml, d, a);
    DiscoverKeepsRooted(adj, ml, d, a, a2);
    hide Rooted;
    DiscoverKeepsFrontier(d, q, base, a, a2);
    DiscoverKeepsExplored(adj, mr, d, q, a, a2, base);
    DiscoverKeepsEdges(adj, mr, d, a, i, a2);
    UnseenShrinks(d, a2, d[a] + 1);
    DiscoverKeepsFound(adj, mr, d, q, a, i, a2, found);
    NextEdgeKeepsFound(adj, mr, d[a2 := d[a] + 1], q + [a2], a, i, found);
  }

  lemma FinishMan(adj: Adjacency, right: nat, ml: seq<int>, mr: seq<int>, d: seq<int>, q: seq<int>,
                  base: int, a: int, found: bool)
    requires Graph(adj, right) && a >= 0 && a < |adj|
    requires Searching(adj, right, ml, mr, d, q, base, a, |adj[a]|, found)
    ensures Searching(adj, right, ml, mr, d, q, base, -1, 0, found)
  {
  }

  lemma SearchEnds(adj: Adjacency, right: nat, ml: seq<int>, mr: seq<int>, d: seq<int>, base: int, found: bool)
    requires Graph(adj, right) && Searching(adj, right, ml, mr, d, [], base, -1, 0, found)
    ensures Layered(adj, right, ml, mr, d)
    ensures found <==> exists a :: 0 <= a < |adj| && d[a] < INF && SeesFree(adj, mr, a)
  {
  }

  lemma SearchStarts(adj: Adjacency, right: nat, ml: seq<int>, mr: seq<int>, d: seq<int>, q: seq<int>)
    requires Graph(adj, right) && Consistent(adj, right, ml, mr) && |d| == |adj|
    requires forall a :: 0 <= a < |d| ==> d[a] == if ml[a] == -1 then 0 else INF
    requires Injection(q, |d|) && forall a :: 0 <= a < |d| ==> (a in q <==> ml[a] == -1)
    ensures Searching(adj, right, ml, mr, d, q, 0, -1, 0, false)
  {
  }

  // ---- shortest paths and phases ----

  /** The first layer that sees a free woman. */
  lemma FirstLayer(adj: Adjacency, mr: seq<int>, d: seq<int>, a0: int) returns (a: int)
    requires |d| == |adj| && 0 <= a0 < |adj| && SeesFree(adj, mr, a0)
    requires forall x :: 0 <= x < |d| ==> d[x] >= 0
    ensures 0 <= a < |adj| && SeesFree(adj, mr, a) && d[a] <= d[a0]
    ensures forall x :: 0 <= x < |adj| && d[x] < d[a] ==> !SeesFree(adj, mr, x)
    decreases d[a0]
  {
    if x :| 0 <= x < |adj| && d[x] < d[a0] && SeesFree(adj, mr, x) {
      a := FirstLayer(adj, mr, d, x);
    } else {
      a := a0;
    }
  }

  /** From a free man down the layers to man a, one layer at a time. */
  lemma {:induction false} DownTo(adj: Adjacency, right: nat, ml: seq<int>, mr: seq<int>, d: seq<int>, a: int)
    returns (xs: seq<int>, ys: seq<int>)
    requires Consistent(adj, right, ml, mr) && Rooted(adj, ml, d) && 0 <= a < |adj| && d[a] < INF
    ensures |xs| == d[a] + 1 && |ys| == d[a]
    ensures forall i :: 0 <= i < |xs| ==> 0 <= xs[i] < |adj| && d[xs[i]] == i
    ensures ml[xs[0]] == -1 && xs[|xs| - 1] == a
    ensures forall i :: 0 <= i < |ys| ==> 0 <= ys[i] < right && ys[i] in adj[xs[i]] && mr[ys[i]] == xs[i + 1]
    decreases d[a]
  {
    if d[a] == 0 {
      xs, ys := [a], [];
    } else {
      var p :| Parent(adj, ml, d, a, p);
      assert ml[a] != -1 && 0 <= ml[a] < right && mr[ml[a]] == a;
      hide Consistent, Rooted;
      var xs', ys' := DownTo(adj, right, ml, mr, d, p);
      assert ml[a] in adj[xs'[|xs'| - 1]];
      xs, ys := xs' + [a], ys' + [ml[a]];
    }
  }

  /** From a free man along edges and matched pairs: man, woman, man, ..., man. */
  ghost predicate WalkOfMen(adj: Adjacency, ml: seq<int>, mr: seq<int>, xs: seq<int>, ys: seq<int>)
    requires |ml| == |adj|
  {
    && |xs| == |ys| + 1
    && (forall i :: 0 <= i < |xs| ==> 0 <= xs[i] < |adj|)
    && ml[xs[0]] == -1
    && (forall i :: 0 <= i < |ys| ==> 0 <= ys[i] < |mr| && ys[i] in adj[xs[i]] && mr[ys[i]] == xs[i + 1])
  }

  lemma {:induction false} NoShorterWalk(adj: Adjacency, right: nat, ml: seq<int>, mr: seq<int>, d: seq<int>,
                                         xs: seq<int>, ys: seq<int>, i: nat)
    requires Graph(adj, right) && Layered(adj, right, ml, mr, d) && |adj| < INF
    requires WalkOfMen(adj, ml, mr, xs, ys) && i < |xs|
    ensures d[xs[i]] < INF && d[xs[i]] <= i
  {
    if i > 0 {
      NoShorterWalk(adj, right, ml, mr, d, xs, ys, i - 1);
      var j :| 0 <= j < |adj[xs[i - 1]]| && adj[xs[i - 1]][j] == ys[i - 1];
      assert mr[ys[i - 1]] == xs[i - 1 + 1];
      LayerBelowLeft(adj, ml, d, xs[i - 1]);
    }
  }

  /** The layers are exact distances: a man in a finite layer is at the end of a walk of that many
      steps and of none shorter, and a man at INF is at the end of no walk at all. */
  lemma LayersAreDistances(adj: Adjacency, right: nat, ml: seq<int>, mr: seq<int>, d: seq<int>, a: int)
    requires Graph(adj, right) && Layered(adj, right, ml, mr, d) && |adj| < INF && 0 <= a < |adj|
    ensures |d| == |ml| == |adj|
    ensures d[a] < INF ==> exists xs, ys :: WalkOfMen(adj, ml, mr, xs, ys) && xs[|ys|] == a && |ys| == d[a]
    ensures forall xs, ys :: WalkOfMen(adj, ml, mr, xs, ys) && xs[|ys|] == a ==> d[a] <= |ys| && d[a] < INF
  {
    if d[a] < INF {
      var xs, ys := DownTo(adj, right, ml, mr, d, a);
      assert WalkOfMen(adj, ml, mr, xs, ys);
    }
    forall xs, ys | WalkOfMen(adj, ml, mr, xs, ys) && xs[|ys|] == a ensures d[a] <= |ys| && d[a] < INF {
      NoShorterWalk(adj, right, ml, mr, d, xs, ys, |ys|);
    }
  }

  /** A man in layer d[a] who sees a free woman ends an augmenting path of d[a] + 1 men. */
  lemma LayerGivesPath(adj: Adjacency, right: nat, ml: seq<int>, mr: seq<int>, d: seq<int>, a: int)
    returns (xs: seq<int>, ys: seq<int>)
    requires Graph(adj, right) && Layered(adj, right, ml, mr, d) && 0 <= a < |adj| && d[a] < INF
    requires SeesFree(adj, mr, a)
    ensures Augmenting(adj, ml, mr, xs, ys) && |xs| == d[a] + 1
  {
    var i :| 0 <= i < |adj[a]| && 0 <= adj[a][i] < |mr| && mr[adj[a][i]] == -1;
    var ys';
    xs, ys' := DownTo(adj, right, ml, mr, d, a);
    hide Layered, SeesFree;
    ys := ys' + [adj[a][i]];
    assert adj[a][i] in adj[a];
  }

  // ---- dfs ----

  /** Man a reaches a free woman b directly. */
  lemma DirectPath(adj: Adjacency, right: nat, ml: seq<int>, mr: seq<int>, d: seq<int>, L: nat,
                   dist: seq<int>, iter: seq<nat>, a: int)
    requires Graph(adj, right) && Phase(adj, right, ml, mr, d, L, dist, iter)
    requires 0 <= a < |adj| && iter[a] < |adj[a]| && dist[a] == d[a] < INF
    requires mr[adj[a][iter[a]]] == -1
    ensures LayeredPath(adj, mr, d, dist, [a], [adj[a][iter[a]]])
  {
  }

  /** Man a reaches a free woman through b and the path of the man who holds her. */
  lemma LongerPath(adj: Adjacency, right: nat, ml: seq<int>, mr: seq<int>, d: seq<int>,
                   dist: seq<int>, a: int, b: int, xs: seq<int>, ys: seq<int>)
    requires Graph(adj, right) && LayeredPath(adj, mr, d, dist, xs, ys)
    requires 0 <= a < |adj| && b in adj[a] && 0 <= b < |mr| && mr[b] == xs[0]
    requires d[xs[0]] == d[a] + 1 && dist[a] == d[a] < INF
    ensures LayeredPath(adj, mr, d, dist, [a] + xs, [b] + ys)
  {
    var xs', ys' := [a] + xs, [b] + ys;
    forall i | 0 <= i < |xs'| - 1 ensures mr[ys'[i]] == xs'[i + 1] {
      assert i > 0 ==> mr[ys[i - 1]] == xs[i - 1 + 1];
    }
  }

  /** The writes of the caller's frame on top of the callee's are the writes of the longer path. */
  lemma WriteOnTop(m: seq<int>, x: int, y: int, xs: seq<int>, ys: seq<int>)
    requires |xs| == |ys| && 0 <= x < |m| && forall i :: 0 <= i < |xs| ==> 0 <= xs[i] < |m|
    ensures forall i :: 0 <= i < |[x] + xs| ==> 0 <= ([x] + xs)[i] < |m|
    ensures Write(m, [x] + xs, [y] + ys) == Write(m, xs, ys)[x := y]
  {
  }

  // ---- counting edge inspections ----

  function Degrees(adj: Adjacency): (r: seq<int>)
    ensures |r| == |adj| && forall a :: 0 <= a < |r| ==> r[a] == |adj[a]|
  {
    seq(|adj|, a requires 0 <= a < |adj| => |adj[a]|)
  }

  function Edges(adj: Adjacency): int {
    Sum(Degrees(adj))
  }

  /** Degrees of the men who have been discovered and have left the queue. */
  function ExploredDegrees(adj: Adjacency, d: seq<int>, q: seq<int>): (r: seq<int>)
    requires |d| == |adj|
    ensures |r| == |adj|
    ensures forall a :: 0 <= a < |r| ==> r[a] == if d[a] < INF && a !in q then |adj[a]| else 0
  {
    seq(|adj|, a requires 0 <= a < |adj| => if d[a] < INF && a !in q then |adj[a]| else 0)
  }

  lemma PopExplores(adj: Adjacency, d: seq<int>, q: seq<int>, base: int)
    requires |d| == |adj| && q != [] && Frontier(d, q, base)
    ensures 0 <= q[0] < |adj|
    ensures Sum(ExploredDegrees(adj, d, q[1..])) == Sum(ExploredDegrees(adj, d, q)) + |adj[q[0]]|
  {
    var a := q[0];
    assert forall x :: x in q <==> x == a || x in q[1..];
    assert ExploredDegrees(adj, d, q[1..]) == ExploredDegrees(adj, d, q)[a := |adj[a]|];
    SumUpdate(ExploredDegrees(adj, d, q), a, |adj[a]|);
  }

  lemma DiscoverExploresNobody(adj: Adjacency, d: seq<int>, q: seq<int>, a2: int, x: int)
    requires |d| == |adj| && 0 <= a2 < |d| && d[a2] == INF && x < INF
    ensures ExploredDegrees(adj, d[a2 := x], q + [a2]) == ExploredDegrees(adj, d, q)
  {
  }

  lemma NobodyExplored(adj: Adjacency, ml: seq<int>, d: seq<int>, q: seq<int>)
    requires |d| == |ml| == |adj| && forall a :: 0 <= a < |d| ==> d[a] == if ml[a] == -1 then 0 else INF
    requires forall a :: 0 <= a < |d| ==> (a in q <==> ml[a] == -1)
    ensures Sum(ExploredDegrees(adj, d, q)) == 0
  {
    SumZero(ExploredDegrees(adj, d, q));
  }

  /** Each addCompatiblePair is one edge more. */
  lemma OneMoreEdge(adj: Adjacency, a: nat, b: nat)
    requires a < |adj|
    ensures Edges(adj[a := adj[a] + [b]]) == Edges(adj) + 1
  {
    SumUpdate(Degrees(adj), a, |adj[a]| + 1);
    assert Degrees(adj[a := adj[a] + [b]]) == Degrees(adj)[a := |adj[a]| + 1];
  }

  lemma NoEdgesAtAll(adj: Adjacency)
    requires forall a :: 0 <= a < |adj| ==> adj[a] == []
    ensures Edges(adj) == 0
  {
    SumZero(Degrees(adj));
  }

  lemma ExploredAtMostEdges(adj: Adjacency, d: seq<int>, q: seq<int>)
    requires |d| == |adj|
    ensures 0 <= Sum(ExploredDegrees(adj, d, q)) <= Edges(adj)
  {
    SumMonotone(ExploredDegrees(adj, d, q), Degrees(adj));
    SumMonotone(seq(|adj|, _ => 0), ExploredDegrees(adj, d, q));
    SumZero(seq(|adj|, _ => 0));
  }

  lemma PopPrepays(adj: Adjacency, right: nat, ml: seq<int>, mr: seq<int>, d: seq<int>, q: seq<int>,
                   base: int, found: bool)
    requires Graph(adj, right) && Searching(adj, right, ml, mr, d, q, base, -1, 0, found) && q != []
    ensures |d| == |adj| && 0 <= q[0] < |adj|
    ensures Sum(ExploredDegrees(adj, d, q[1..])) == Sum(ExploredDegrees(adj, d, q)) + |adj[q[0]]|
  {
    PopExplores(adj, d, q, base);
  }

  /** How far man a's edge pointer has come, in half steps: he may be matched along the edge it is at. */
  function HalfSteps(adj: Adjacency, ml: seq<int>, iter: seq<nat>): (r: seq<int>)
    requires |ml| == |iter| == |adj|
    ensures |r| == |adj|
    ensures forall a :: 0 <= a < |r| ==>
              r[a] == 2 * iter[a] + if iter[a] < |adj[a]| && ml[a] == adj[a][iter[a]] then 1 else 0
  {
    seq(|adj|, a requires 0 <= a < |adj| =>
      2 * iter[a] + if iter[a] < |adj[a]| && ml[a] == adj[a][iter[a]] then 1 else 0)
  }

  /** Half steps made beyond the inspections done: dfs never lets it fall. */
  function Credit(adj: Adjacency, ml: seq<int>, iter: seq<nat>, inspected: nat): int
    requires |ml| == |iter| == |adj|
  {
    Sum(HalfSteps(adj, ml, iter)) - inspected
  }

  lemma InspectCosts(adj: Adjacency, ml: seq<int>, iter: seq<nat>, inspected: nat)
    requires |ml| == |iter| == |adj|
    ensures Credit(adj, ml, iter, inspected + 1) == Credit(adj, ml, iter, inspected) - 1
  {
  }

  /** Passing over an edge pays for its inspection. */
  lemma AdvancePays(adj: Adjacency, ml: seq<int>, iter: seq<nat>, inspected: nat, a: int)
    requires |ml| == |iter| == |adj| && 0 <= a < |adj|
    ensures Credit(adj, ml, iter[a := iter[a] + 1], inspected) >= Credit(adj, ml, iter, inspected) + 1
  {
    var h, h' := HalfSteps(adj, ml, iter), HalfSteps(adj, ml, iter[a := iter[a] + 1]);
    assert h' == h[a := h'[a]];
    SumUpdate(h, a, h'[a]);
  }

  /** So does matching along it, once: from then on the pointer stands at a matched edge. */
  lemma MatchPays(adj: Adjacency, ml: seq<int>, iter: seq<nat>, inspected: nat, a: int)
    requires |ml| == |iter| == |adj| && 0 <= a < |adj| && iter[a] < |adj[a]| && ml[a] != adj[a][iter[a]]
    ensures Credit(adj, ml[a := adj[a][iter[a]]], iter, inspected) == Credit(adj, ml, iter, inspected) + 1
  {
    var h, h' := HalfSteps(adj, ml, iter), HalfSteps(adj, ml[a := adj[a][iter[a]]], iter);
    assert h' == h[a := h'[a]];
    SumUpdate(h, a, h'[a]);
  }

  /** A pointer makes at most two half steps for each edge of its man. */
  lemma HalfStepsBounded(adj: Adjacency, ml: seq<int>, iter: seq<nat>)
    requires |ml| == |iter| == |adj| && forall a :: 0 <= a < |adj| ==> iter[a] <= |adj[a]|
    ensures 0 <= Sum(HalfSteps(adj, ml, iter)) <= 2 * Edges(adj)
  {
    var twice := seq(|adj|, a requires 0 <= a < |adj| => 2 * |adj[a]|);
    SumMonotone(HalfSteps(adj, ml, iter), twice);
    SumPlus(Degrees(adj), Degrees(adj), twice);
    SumMonotone(seq(|adj|, _ => 0), HalfSteps(adj, ml, iter));
    SumZero(seq(|adj|, _ => 0));
  }

  lemma CreditSpent(adj: Adjacency, right: nat, ml: seq<int>, mr: seq<int>, d: seq<int>, L: nat,
                    dist: seq<int>, iter: seq<nat>, inspected: nat,
                    ml0: seq<int>, iter0: seq<nat>, inspected0: nat)
    requires Graph(adj, right) && Phase(adj, right, ml, mr, d, L, dist, iter)
    requires |ml0| == |iter0| == |adj| && forall a :: 0 <= a < |adj| ==> iter0[a] <= |adj[a]|
    requires |ml| == |iter| == |adj|
    requires Credit(adj, ml, iter, inspected) >= Credit(adj, ml0, iter0, inspected0)
    ensures inspected <= inspected0 + 2 * Edges(adj)
  {
    hide PhaseMatching, TriedAreExhausted, Sum;
    HalfStepsBounded(adj, ml, iter);
    HalfStepsBounded(adj, ml0, iter0);
  }

  lemma NotHolding(adj: Adjacency, right: nat, ml: seq<int>, mr: seq<int>, a: int, b: int)
    requires Consistent(adj, right, ml, mr) && 0 <= a < |adj| && 0 <= b < |mr| && mr[b] != a
    ensures |ml| == |adj| && ml[a] != b
  {
  }

  /** Nobody on a path from the layer below a is a. */
  lemma BelowCaller(adj: Adjacency, mr: seq<int>, d: seq<int>, dist: seq<int>, a: int, xs: seq<int>, ys: seq<int>)
    requires LayeredPath(adj, mr, d, dist, xs, ys) && 0 <= a < |d| && d[xs[0]] == d[a] + 1
    ensures forall i :: 0 <= i < |xs| ==> xs[i] != a
  {
  }

  /** The man a calls about is a layer further, so a's own match is as it was; and it is not the woman
      he is looking at. */
  lemma CallerUnmatchedHere(adj: Adjacency, right: nat, ml: seq<int>, mr: seq<int>, d: seq<int>,
                            dist: seq<int>, a: int, b: int, xs: seq<int>, ys: seq<int>)
    requires Consistent(adj, right, ml, mr) && 0 <= a < |adj| == |d| && 0 <= b < |mr| && mr[b] != a
    requires |xs| == |ys| && forall i :: 0 <= i < |xs| ==> 0 <= xs[i] < |ml|
    requires xs != [] ==> LayeredPath(adj, mr, d, dist, xs, ys) && d[xs[0]] == d[a] + 1
    ensures |ml| == |adj| && Write(ml, xs, ys)[a] != b
  {
    hide Consistent, LayeredPath, Write;
    NotHolding(adj, right, ml, mr, a, b);
    if xs != [] {
      BelowCaller(adj, mr, d, dist, a, xs, ys);
    }
    WriteElsewhere(ml, xs, ys, a);
  }

  lemma PathInRange(adj: Adjacency, mr: seq<int>, d: seq<int>, dist: seq<int>, xs: seq<int>, ys: seq<int>)
    requires LayeredPath(adj, mr, d, dist, xs, ys)
    ensures |xs| == |ys| > 0
    ensures forall i :: 0 <= i < |xs| ==> 0 <= xs[i] < |adj| && 0 <= ys[i] < |mr|
  {
  }

  lemma PhaseIsConsistent(adj: Adjacency, right: nat, ml: seq<int>, mr: seq<int>, d: seq<int>, L: nat,
                          dist: seq<int>, iter: seq<nat>)
    requires Graph(adj, right) && Phase(adj, right, ml, mr, d, L, dist, iter)
    ensures Consistent(adj, right, ml, mr)
  {
  }

  lemma EmptyWrite(ml: seq<int>, mr: seq<int>)
    ensures Write(ml, [], []) == ml && Write(mr, [], []) == mr
  {
  }

  lemma SizedLikeGraph(adj: Adjacency, right: nat, ml: seq<int>, mr: seq<int>)
    requires Consistent(adj, right, ml, mr)
    ensures |ml| == |adj| && |mr| == right
  {
  }

  /** The unwinding of a successful call on man a: alone when his woman is free, or on top of the path
      that starts at the man who held her. */
  lemma PathExtends(adj: Adjacency, right: nat, ml: seq<int>, mr: seq<int>, d: seq<int>, L: nat,
                    dist: seq<int>, iter: seq<nat>, inspected: nat, a: int, xs: seq<int>, ys: seq<int>)
    requires Graph(adj, right) && Phase(adj, right, ml, mr, d, L, dist, iter)
    requires |iter| == |adj| == |d| == |dist| && 0 <= a < |adj| && iter[a] < |adj[a]| && dist[a] == d[a] < INF
    requires var b := adj[a][iter[a]];
             && 0 <= b < |mr|
             && if mr[b] == -1 then xs == ys == []
                else LayeredPath(adj, mr, d, dist, xs, ys) && mr[b] == xs[0] && d[xs[0]] == d[a] + 1
    ensures |xs| == |ys| && |ml| == |adj| && LayeredPath(adj, mr, d, dist, [a] + xs, [adj[a][iter[a]]] + ys)
    ensures forall i :: 0 <= i < |xs| ==> 0 <= xs[i] < |ml| && 0 <= ys[i] < |mr|
    ensures var b := adj[a][iter[a]];
            var xs', ys' := [a] + xs, [b] + ys;
            && (forall i :: 0 <= i < |xs'| ==> 0 <= xs'[i] < |ml| && 0 <= ys'[i] < |mr|)
            && Write(ml, xs', ys') == Write(ml, xs, ys)[a := b]
            && Write(mr, ys', xs') == Write(mr, ys, xs)[b := a]
            && Credit(adj, Write(ml, xs, ys)[a := b], iter, inspected)
               == Credit(adj, Write(ml, xs, ys), iter, inspected) + 1
  {
    hide Phase, Graph, LayeredPath, Write, Credit, Consistent;
    var b := adj[a][iter[a]];
    PhaseIsConsistent(adj, right, ml, mr, d, L, dist, iter);
    if mr[b] == -1 {
      DirectPath(adj, right, ml, mr, d, L, dist, iter, a);
      assert [a] + xs == [a] && [b] + ys == [b];
    } else {
      assert b in adj[a];
      LongerPath(adj, right, ml, mr, d, dist, a, b, xs, ys);
      PathInRange(adj, mr, d, dist, xs, ys);
    }
    PathInRange(adj, mr, d, dist, [a] + xs, [b] + ys);
    SizedLikeGraph(adj, right, ml, mr);
    WriteOnTop(ml, a, b, xs, ys);
    WriteOnTop(mr, b, a, ys, xs);
    CallerUnmatchedHere(adj, right, ml, mr, d, dist, a, b, xs, ys);
    MatchPays(adj, Write(ml, xs, ys), iter, inspected, a);
  }

  // ---- counting phases ----

  ghost predicate Growing(sizes: seq<nat>) {
    forall i, j :: 0 <= i < j < |sizes| ==> sizes[i] + (j - i) <= sizes[j]
  }

  /** After k phases no matching exceeds the current one by more than a k-th part of it. */
  ghost predicate GainsBounded(adj: Adjacency, sizes: seq<nat>) {
    forall k, w :: 0 <= k < |sizes| && IsMatching(adj, w) ==> k * (Size(w) - sizes[k]) <= sizes[k]
  }

  lemma GrowingAppend(sizes: seq<nat>, x: nat)
    requires Growing(sizes) && (sizes != [] ==> sizes[|sizes| - 1] < x)
    ensures Growing(sizes + [x])
  {
  }

  lemma EmptyStarts(adj: Adjacency, right: nat, ml: seq<int>, mr: seq<int>)
    requires |ml| == |adj| && |mr| == right
    requires (forall a :: 0 <= a < |ml| ==> ml[a] == -1) && (forall b :: 0 <= b < right ==> mr[b] == -1)
    ensures Consistent(adj, right, ml, mr) && Size(ml) == 0
    ensures NoShorterPath(adj, ml, mr, 0)
    ensures GainsBounded(adj, []) && Growing([])
  {
  }

  lemma SizeWithin(adj: Adjacency, right: nat, ml: seq<int>, mr: seq<int>)
    requires Consistent(adj, right, ml, mr)
    ensures Size(ml) <= |adj|
  {
    SizeBounded(ml);
  }

  /** If the shortest augmenting path before the phase has L men, all paths after it have more. */
  lemma StretchFromShortest(adj: Adjacency, right: nat, ml: seq<int>, mr: seq<int>, d: seq<int>, a: int,
                            ml': seq<int>, mr': seq<int>)
    requires Graph(adj, right) && Layered(adj, right, ml, mr, d)
    requires 0 <= a < |adj| == |d| && d[a] < INF && SeesFree(adj, mr, a)
    requires NoShorterPath(adj, ml', mr', d[a] + 1)
    ensures forall L: nat :: Shortest(adj, ml, mr, L) ==> NoShorterPath(adj, ml', mr', L)
  {
    var xs0, ys0 := LayerGivesPath(adj, right, ml, mr, d, a);
    forall L: nat | Shortest(adj, ml, mr, L) ensures NoShorterPath(adj, ml', mr', L) {
      assert L <= d[a] + 1;
    }
  }

  /** The first layer that sees a free woman is at least as deep as the phases already run. */
  lemma AugmentingLayer(adj: Adjacency, right: nat, ml: seq<int>, mr: seq<int>, d: seq<int>, phases: nat)
    returns (a: int)
    requires Graph(adj, right) && Layered(adj, right, ml, mr, d) && |adj| < INF
    requires exists x :: 0 <= x < |adj| && d[x] < INF && SeesFree(adj, mr, x)
    requires NoShorterPath(adj, ml, mr, phases)
    ensures 0 <= a < |adj| == |d| && SeesFree(adj, mr, a) && phases <= d[a] < |adj|
    ensures forall x :: 0 <= x < |adj| && d[x] < d[a] ==> !SeesFree(adj, mr, x)
  {
    var a0 :| 0 <= a0 < |adj| && d[a0] < INF && SeesFree(adj, mr, a0);
    a := FirstLayer(adj, mr, d, a0);
    LayerBelowLeft(adj, ml, d, a);
    var xs, ys := LayerGivesPath(adj, right, ml, mr, d, a);
  }

  lemma RecordGain(adj: Adjacency, right: nat, ml: seq<int>, mr: seq<int>, d: seq<int>, sizes: seq<nat>, matching: nat)
    requires Graph(adj, right) && Layered(adj, right, ml, mr, d) && |sizes| < INF && |d| == |adj|
    requires forall x :: 0 <= x < |adj| && d[x] < |sizes| ==> !SeesFree(adj, mr, x)
    requires GainsBounded(adj, sizes) && matching == Size(ml)
    ensures GainsBounded(adj, sizes + [matching])
  {
    var sizes' := sizes + [matching];
    forall k, w | 0 <= k < |sizes'| && IsMatching(adj, w) ensures k * (Size(w) - sizes'[k]) <= sizes'[k] {
      if k == |sizes| {
        DeficiencyBound(adj, right, ml, mr, d, k, w);
      } else {
        assert sizes'[k] == sizes[k];
      }
    }
  }

  lemma LayerZeroMen(adj: Adjacency, right: nat, ml: seq<int>, mr: seq<int>, d: seq<int>)
    requires Graph(adj, right) && Layered(adj, right, ml, mr, d)
    ensures |d| == |ml| == |adj| && forall x :: 0 <= x < |ml| && ml[x] == -1 ==> d[x] == 0
  {
  }

  /** A phase cannot leave the matching as it was: the path its layering promised would still be
      there, and it is too short. */
  lemma SweepProgress(adj: Adjacency, right: nat, ml: seq<int>, mr: seq<int>, d: seq<int>, a: int,
                      ml': seq<int>, mr': seq<int>)
    requires Graph(adj, right) && Layered(adj, right, ml, mr, d)
    requires 0 <= a < |adj| == |d| && d[a] < INF && SeesFree(adj, mr, a)
    requires NoShorterPath(adj, ml', mr', d[a] + 1)
    ensures ml != ml' || mr != mr'
  {
    var xs, ys := LayerGivesPath(adj, right, ml, mr, d, a);
    assert Augmenting(adj, ml, mr, xs, ys);
  }

  lemma StretchToNext(adj: Adjacency, ml: seq<int>, mr: seq<int>, L: nat, phases: nat)
    requires NoShorterPath(adj, ml, mr, L + 1) && phases <= L
    ensures NoShorterPath(adj, ml, mr, phases + 1)
  {
  }

  lemma SearchFailed(adj: Adjacency, right: nat, ml: seq<int>, mr: seq<int>, d: seq<int>)
    requires Graph(adj, right) && Layered(adj, right, ml, mr, d) && |adj| < INF
    requires !exists a :: 0 <= a < |adj| && d[a] < INF && SeesFree(adj, mr, a)
    ensures forall w :: IsMatching(adj, w) ==> Size(w) <= Size(ml)
  {
    forall w | IsMatching(adj, w) ensures Size(w) <= Size(ml) {
      NoAugmentationIsMaximum(adj, right, ml, mr, d, w);
    }
  }

  /** k phases that shrink the gap to sizes[k] / k, and one couple per phase after that. */
  lemma PhasesAfter(k: nat, T: nat, sizeK: nat, sizeT: nat, left: nat)
    requires k <= T && sizeK + (T - k) <= sizeT <= left
    requires k < T ==> k * (sizeT - sizeK) <= sizeK
    ensures k * (T - k) <= left
  {
  }

  lemma TwiceRoot(s: nat, T: nat, left: nat)
    requires s * s >= left && T <= left
    requires s <= T ==> s * (T - s) <= left
    ensures T <= 2 * s
  {
  }

  lemma PhaseCount(adj: Adjacency, right: nat, ml: seq<int>, mr: seq<int>, sizes: seq<nat>, matching: nat)
    requires Consistent(adj, right, ml, mr) && matching == Size(ml)
    requires Growing(sizes + [matching]) && GainsBounded(adj, sizes)
    ensures forall s: nat :: s * s >= |adj| ==> |sizes| <= 2 * s
  {
    var T, all := |sizes|, sizes + [matching];
    SizeBounded(ml);
    ConsistentIsMatching(adj, right, ml, mr);
    assert T > 0 ==> all[0] + (T - 0) <= all[T];
    forall s: nat | s * s >= |adj| ensures T <= 2 * s {
      if s < T {
        assert all[s] + (T - s) <= all[T] && all[s] == sizes[s];
        PhasesAfter(s, T, sizes[s], matching, |adj|);
      }
      TwiceRoot(s, T, |adj|);
    }
  }

  lemma MoreWork(phases: nat, e: int)
    ensures (3 * phases) * e + 3 * e == (3 * (phases + 1)) * e
  {
  }

  lemma TimesAtMost(x: nat, y: nat, e: int)
    requires x <= y && e >= 0
    ensures x * e + e <= (y + 1) * e
  {
  }

  lemma WorkCount(adj: Adjacency, phases: nat, work: int)
    requires work <= (3 * phases) * Edges(adj) + Edges(adj)
    requires forall s: nat :: s * s >= |adj| ==> phases <= 2 * s
    ensures forall s: nat :: s * s >= |adj| ==> work <= (6 * s + 1) * Edges(adj)
  {
    ExploredAtMostEdges(adj, seq(|adj|, _ => INF), []);
    var e := Edges(adj);
    hide Edges;
    forall s: nat | s * s >= |adj| ensures work <= (6 * s + 1) * e {
      assert phases <= 2 * s;
      TimesAtMost(3 * phases, 6 * s, e);
    }
  }

  lemma DfsAugments(adj: Adjacency, right: nat, ml: seq<int>, mr: seq<int>, d: seq<int>, L: nat,
                    dist: seq<int>, iter: seq<nat>, xs: seq<int>, ys: seq<int>)
    requires Graph(adj, right) && Phase(adj, right, ml, mr, d, L, dist, iter)
    requires LayeredPath(adj, mr, d, dist, xs, ys) && ml[xs[0]] == -1
    ensures forall i :: 0 <= i < |xs| ==> 0 <= xs[i] < |ml| && 0 <= ys[i] < |mr|
    ensures Phase(adj, right, Write(ml, xs, ys), Write(mr, ys, xs), d, L, dist, iter)
    ensures Size(Write(ml, xs, ys)) == Size(ml) + 1
    ensures forall x :: 0 <= x < |ml| && Write(ml, xs, ys)[x] == -1 ==> x != xs[0] && ml[x] == -1
  {
    FlipKeepsPhase(adj, right, ml, mr, d, L, dist, iter, xs, ys);
    LayeredPathDistinct(adj, mr, d, dist, xs, ys);
    hide Phase, Graph;
    PhaseIsConsistent(adj, right, ml, mr, d, L, dist, iter);
    AugmentGrows(adj, right, ml, mr, xs, ys);
    forall x | 0 <= x < |ml| && Write(ml, xs, ys)[x] == -1 ensures x != xs[0] && ml[x] == -1 {
      assert x !in Matched(ml) + {xs[0]};
    }
  }

  lemma EdgeInRange(adj: Adjacency, right: nat, ml: seq<int>, mr: seq<int>, d: seq<int>, q: seq<int>,
                    base: int, a: int, i: int, found: bool)
    requires Graph(adj, right) && Searching(adj, right, ml, mr, d, q, base, a, i, found)
    requires 0 <= a < |adj| && 0 <= i < |adj[a]|
    ensures 0 <= adj[a][i] < |mr| && -1 <= mr[adj[a][i]] < |d| == |adj|
  {
  }

  lemma PhaseFacts(adj: Adjacency, right: nat, ml: seq<int>, mr: seq<int>, d: seq<int>, L: nat,
                   dist: seq<int>, iter: seq<nat>)
    requires Graph(adj, right) && Phase(adj, right, ml, mr, d, L, dist, iter)
    ensures |ml| == |d| == |dist| == |iter| == |adj| && |mr| == right
    ensures forall a :: 0 <= a < |adj| ==> iter[a] <= |adj[a]|
    ensures forall a :: 0 <= a < |adj| && d[a] < INF ==> d[a] < |adj|
    ensures forall a :: 0 <= a < |adj| ==> dist[a] == d[a] || dist[a] == INF
  {
  }

  lemma EdgeFacts(adj: Adjacency, right: nat, ml: seq<int>, mr: seq<int>, d: seq<int>, L: nat,
                  dist: seq<int>, iter: seq<nat>, a: int)
    requires Graph(adj, right) && Phase(adj, right, ml, mr, d, L, dist, iter) && |adj| < INF
    requires 0 <= a < |adj| && iter[a] < |adj[a]| && dist[a] == d[a] < INF
    ensures var b := adj[a][iter[a]];
            && 0 <= b < |mr| && b in adj[a] && -1 <= mr[b] < |adj| == |dist|
            && (mr[b] != -1 && dist[mr[b]] == dist[a] + 1 ==> dist[mr[b]] == d[mr[b]] < INF)
  {
  }

  class HopcroftKarp {
    const left: nat
    const right: nat
    var adj: Adjacency
    var matchLeft: seq<int>
    var matchRight: seq<int>
    var distLeft: seq<int>
    var iter: seq<nat>
    /** How many times an edge has been looked at, by bfs or by dfs. */
    ghost var inspected: nat
    /** How many times bfs has been called. */
    ghost var searches: nat

    /** Layers are stored in the same int as the INF marker, so there are fewer than INF men. */
    ghost predicate Valid()
      reads this`adj
    {
      |adj| == left < INF && Graph(adj, right)
    }

    constructor (leftSize: nat, rightSize: nat)
      requires leftSize < INF
      ensures Valid() && left == leftSize && right == rightSize
      ensures adj == seq(leftSize, _ => []) && Edges(adj) == 0
    {
      left, right := leftSize, rightSize;
      adj := seq(leftSize, _ => []);
      matchLeft := seq(leftSize, _ => -1);
      matchRight := seq(rightSize, _ => -1);
      distLeft := seq(leftSize, _ => 0);
      iter := seq(leftSize, _ => 0);
      NoEdgesAtAll(seq(leftSize, _ => []));
      inspected, searches := 0, 0;
    }

    method AddCompatiblePair(a: nat, b: nat)
      requires Valid() && a < left && b < right
      modifies this`adj
      ensures Valid() && adj == old(adj)[a := old(adj)[a] + [b]]
      ensures Edges(adj) == old(Edges(adj)) + 1
    {
      OneMoreEdge(adj, a, b);
      adj := adj[a := adj[a] + [b]];
    }

    /** The inner for loop of `bfs`. */
    method ScanMan(a: int, q: seq<int>, ghost base: int, found: bool) returns (q': seq<int>, found': bool)
      requires Valid() && 0 <= a < left && |distLeft| == left
      requires Searching(adj, right, matchLeft, matchRight, distLeft, q, base, a, 0, found)
      modifies this`distLeft, this`inspected
      ensures |distLeft| == left
      ensures inspected == old(inspected) + |adj[a]|
      ensures ExploredDegrees(adj, distLeft, q') == ExploredDegrees(adj, old(distLeft), q)
      ensures Searching(adj, right, matchLeft, matchRight, distLeft, q', base, -1, 0, found')
      ensures |Unseen(distLeft)| < |Unseen(old(distLeft))|
              || (|Unseen(distLeft)| == |Unseen(old(distLeft))| && |q'| == |q|)
    {
      hide Searching, Graph, Unseen, ExploredDegrees;
      q', found' := q, found;
      for i := 0 to |adj[a]|
        invariant |distLeft| == left && inspected == old(inspected) + i
        invariant ExploredDegrees(adj, distLeft, q') == ExploredDegrees(adj, old(distLeft), q)
        invariant Searching(adj, right, matchLeft, matchRight, distLeft, q', base, a, i, found')
        invariant |Unseen(distLeft)| < |Unseen(old(distLeft))|
                  || (|Unseen(distLeft)| == |Unseen(old(distLeft))| && |q'| == |q|)
      {
        var b := adj[a][i];
        inspected := inspected + 1;
        EdgeInRange(adj, right, matchLeft, matchRight, distLeft, q', base, a, i, found');
        var a2 := matchRight[b];
        if a2 == -1 {
          EdgeToFree(adj, right, matchLeft, matchRight, distLeft, q', base, a, i, found');
          found' := true;
        } else if distLeft[a2] == INF {
          Discover(adj, right, matchLeft, matchRight, distLeft, q', base, a, i, found');
          DiscoverExploresNobody(adj, distLeft, q', a2, distLeft[a] + 1);
          distLeft := distLeft[a2 := distLeft[a] + 1];
          q' := q' + [a2];
        } else {
          EdgeToSeen(adj, right, matchLeft, matchRight, distLeft, q', base, a, i, found');
        }
      }
      FinishMan(adj, right, matchLeft, matchRight, distLeft, q', base, a, found');
    }

    /** Layers every man reachable from a free man along alternating walks; `found` says whether a
        layered man sees a free woman. The search does not stop at the first such layer. */
    method Bfs() returns (found: bool)
      requires Valid() && Consistent(adj, right, matchLeft, matchRight)
      modifies this`distLeft, this`inspected, this`searches
      ensures Layered(adj, right, matchLeft, matchRight, distLeft)
      ensures searches == old(searches) + 1
      ensures inspected == old(inspected) + Sum(ExploredDegrees(adj, distLeft, []))
      ensures old(inspected) <= inspected <= old(inspected) + Edges(adj)
      ensures found <==> exists a :: 0 <= a < left && distLeft[a] < INF && SeesFree(adj, matchRight, a)
    {
      hide Searching, Graph, Layered, SeesFree, ExploredDegrees, Edges, Sum;
      searches := searches + 1;
      var q: seq<int> := [];
      distLeft := seq(left, _ => 0);
      for a := 0 to left
        invariant |distLeft| == left && inspected == old(inspected) && searches == old(searches) + 1
        invariant forall x :: 0 <= x < a ==> distLeft[x] == if matchLeft[x] == -1 then 0 else INF
        invariant Injection(q, left) && forall x :: 0 <= x < left ==> (x in q <==> x < a && matchLeft[x] == -1)
      {
        if matchLeft[a] == -1 {
          distLeft := distLeft[a := 0];
          q := q + [a];
        } else {
          distLeft := distLeft[a := INF];
        }
      }
      found := false;
      SearchStarts(adj, right, matchLeft, matchRight, distLeft, q);
      ghost var base := 0;
      NobodyExplored(adj, matchLeft, distLeft, q);
      while q != []
        invariant |distLeft| == left && searches == old(searches) + 1
        invariant inspected - old(inspected) == Sum(ExploredDegrees(adj, distLeft, q))
        invariant Searching(adj, right, matchLeft, matchRight, distLeft, q, base, -1, 0, found)
        decreases |Unseen(distLeft)|, |q|
      {
        var a := q[0];
        PopStarts(adj, right, matchLeft, matchRight, distLeft, q, base, found);
        PopPrepays(adj, right, matchLeft, matchRight, distLeft, q, base, found);
        q := q[1..];
        base := distLeft[a];
        q, found := ScanMan(a, q, base, found);
      }
      SearchEnds(adj, right, matchLeft, matchRight, distLeft, base, found);
      ExploredAtMostEdges(adj, distLeft, q);
    }

    /** The recursive search. d is the layering bfs left, L its first layer that sees a free woman;
        both are ghost. A call that fails kills man a and changes no match. A call that succeeds
        has augmented along a path down the layers from a, of whatever length; its caller has
        a's old woman still to deal with. Men in a's layer or above are left alone. */
    method Dfs(a: nat, ghost d: seq<int>, ghost L: nat)
      returns (r: bool, ghost xs: seq<int>, ghost ys: seq<int>)
      requires Valid() && a < left
      requires Phase(adj, right, matchLeft, matchRight, d, L, distLeft, iter)
      requires distLeft[a] == d[a] < INF && |matchLeft| == |iter| == left
      modifies this`matchLeft, this`matchRight, this`distLeft, this`iter, this`inspected
      ensures Phase(adj, right, old(matchLeft), old(matchRight), d, L, distLeft, iter)
      ensures |matchLeft| == |iter| == left
      ensures Credit(adj, matchLeft, iter, inspected) >= old(Credit(adj, matchLeft, iter, inspected))
      ensures inspected - old(inspected) == Sum(iter) - old(Sum(iter)) + |xs|
      ensures forall x :: 0 <= x < left && x != a && d[x] <= d[a] ==>
                distLeft[x] == old(distLeft[x]) && iter[x] == old(iter[x])
      ensures !r ==> matchLeft == old(matchLeft) && matchRight == old(matchRight) && distLeft[a] == INF && xs == []
      ensures r ==> LayeredPath(adj, old(matchRight), d, distLeft, xs, ys) && xs[0] == a
      ensures r ==> |xs| == |ys| > 0 && forall i :: 0 <= i < |xs| ==> 0 <= xs[i] < left && 0 <= ys[i] < right
      ensures r ==> matchLeft == Write(old(matchLeft), xs, ys) && matchRight == Write(old(matchRight), ys, xs)
      decreases left - d[a]
    {
      hide Phase, Graph, LayeredPath, Write, Credit, Consistent, Sum;
      xs, ys := [], [];
      PhaseFacts(adj, right, matchLeft, matchRight, d, L, distLeft, iter);
      while iter[a] < |adj[a]|
        invariant matchLeft == old(matchLeft) && matchRight == old(matchRight)
        invariant |distLeft| == |iter| == left
        invariant Phase(adj, right, matchLeft, matchRight, d, L, distLeft, iter)
        invariant distLeft[a] == d[a] && iter[a] <= |adj[a]|
        invariant Credit(adj, matchLeft, iter, inspected) >= old(Credit(adj, matchLeft, iter, inspected))
        invariant inspected - old(inspected) == Sum(iter) - old(Sum(iter)) && xs == []
        invariant forall x :: 0 <= x < left && x != a && d[x] <= d[a] ==>
                    distLeft[x] == old(distLeft[x]) && iter[x] == old(iter[x])
        decreases |adj[a]| - iter[a]
      {
        var b := adj[a][iter[a]];
        EdgeFacts(adj, right, matchLeft, matchRight, d, L, distLeft, iter, a);
        InspectCosts(adj, matchLeft, iter, inspected);
        inspected := inspected + 1;
        var a2 := matchRight[b];
        var ok := a2 == -1;
        ghost var xs': seq<int>, ys': seq<int> := [], [];
        EmptyWrite(matchLeft, matchRight);
        if a2 != -1 && distLeft[a2] == distLeft[a] + 1 {
          ok, xs', ys' := Dfs(a2, d, L);
          PhaseFacts(adj, right, old(matchLeft), old(matchRight), d, L, distLeft, iter);
        }
        if ok {
          xs, ys := [a] + xs', [b] + ys';
          PathExtends(adj, right, old(matchLeft), old(matchRight), d, L, distLeft, iter, inspected, a, xs', ys');
          matchLeft := matchLeft[a := b];
          matchRight := matchRight[b := a];
          return true, xs, ys;
        }
        AdvanceKeepsPhase(adj, right, matchLeft, matchRight, d, L, distLeft, iter, a);
        AdvancePays(adj, matchLeft, iter, inspected, a);
        SumUpdate(iter, a, iter[a] + 1);
        iter := iter[a := iter[a] + 1];
      }
      KillKeepsPhase(adj, right, matchLeft, matchRight, d, L, distLeft, iter, a);
      distLeft := distLeft[a := INF];
      r := false;
    }

    /** The for loop of `maxMatching`: one dfs from every man still free. */
    method Sweep(matching: nat, ghost d: seq<int>, ghost L: nat) returns (matching': nat)
      requires Valid() && L < left
      requires Phase(adj, right, matchLeft, matchRight, d, L, distLeft, iter)
      requires |matchLeft| == |distLeft| == |d| == left
      requires forall x :: 0 <= x < left && matchLeft[x] == -1 ==> distLeft[x] == d[x] == 0
      requires matching == Size(matchLeft) && |iter| == left && Sum(iter) == 0
      modifies this`matchLeft, this`matchRight, this`distLeft, this`iter, this`inspected
      ensures old(inspected) + matching' - matching <= inspected <= old(inspected) + 2 * Edges(adj)
      ensures Consistent(adj, right, matchLeft, matchRight)
      ensures matching' == Size(matchLeft) >= matching
      ensures matching' == matching ==> matchLeft == old(matchLeft) && matchRight == old(matchRight)
      ensures NoShorterPath(adj, matchLeft, matchRight, L + 1)
    {
      hide Phase, Graph, LayeredPath, Write, Size, NoShorterPath, Consistent, Credit, Edges, Sum;
      matching' := matching;
      PhaseFacts(adj, right, matchLeft, matchRight, d, L, distLeft, iter);
      for a := 0 to left
        invariant |matchLeft| == |distLeft| == |iter| == left
        invariant Credit(adj, matchLeft, iter, inspected) >= old(Credit(adj, matchLeft, iter, inspected))
        invariant inspected - old(inspected) >= Sum(iter) - old(Sum(iter)) + matching' - matching
        invariant Phase(adj, right, matchLeft, matchRight, d, L, distLeft, iter)
        invariant forall x :: 0 <= x < left && matchLeft[x] == -1 ==>
                    d[x] == 0 && distLeft[x] == if x < a then INF else 0
        invariant matching' == Size(matchLeft) >= matching
        invariant matching' == matching ==> matchLeft == old(matchLeft) && matchRight == old(matchRight)
      {
        if matchLeft[a] == -1 {
          ghost var ml, mr := matchLeft, matchRight;
          ghost var xs, ys;
          var ok;
          ok, xs, ys := Dfs(a, d, L);
          PhaseFacts(adj, right, ml, mr, d, L, distLeft, iter);
          if ok {
            matching' := matching' + 1;
            DfsAugments(adj, right, ml, mr, d, L, distLeft, iter, xs, ys);
          }
        }
      }
      SumNatural(iter);
      CreditSpent(adj, right, matchLeft, matchRight, d, L, distLeft, iter, inspected,
                  old(matchLeft), old(iter), old(inspected));
      PhaseStretches(adj, right, matchLeft, matchRight, d, L, distLeft, iter);
      PhaseIsConsistent(adj, right, matchLeft, matchRight, d, L, distLeft, iter);
    }

    /** The body of the while loop of `maxMatching`, after a bfs that found something. It gains at
        least one couple and lengthens the shortest augmenting path past the layer bfs found. */
    method RunPhase(matching: nat, ghost phases: nat, ghost sizes: seq<nat>) returns (matching': nat)
      requires Valid() && Consistent(adj, right, matchLeft, matchRight)
      requires Layered(adj, right, matchLeft, matchRight, distLeft)
      requires exists a :: 0 <= a < left && distLeft[a] < INF && SeesFree(adj, matchRight, a)
      requires matching == Size(matchLeft)
      requires NoShorterPath(adj, matchLeft, matchRight, phases)
      requires |sizes| == phases && GainsBounded(adj, sizes)
      modifies this`matchLeft, this`matchRight, this`distLeft, this`iter, this`inspected
      ensures old(inspected) + matching' - matching <= inspected <= old(inspected) + 2 * Edges(adj)
      ensures Consistent(adj, right, matchLeft, matchRight)
      ensures matching < matching' == Size(matchLeft) <= left
      ensures forall L: nat :: Shortest(adj, old(matchLeft), old(matchRight), L) ==>
                NoShorterPath(adj, matchLeft, matchRight, L)
      ensures NoShorterPath(adj, matchLeft, matchRight, phases + 1)
      ensures GainsBounded(adj, sizes + [matching])
    {
      hide Graph, Layered, SeesFree, Phase, NoShorterPath, GainsBounded, Augmenting, Size, Consistent, Shortest,
        Edges;
      ghost var a := AugmentingLayer(adj, right, matchLeft, matchRight, distLeft, phases);
      iter := seq(left, _ => 0);
      SumZero(iter);
      PhaseStarts(adj, right, matchLeft, matchRight, distLeft, distLeft[a], iter);
      RecordGain(adj, right, matchLeft, matchRight, distLeft, sizes, matching);
      LayerZeroMen(adj, right, matchLeft, matchRight, distLeft);
      ghost var ml, mr, d := matchLeft, matchRight, distLeft;
      matching' := Sweep(matching, d, d[a]);
      SweepProgress(adj, right, ml, mr, d, a, matchLeft, matchRight);
      StretchToNext(adj, matchLeft, matchRight, d[a], phases);
      StretchFromShortest(adj, right, ml, mr, d, a, matchLeft, matchRight);
      SizeWithin(adj, right, matchLeft, matchRight);
    }

    /** Returns the size of a maximum matching, and leaves one in matchLeft. `phases` counts the
        turns of the while loop, one fewer than the calls of bfs: at most 2 s of them for any s with
        s * s >= left, so edges are looked at no more than 6 s + 1 times each on average. */
    method MaxMatching() returns (matching: nat, ghost phases: nat)
      requires Valid()
      modifies this`matchLeft, this`matchRight, this`distLeft, this`iter, this`inspected, this`searches
      ensures Consistent(adj, right, matchLeft, matchRight)
      ensures matching == Size(matchLeft)
      ensures searches == old(searches) + phases + 1 && inspected >= old(inspected) + matching
      ensures forall w :: IsMatching(adj, w) ==> Size(w) <= matching
      ensures forall s: nat :: s * s >= left ==> phases <= 2 * s
      ensures forall s: nat :: s * s >= left ==> inspected - old(inspected) <= (6 * s + 1) * Edges(adj)
    {
      hide Graph, Layered, SeesFree, NoShorterPath, GainsBounded, Growing, Augmenting, Size, IsMatching, Consistent,
        Edges;
      matchLeft := seq(left, _ => -1);
      matchRight := seq(right, _ => -1);
      matching := 0;
      phases := 0;
      ghost var sizes: seq<nat> := [];
      EmptyStarts(adj, right, matchLeft, matchRight);
      while true
        invariant Consistent(adj, right, matchLeft, matchRight)
        invariant matching == Size(matchLeft) <= left
        invariant NoShorterPath(adj, matchLeft, matchRight, phases)
        invariant |sizes| == phases && (phases > 0 ==> sizes[phases - 1] < matching)
        invariant Growing(sizes) && GainsBounded(adj, sizes)
        invariant searches == old(searches) + phases && inspected >= old(inspected) + matching
        invariant inspected - old(inspected) <= (3 * phases) * Edges(adj)
        decreases left - matching
      {
        var found := Bfs();
        if !found { break; }
        ghost var before := matching;
        matching := RunPhase(matching, phases, sizes);
        GrowingAppend(sizes, before);
        sizes := sizes + [before];
        MoreWork(phases, Edges(adj));
        phases := phases + 1;
      }
      SearchFailed(adj, right, matchLeft, matchRight, distLeft);
      GrowingAppend(sizes, matching);
      PhaseCount(adj, right, matchLeft, matchRight, sizes, matching);
      WorkCount(adj, phases, inspected - old(inspected));
    }
  }
}
