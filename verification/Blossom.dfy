/** src/blossom.cpp on two-colourable graphs, the only ones main.cpp and server.cpp build. */
module Blossom {
  import opened Sequences
  import opened AlternatingTrees
  import opened BlossomSearch

  lemma TreeSizes(adj: Graph, m: seq<int>, colour: seq<bool>, s: int,
                  labels: seq<int>, pred: seq<int>, depth: seq<nat>)
    requires |m| == |colour| == |adj| && Tree(adj, m, colour, s, labels, pred, depth)
    ensures |labels| == |pred| == |depth| == |adj| && labels[s] == 1
    ensures forall v :: 0 <= v < |adj| && labels[v] == 1 ==> colour[v] == colour[s]
  {
  }

  lemma TracingInRange(adj: Graph, m0: seq<int>, m: seq<int>, u: int, labels: seq<int>, pred: seq<int>,
                       depth: seq<nat>, cur: int, outer: set<int>, inner: set<int>)
    requires |m0| == |m| == |labels| == |pred| == |depth| == |adj|
    requires Tracing(adj, m0, m, u, labels, pred, depth, cur, outer, inner)
    ensures 0 <= cur < |adj| && 0 <= pred[cur] < |adj|
  {
  }

  lemma NobodyMatched(adj: Graph, m: seq<int>, colour: seq<bool>)
    requires |m| == |adj| && TwoColoured(adj, colour) && forall v :: 0 <= v < |m| ==> m[v] == -1
    ensures |colour| == |adj| && Coupling(adj, m) && Sealed(adj, m, {}, {}) && Coloured(m, colour) == {}
  {
  }

  lemma FlipDone(m: seq<int>, pred: seq<int>, fuel: nat)
    ensures Flip(m, pred, -1, fuel) == m
  {
  }

  /** Depths leave room for the vertices not yet reached. */
  ghost predicate Shallow(labels: seq<int>, depth: seq<nat>) {
    |labels| == |depth| &&
    forall v :: 0 <= v < |labels| && labels[v] != 0 ==> depth[v] + |Unlabelled(labels)| < |labels|
  }

  lemma OneLabelled(labels: seq<int>, s: int)
    requires 0 <= s < |labels| && forall v :: 0 <= v < |labels| ==> labels[v] == if v == s then 1 else 0
    ensures |Unlabelled(labels)| == |labels| - 1
  {
    assert Range(|labels|) == Unlabelled(labels) + {s};
    RangeCardinality(|labels|);
  }

  lemma StaysShallow(labels: seq<int>, depth: seq<nat>, v: int, u: int, w: int)
    requires Shallow(labels, depth) && 0 <= v < |labels| && labels[v] != 0
    requires 0 <= u < |labels| && 0 <= w < |labels| && u != w && labels[u] == 0 && labels[w] == 0
    ensures Shallow(labels[u := -1][w := 1], depth[u := depth[v] + 1][w := depth[v] + 1])
  {
    LabellingShrinks(labels, u, w);
  }

  // ---- one search ----

  /** The state of `augment` when vertex cur has been scanned up to position i; cur is -1 between
      vertices. The rest of the search takes no more than the given turns. */
  ghost predicate Searching(adj: Graph, colour: seq<bool>, s: int, se: Search, depth: seq<nat>,
                            cur: int, i: int, turns: nat)
  {
    && |se.mates| == |se.labels| == |se.pred| == |se.base| == |depth| == |colour| == |adj|
    && Simple(adj) && TwoColoured(adj, colour) && Coupling(adj, se.mates)
    && (forall v :: 0 <= v < |adj| ==> se.base[v] == v)
    && Tree(adj, se.mates, colour, s, se.labels, se.pred, depth)
    && Searched(adj, se.labels, se.q, cur, i)
    && |se.q| + |Unlabelled(se.labels)| <= turns && Shallow(se.labels, depth)
  }

  ghost predicate Between(adj: Graph, colour: seq<bool>, s: int, se: Search, depth: seq<nat>, turns: nat) {
    && Searching(adj, colour, s, se, depth, -1, 0, turns)
    && OnCourse(adj, s, se.mates, Continue(se), turns)
  }

  ghost predicate Within(adj: Graph, colour: seq<bool>, s: int, se: Search, depth: seq<nat>,
                         v: int, i: nat, turns: nat)
  {
    && 0 <= v < |adj| && i <= |adj[v]|
    && Searching(adj, colour, s, se, depth, v, i, turns)
    && OnCourse(adj, s, se.mates, Scan(adj, s, se, v, i), turns)
  }

  lemma StartsBetween(adj: Graph, colour: seq<bool>, s: int, se: Search, depth: seq<nat>)
    requires Simple(adj) && TwoColoured(adj, colour) && Coupling(adj, se.mates)
    requires 0 <= s < |adj| && se.mates[s] == -1 && se.q == [s]
    requires |se.labels| == |se.pred| == |se.base| == |depth| == |adj|
    requires forall v :: 0 <= v < |adj| ==>
               se.labels[v] == (if v == s then 1 else 0) && se.pred[v] == -1 && se.base[v] == v && depth[v] == 0
    ensures Between(adj, colour, s, se, depth, |adj|)
  {
    OneLabelled(se.labels, s);
    hide OnCourse, Unlabelled;
    CourseStarts(adj, s, se);
  }

  lemma PopsWithin(adj: Graph, colour: seq<bool>, s: int, se: Search, depth: seq<nat>, turns: nat)
    requires Between(adj, colour, s, se, depth, turns) && se.q != []
    ensures turns > 0 && 0 <= se.q[0] < |adj|
    ensures Within(adj, colour, s, se.(q := se.q[1..]), depth, se.q[0], 0, turns - 1)
  {
    hide OnCourse, Scan, Unlabelled, Simple, TwoColoured, Coupling, Tree;
    PopStarts(adj, se.labels, se.q);
    CoursePops(adj, s, se.mates, se, turns);
  }

  lemma WithinParts(adj: Graph, colour: seq<bool>, s: int, se: Search, depth: seq<nat>,
                    v: int, i: nat, turns: nat)
    requires Within(adj, colour, s, se, depth, v, i, turns)
    ensures |se.mates| == |se.labels| == |se.pred| == |depth| == |colour| == |adj| && Shallow(se.labels, depth)
    ensures se.labels[v] == 1
  {
  }

  /** The neighbour in hand is inner or not reached yet. */
  lemma NeighbourLabel(adj: Graph, colour: seq<bool>, s: int, se: Search, depth: seq<nat>,
                       v: int, i: nat, turns: nat)
    requires Within(adj, colour, s, se, depth, v, i, turns) && i < |adj[v]|
    ensures var u := adj[v][i];
            && |se.mates| == |se.labels| == |se.pred| == |depth| == |adj| == |se.base|
            && 0 <= u < |adj| && u != v && se.base[v] != se.base[u] && -1 <= se.labels[u] <= 0
    ensures se.labels[v] == 1
  {
    hide OnCourse, Scan, Unlabelled, Coupling, Simple, TwoColoured, Tree, Searched, Shallow;
    WithinParts(adj, colour, s, se, depth, v, i, turns);
    OuterSeesNoOuter(adj, se.mates, colour, s, se.labels, se.pred, depth, v, adj[v][i]);
  }

  lemma SearchedPasses(adj: Graph, labels: seq<int>, q: seq<int>, v: int, i: int)
    requires |labels| == |adj| && 0 <= v < |adj| && 0 <= i < |adj[v]| && Searched(adj, labels, q, v, i)
    ensures 0 <= adj[v][i] < |adj| && labels[adj[v][i]] == -1 ==> Searched(adj, labels, q, v, i + 1)
  {
  }

  /** An edge to an inner vertex needs no work. */
  lemma PassesWithin(adj: Graph, colour: seq<bool>, s: int, se: Search, depth: seq<nat>,
                     v: int, i: nat, turns: nat)
    requires Within(adj, colour, s, se, depth, v, i, turns) && i < |adj[v]|
    requires 0 <= adj[v][i] < |se.labels| && se.labels[adj[v][i]] == -1
    ensures Within(adj, colour, s, se, depth, v, i + 1, turns)
  {
    hide OnCourse, Scan, Unlabelled, Coupling, Simple, TwoColoured, Visit, Tree, Searched, Shallow;
    WithinParts(adj, colour, s, se, depth, v, i, turns);
    SearchedPasses(adj, se.labels, se.q, v, i);
    ContractionUnreachable(adj, colour, s, se, depth, v, adj[v][i]);
    CoursePasses(adj, s, se.mates, se, v, i, se, turns);
  }

  /** An unreached couple is hung below v. */
  lemma GrowsWithin(adj: Graph, colour: seq<bool>, s: int, se: Search, depth: seq<nat>,
                    v: int, i: nat, turns: nat)
    requires Within(adj, colour, s, se, depth, v, i, turns) && i < |adj[v]|
    requires 0 <= adj[v][i] < |se.mates| == |se.labels| == |se.pred| == |depth| == |adj|
    requires se.labels[adj[v][i]] == 0 && se.mates[adj[v][i]] != -1
    ensures 0 <= se.mates[adj[v][i]] < |adj|
    ensures var u := adj[v][i]; var w := se.mates[u];
            Within(adj, colour, s,
                   se.(labels := se.labels[u := -1][w := 1], pred := se.pred[u := v][w := u], q := se.q + [w]),
                   depth[u := depth[v] + 1][w := depth[v] + 1], v, i + 1, turns)
  {
    hide OnCourse, Scan, Unlabelled, Coupling, Simple, TwoColoured, Visit, Tree, Searched, Shallow;
    var u, w := adj[v][i], se.mates[adj[v][i]];
    WithinParts(adj, colour, s, se, depth, v, i, turns);
    TreeGrows(adj, se.mates, colour, s, se.labels, se.pred, depth, v, u);
    LabellingShrinks(se.labels, u, w);
    StaysShallow(se.labels, depth, v, u, w);
    SearchGrows(adj, se.labels, se.q, v, i, u, w);
    ContractionUnreachable(adj, colour, s, se, depth, v, u);
    CoursePasses(adj, s, se.mates, se, v, i,
                 se.(labels := se.labels[u := -1][w := 1], pred := se.pred[u := v][w := u], q := se.q + [w]), turns);
  }

  lemma FinishesBetween(adj: Graph, colour: seq<bool>, s: int, se: Search, depth: seq<nat>, v: int, turns: nat)
    requires 0 <= v < |adj| && Within(adj, colour, s, se, depth, v, |adj[v]|, turns)
    ensures Between(adj, colour, s, se, depth, turns)
  {
    hide OnCourse, Scan, Unlabelled, Coupling, Simple, TwoColoured, Tree;
    CourseScanned(adj, s, se.mates, se, v, turns);
  }

  /** A free vertex u below v: the trace-back can start, and it is what `AugmentFrom` does. */
  lemma AugmentsWithin(adj: Graph, colour: seq<bool>, s: int, se: Search, depth: seq<nat>,
                       v: int, i: nat, turns: nat, outer: set<int>, inner: set<int>)
    requires Within(adj, colour, s, se, depth, v, i, turns) && i < |adj[v]|
    requires |se.mates| == |adj| && Sealed(adj, se.mates, outer, inner)
    requires 0 <= adj[v][i] < |se.mates| == |se.labels| == |se.pred| == |depth| == |colour|
    requires se.labels[adj[v][i]] == 0 && se.mates[adj[v][i]] == -1
    ensures var u := adj[v][i];
            && depth[v] < |adj| && colour[u] != colour[s]
            && Tree(adj, se.mates, colour, s, se.labels, se.pred, depth)
            && Tracing(adj, se.mates, se.mates, u, se.labels, se.pred[u := v], depth, u, outer, inner)
            && AugmentFrom(adj, se.mates, s) == Flip(se.mates, se.pred[u := v], u, |adj|)
  {
    hide OnCourse, Scan, Unlabelled, Coupling, Tree, Searched, Visit, Flip, AugmentFrom, Sealed, Tracing;
    var u := adj[v][i];
    WithinParts(adj, colour, s, se, depth, v, i, turns);
    EdgeColours(adj, colour, v, u);
    TreeSizes(adj, se.mates, colour, s, se.labels, se.pred, depth);
    hide Simple, TwoColoured;
    TraceStarts(adj, se.mates, colour, s, se.labels, se.pred, depth, v, u, outer, inner);
    ContractionUnreachable(adj, colour, s, se, depth, v, u);
    CourseAugments(adj, s, se.mates, se, v, i, Flip(se.mates, se.pred[u := v], u, |adj|), turns);
  }

  /** The queue is empty: nothing has changed, and the search tree is sealed. */
  lemma FailsBetween(adj: Graph, colour: seq<bool>, s: int, se: Search, depth: seq<nat>, turns: nat,
                     outer: set<int>, inner: set<int>)
    requires Between(adj, colour, s, se, depth, turns) && se.q == []
    requires |se.mates| == |adj| && Sealed(adj, se.mates, outer, inner)
    ensures AugmentFrom(adj, se.mates, s) == se.mates
    ensures Sealed(adj, se.mates, outer + Labelled(se.labels, 1), inner + Labelled(se.labels, -1))
    ensures s in Labelled(se.labels, 1) && |colour| == |adj| && 0 <= s < |adj|
    ensures forall v :: v in Labelled(se.labels, 1) ==> 0 <= v < |adj| && colour[v] == colour[s]
  {
    hide OnCourse, AugmentFrom, Unlabelled, Coupling, Simple, TwoColoured, Sealed, Searched, Shallow;
    CourseFails(adj, s, se.mates, se, turns);
    FailedTreeIsSealed(adj, se.mates, colour, s, se.labels, se.pred, depth, outer, inner);
  }

  class Blossom {
    const n: nat
    var adj: Graph
    var mates: seq<int>

    ghost predicate Valid()
      reads this`adj
    {
      |adj| == n && Simple(adj)
    }

    constructor (numPeople: nat)
      ensures Valid() && n == numPeople && adj == seq(numPeople, _ => [])
      ensures mates == seq(numPeople, _ => -1)
    {
      n := numPeople;
      adj := seq(numPeople, _ => []);
      mates := seq(numPeople, _ => -1);
    }

    method AddCompatiblePair(a: nat, b: nat)
      requires Valid() && a < n && b < n && a != b
      modifies this`adj
      ensures Valid()
      ensures adj == WithPair(old(adj), a, b)
    {
      PairKeepsSimple(adj, a, b);
      adj := adj[a := adj[a] + [b]];
      adj := adj[b := adj[b] + [a]];
    }

    /** The inner while loop of `augment`: match cur to pred[cur] and go on with the vertex that
        pred[cur] leaves behind, up to the root. */
    method TraceBack(u: nat, pred: seq<int>, ghost s: nat, ghost colour: seq<bool>, ghost labels: seq<int>,
                     ghost pred0: seq<int>, ghost depth: seq<nat>, ghost outer: set<int>, ghost inner: set<int>)
      requires Valid() && |mates| == n && Coupling(adj, mates) && |colour| == n && u < n
      requires Tree(adj, mates, colour, s, labels, pred0, depth) && Sealed(adj, mates, outer, inner)
      requires mates[u] == -1 && labels[u] == 0 && |pred| == n
      requires forall w :: 0 <= w < n && w != u ==> pred[w] == pred0[w]
      requires Tracing(adj, mates, mates, u, labels, pred, depth, u, outer, inner)
      requires depth[pred[u]] < n
      modifies this`mates
      ensures mates == Flip(old(mates), pred, u, n)
      ensures |mates| == n && Coupling(adj, mates)
      ensures forall w :: 0 <= w < n ==> (mates[w] != -1 <==> old(mates[w]) != -1 || w == u || w == s)
      ensures Sealed(adj, mates, outer, inner)
    {
      hide Simple, Coupling, Sealed, Tracing, Flip;
      TreeSizes(adj, mates, colour, s, labels, pred0, depth);
      hide Tree;
      TracingInRange(adj, mates, mates, u, labels, pred, depth, u, outer, inner);
      var cur: int := u;
      ghost var fuel := n;
      while true
        invariant |mates| == n && 0 <= cur < n && 0 <= pred[cur] < n
        invariant Tracing(adj, old(mates), mates, u, labels, pred, depth, cur, outer, inner)
        invariant depth[pred[cur]] < fuel && Flip(mates, pred, cur, fuel) == Flip(old(mates), pred, u, n)
        decreases depth[pred[cur]]
      {
        var pv := pred[cur];
        var ppv := mates[pv];
        if ppv == -1 {
          TraceEnds(adj, colour, s, old(mates), mates, u, labels, pred0, pred, depth, cur, outer, inner);
        } else {
          TraceSteps(adj, colour, s, old(mates), mates, u, labels, pred0, pred, depth, cur, outer, inner);
          TracingInRange(adj, old(mates), mates[cur := pv][pv := cur], u, labels, pred, depth, ppv, outer, inner);
        }
        FlipOnce(mates, pred, cur, pv, mates[cur := pv][pv := cur], ppv, fuel);
        mates := mates[cur := pv];
        mates := mates[pv := cur];
        cur := ppv;
        fuel := fuel - 1;
        if cur == -1 {
          FlipDone(mates, pred, fuel);
          break;
        }
      }
    }

    /** One search from the free vertex s. Success matches s and one more vertex and leaves every
        vertex of the sealed sets with the mate it had. Failure changes nothing, and seals the
        search tree together with the old sealed sets. */
    method Augment(s: nat, ghost colour: seq<bool>, ghost outer: set<int>, ghost inner: set<int>)
      returns (r: bool, ghost outer': set<int>, ghost inner': set<int>)
      requires Valid() && |colour| == n && TwoColoured(adj, colour)
      requires |mates| == n && Coupling(adj, mates) && s < n && mates[s] == -1
      requires Sealed(adj, mates, outer, inner)
      modifies this`mates
      ensures mates == AugmentFrom(adj, old(mates), s)
      ensures Coupling(adj, mates) && |mates| == n
      ensures r ==> |Coloured(mates, colour)| == |Coloured(old(mates), colour)| + 1
      ensures r ==> mates[s] != -1 && forall w :: 0 <= w < n && old(mates[w]) != -1 ==> mates[w] != -1
      ensures r ==> Sealed(adj, mates, outer, inner)
      ensures !r ==> mates == old(mates)
      ensures !r ==> Sealed(adj, mates, outer', inner') && s in outer'
      ensures !r ==> forall v :: v in outer' ==> v in outer || (0 <= v < n && colour[v] == colour[s])
      ensures !r ==> outer <= outer'
    {
      hide Simple, Coupling, Sealed, Tree, TwoColoured, Tracing, Coloured, Labelled, Between, Within, AugmentFrom, Flip;
      outer', inner' := outer, inner;
      var labels: seq<int> := seq(n, _ => 0);
      var pred: seq<int> := seq(n, _ => -1);
      var base: seq<int> := seq(n, i => i);
      ghost var depth: seq<nat> := seq(n, _ => 0);
      labels := labels[s := 1];
      var q: seq<int> := [s];
      ghost var turns := n;
      StartsBetween(adj, colour, s, Search(mates, labels, pred, base, q), depth);
      while q != []
        invariant |labels| == |pred| == |base| == |mates| == n && mates == old(mates)
        invariant Between(adj, colour, s, Search(mates, labels, pred, base, q), depth, turns)
        decreases turns
      {
        PopsWithin(adj, colour, s, Search(mates, labels, pred, base, q), depth, turns);
        turns := turns - 1;
        var v := q[0];
        q := q[1..];
        for i := 0 to |adj[v]|
          invariant |labels| == |pred| == |base| == |mates| == n && mates == old(mates)
          invariant Within(adj, colour, s, Search(mates, labels, pred, base, q), depth, v, i, turns)
        {
          var u := adj[v][i];
          ghost var se := Search(mates, labels, pred, base, q);
          NeighbourLabel(adj, colour, s, se, depth, v, i, turns);
          if base[v] == base[u] || labels[u] == -1 {
            PassesWithin(adj, colour, s, se, depth, v, i, turns);
            continue;
          }
          if labels[u] == 0 {
            if mates[u] == -1 {
              AugmentsWithin(adj, colour, s, se, depth, v, i, turns, outer, inner);
              ghost var pred0 := pred;
              pred := pred[u := v];
              TraceBack(u, pred, s, colour, labels, pred0, depth, outer, inner);
              OneMoreColoured(old(mates), mates, colour, u, s);
              return true, outer', inner';
            }
            GrowsWithin(adj, colour, s, se, depth, v, i, turns);
            labels := labels[u := -1];
            pred := pred[u := v];
            var w := mates[u];
            labels := labels[w := 1];
            pred := pred[w := u];
            depth := depth[u := depth[v] + 1][w := depth[v] + 1];
            q := q + [w];
          } else {
            // an outer neighbour would be an odd cycle: the contraction is never reached
            assert false;
          }
        }
        FinishesBetween(adj, colour, s, Search(mates, labels, pred, base, q), depth, v, turns);
      }
      FailsBetween(adj, colour, s, Search(mates, labels, pred, base, q), depth, turns, outer, inner);
      outer', inner' := outer + Labelled(labels, 1), inner + Labelled(labels, -1);
      r := false;
    }

    /** One attempt per vertex, in order. The colouring is ghost: any two-colouring will do. */
    method MaxMatching(ghost colour: seq<bool>) returns (result: nat)
      requires Valid() && TwoColoured(adj, colour)
      modifies this`mates
      ensures mates == MatchFrom(adj, seq(n, _ => -1), 0)
      ensures Coupling(adj, mates)
      ensures result == Couples(mates)
      ensures forall w :: Coupling(adj, w) ==> Couples(w) <= result
    {
      hide Simple, Coupling, Sealed, TwoColoured, Couples, MatchFrom, AugmentFrom;
      mates := seq(n, _ => -1);
      result := 0;
      ghost var outer, inner := {}, {};
      NobodyMatched(adj, mates, colour);
      for v := 0 to n
        invariant |mates| == n && |colour| == n && Coupling(adj, mates)
        invariant MatchFrom(adj, mates, v) == MatchFrom(adj, seq(n, _ => -1), 0)
        invariant Sealed(adj, mates, outer, inner)
        invariant forall x :: x in outer ==> 0 <= x < n && colour[x]
        invariant forall x :: 0 <= x < v && colour[x] && mates[x] == -1 ==> x in outer
        invariant result == |Coloured(mates, colour)|
      {
        if mates[v] == -1 {
          ghost var outer', inner';
          var ok;
          MatchTries(adj, mates, v, AugmentFrom(adj, mates, v));
          ok, outer', inner' := Augment(v, colour, outer, inner);
          if ok {
            result := result + 1;
          } else if colour[v] {
            outer, inner := outer', inner';
          }
        } else {
          MatchSkips(adj, mates, v);
        }
      }
      MatchDone(adj, mates);
      CouplesByColour(adj, mates, colour);
      forall w | Coupling(adj, w) ensures Couples(w) <= result {
        SealedIsMaximum(adj, mates, colour, outer, inner, w);
      }
    }
  }
}
