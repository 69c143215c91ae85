/** `augment` and `maxMatching` of src/blossom.cpp as functions, the contraction branch as written:
    what the class in Blossom.dfy is held to, and what OddCycles.dfy evaluates. */
module BlossomSearch {
  import opened Sequences
  import opened AlternatingTrees

  /** The vectors `augment` works on. */
  datatype Search = Search(mates: seq<int>, labels: seq<int>, pred: seq<int>, base: seq<int>, q: seq<int>)

  /** What scanning one neighbour does: carry on, or augment and return. */
  datatype Step = Continue(search: Search) | Augmented(mates: seq<int>)

  /** Vector reads and writes; -1 stands for a read the C++ would leave undefined. */
  function At(s: seq<int>, i: int): int {
    if 0 <= i < |s| then s[i] else -1
  }

  function Put(s: seq<int>, i: int, x: int): (r: seq<int>)
    ensures |r| == |s|
  {
    if 0 <= i < |s| then s[i := x] else s
  }

  /** The first loop of lca: bases on the way from a to the root. */
  function BasesToRoot(se: Search, s: int, a: int, fuel: nat): seq<int>
    decreases fuel
  {
    var b := At(se.base, a);
    if b == s || fuel == 0 then [b]
    else [b] + BasesToRoot(se, s, At(se.base, At(se.pred, At(se.mates, b))), fuel - 1)
  }

  /** The second loop of lca: the first base on the way from b that was visited. */
  function FirstVisited(se: Search, visited: seq<int>, b: int, fuel: nat): int
    decreases fuel
  {
    var c := At(se.base, b);
    if c in visited || fuel == 0 then c
    else FirstVisited(se, visited, At(se.base, At(se.pred, At(se.mates, c))), fuel - 1)
  }

  function Lca(se: Search, s: int, a: int, b: int, fuel: nat): int {
    FirstVisited(se, BasesToRoot(se, s, a, fuel), b, fuel)
  }

  /** The k-th base that either loop of lca comes to from vertex a. */
  function BaseOnWalk(se: Search, a: int, k: nat): int {
    if k == 0 then At(se.base, a)
    else At(se.base, At(se.base, At(se.pred, At(se.mates, BaseOnWalk(se, a, k - 1)))))
  }

  lemma {:induction false} BaseOneOn(se: Search, a: int, k: nat)
    ensures BaseOnWalk(se, At(se.base, At(se.pred, At(se.mates, At(se.base, a)))), k) == BaseOnWalk(se, a, k + 1)
  {
    if k > 0 {
      BaseOneOn(se, a, k - 1);
    }
  }

  /** The first loop marks the bases on the walk from a, up to the root and no further. */
  lemma {:induction false} BasesAreWalk(se: Search, s: int, a: int, fuel: nat)
    ensures var v := BasesToRoot(se, s, a, fuel);
            && 0 < |v| <= fuel + 1 && (v[|v| - 1] == s || |v| == fuel + 1)
            && (forall k :: 0 <= k < |v| ==> v[k] == BaseOnWalk(se, a, k))
            && (forall k :: 0 <= k < |v| - 1 ==> v[k] != s)
    decreases fuel
  {
    var b := At(se.base, a);
    if b != s && fuel > 0 {
      var a' := At(se.base, At(se.pred, At(se.mates, b)));
      BasesAreWalk(se, s, a', fuel - 1);
      var v, v' := BasesToRoot(se, s, a, fuel), BasesToRoot(se, s, a', fuel - 1);
      assert v == [b] + v';
      forall k | 0 <= k < |v| ensures v[k] == BaseOnWalk(se, a, k) {
        if k > 0 {
          BaseOneOn(se, a, k - 1);
          assert v[k] == v'[k - 1];
        }
      }
    }
  }

  /** The second loop stops at the first base on the walk from b that has been marked. */
  lemma {:induction false} FirstVisitedIsFirst(se: Search, visited: seq<int>, b: int, fuel: nat) returns (k: nat)
    ensures k <= fuel && FirstVisited(se, visited, b, fuel) == BaseOnWalk(se, b, k)
    ensures forall i :: 0 <= i < k ==> BaseOnWalk(se, b, i) !in visited
    ensures BaseOnWalk(se, b, k) in visited || k == fuel
    decreases fuel
  {
    var c := At(se.base, b);
    if c in visited || fuel == 0 {
      k := 0;
    } else {
      var b' := At(se.base, At(se.pred, At(se.mates, c)));
      var k' := FirstVisitedIsFirst(se, visited, b', fuel - 1);
      k := k' + 1;
      BaseOneOn(se, b, k');
      forall i | 0 <= i < k ensures BaseOnWalk(se, b, i) !in visited {
        if i > 0 {
          BaseOneOn(se, b, i - 1);
        }
      }
    }
  }

  /** lca is the first base on the walk from b that lies on the walk from a to the root. */
  lemma LcaMeets(se: Search, s: int, a: int, b: int, fuel: nat) returns (k: nat)
    ensures k <= fuel && Lca(se, s, a, b, fuel) == BaseOnWalk(se, b, k)
    ensures forall i :: 0 <= i < k ==> BaseOnWalk(se, b, i) !in BasesToRoot(se, s, a, fuel)
    ensures Lca(se, s, a, b, fuel) in BasesToRoot(se, s, a, fuel) || k == fuel
  {
    k := FirstVisitedIsFirst(se, BasesToRoot(se, s, a, fuel), b, fuel);
  }

  /** markPath: it goes on through pred[v], where v may be a vertex whose pred an earlier
      contraction has already redirected. */
  function MarkPath(se: Search, v: int, b: int, child: int, fuel: nat): Search
    decreases fuel
  {
    if At(se.base, v) == b || fuel == 0 then se
    else
      var prev := At(se.pred, v);
      var mate := At(se.mates, v);
      var marked := se.(base := Put(Put(se.base, v, b), mate, b), pred := Put(se.pred, v, child));
      var next := if At(se.labels, prev) != 1
                  then marked.(labels := Put(se.labels, prev, 1), q := se.q + [prev])
                  else marked;
      MarkPath(next, prev, b, mate, fuel - 1)
  }

  /** From se to r, bases have only moved to b, labels have only become outer, and the vertices that
      became outer are those added to the queue. */
  ghost predicate Marked(se: Search, r: Search, b: int) {
    && r.mates == se.mates && |r.base| == |se.base| && |r.labels| == |se.labels| && |r.pred| == |se.pred|
    && (forall x :: 0 <= x < |r.base| ==> r.base[x] == se.base[x] || r.base[x] == b)
    && |se.q| <= |r.q| && r.q[..|se.q|] == se.q
    && (forall x :: 0 <= x < |r.labels| ==>
         r.labels[x] == if x in r.q[|se.q|..] then 1 else se.labels[x])
    && (forall x :: 0 <= x < |r.labels| && x in r.q[|se.q|..] ==> se.labels[x] != 1)
  }

  lemma MarkedOnce(se: Search, v: int, b: int, child: int, r: Search)
    requires var prev := At(se.pred, v); var mate := At(se.mates, v);
             var marked := se.(base := Put(Put(se.base, v, b), mate, b), pred := Put(se.pred, v, child));
             r == if At(se.labels, prev) != 1
                  then marked.(labels := Put(se.labels, prev, 1), q := se.q + [prev])
                  else marked
    ensures Marked(se, r, b)
  {
  }

  lemma MarkedTwice(se: Search, mid: Search, r: Search, b: int)
    requires Marked(se, mid, b) && Marked(mid, r, b)
    ensures Marked(se, r, b)
  {
    assert r.q[|se.q|..] == mid.q[|se.q|..] + r.q[|mid.q|..];
  }

  /** markPath moves the bases of v and everything on its path to b, and nothing else. */
  lemma {:induction false} MarkPathMarks(se: Search, v: int, b: int, child: int, fuel: nat)
    ensures Marked(se, MarkPath(se, v, b, child, fuel), b)
    ensures fuel > 0 && 0 <= v < |se.base| ==> At(MarkPath(se, v, b, child, fuel).base, v) == b
    decreases fuel
  {
    if At(se.base, v) != b && fuel > 0 {
      var prev, mate := At(se.pred, v), At(se.mates, v);
      var marked := se.(base := Put(Put(se.base, v, b), mate, b), pred := Put(se.pred, v, child));
      var next := if At(se.labels, prev) != 1
                  then marked.(labels := Put(se.labels, prev, 1), q := se.q + [prev])
                  else marked;
      MarkedOnce(se, v, b, child, next);
      MarkPathMarks(next, prev, b, mate, fuel - 1);
      MarkedTwice(se, next, MarkPath(next, prev, b, mate, fuel - 1), b);
    }
  }

  /** The trace-back loop. */
  function Flip(mates: seq<int>, pred: seq<int>, cur: int, fuel: nat): seq<int>
    decreases fuel
  {
    if cur == -1 || fuel == 0 then mates
    else
      var pv := At(pred, cur);
      Flip(Put(Put(mates, cur, pv), pv, cur), pred, At(mates, pv), fuel - 1)
  }

  /** One neighbour u of the outer vertex v. */
  function Visit(s: int, se: Search, v: int, u: int): Step {
    var n := |se.mates|;
    if At(se.base, v) == At(se.base, u) || At(se.labels, u) == -1 then Continue(se)
    else if At(se.labels, u) == 0 then
      if At(se.mates, u) == -1 then Augmented(Flip(se.mates, Put(se.pred, u, v), u, n))
      else
        var w := At(se.mates, u);
        Continue(se.(labels := Put(Put(se.labels, u, -1), w, 1), pred := Put(Put(se.pred, u, v), w, u),
                     q := se.q + [w]))
    else
      var b := Lca(se, s, v, u, n);
      Continue(MarkPath(MarkPath(se, v, b, u, n), u, b, v, n))
  }

  /** The for loop over adj[v] from position i. */
  function Scan(adj: Graph, s: int, se: Search, v: int, i: nat): Step
    requires 0 <= v < |adj|
    decreases |adj[v]| - i
  {
    if i >= |adj[v]| then Continue(se)
    else
      match Visit(s, se, v, adj[v][i])
      case Continue(se') => Scan(adj, s, se', v, i + 1)
      case Augmented(m) => Augmented(m)
  }

  /** What the while loop goes on to do after the for loop's outcome. */
  function Rest(adj: Graph, s: int, step: Step, turns: nat): Step
    decreases turns, 1
  {
    match step
    case Continue(se) => Drain(adj, s, se, turns)
    case Augmented(m) => Augmented(m)
  }

  /** The while loop over the queue. A vertex enters it at most once, so |adj| turns are enough. */
  function Drain(adj: Graph, s: int, se: Search, turns: nat): Step
    decreases turns, 0
  {
    if se.q == [] || turns == 0 || !(0 <= se.q[0] < |adj|) then Continue(se)
    else Rest(adj, s, Scan(adj, s, se.(q := se.q[1..]), se.q[0], 0), turns - 1)
  }

  function StartAt(n: nat, mates: seq<int>, s: int): Search {
    Search(mates, Put(seq(n, _ => 0), s, 1), seq(n, _ => -1), seq(n, i => i), [s])
  }

  /** `augment`, then the loop of `maxMatching` from root v on. */
  function AugmentFrom(adj: Graph, mates: seq<int>, s: int): seq<int> {
    match Drain(adj, s, StartAt(|adj|, mates, s), |adj|)
    case Continue(_) => mates
    case Augmented(m) => m
  }

  function MatchFrom(adj: Graph, mates: seq<int>, v: nat): seq<int>
    decreases |adj| - v
  {
    if v >= |adj| then mates
    else MatchFrom(adj, if At(mates, v) == -1 then AugmentFrom(adj, mates, v) else mates, v + 1)
  }

  // ---- single steps ----

  /** One turn of the trace-back. */
  lemma FlipOnce(mates: seq<int>, pred: seq<int>, cur: int, pv: int, mates': seq<int>, next: int, fuel: nat)
    requires cur != -1 && fuel > 0 && At(pred, cur) == pv && At(mates, pv) == next
    requires mates' == Put(Put(mates, cur, pv), pv, cur)
    ensures Flip(mates, pred, cur, fuel) == Flip(mates', pred, next, fuel - 1)
  {
  }

  lemma MatchSkips(adj: Graph, mates: seq<int>, v: nat)
    requires v < |adj| && At(mates, v) != -1
    ensures MatchFrom(adj, mates, v) == MatchFrom(adj, mates, v + 1)
  {
  }

  lemma MatchTries(adj: Graph, mates: seq<int>, v: nat, mates': seq<int>)
    requires v < |adj| && At(mates, v) == -1 && AugmentFrom(adj, mates, v) == mates'
    ensures MatchFrom(adj, mates, v) == MatchFrom(adj, mates', v + 1)
  {
  }

  lemma MatchDone(adj: Graph, mates: seq<int>)
    ensures MatchFrom(adj, mates, |adj|) == mates
  {
  }

  /** The search that started from root s with mates m0 has come as far as this step. */
  predicate OnCourse(adj: Graph, s: int, m0: seq<int>, step: Step, turns: nat) {
    Rest(adj, s, step, turns) == Drain(adj, s, StartAt(|adj|, m0, s), |adj|)
  }

  lemma CourseStarts(adj: Graph, s: int, se: Search)
    requires 0 <= s < |adj| && |se.labels| == |se.pred| == |se.base| == |adj| && se.q == [s]
    requires forall v :: 0 <= v < |adj| ==>
               se.labels[v] == (if v == s then 1 else 0) && se.pred[v] == -1 && se.base[v] == v
    ensures OnCourse(adj, s, se.mates, Continue(se), |adj|)
  {
    assert se == StartAt(|adj|, se.mates, s);
  }

  lemma CoursePops(adj: Graph, s: int, m0: seq<int>, se: Search, turns: nat)
    requires OnCourse(adj, s, m0, Continue(se), turns) && turns > 0 && se.q != [] && 0 <= se.q[0] < |adj|
    ensures OnCourse(adj, s, m0, Scan(adj, s, se.(q := se.q[1..]), se.q[0], 0), turns - 1)
  {
    assert Rest(adj, s, Continue(se), turns) == Drain(adj, s, se, turns);
  }

  lemma CoursePasses(adj: Graph, s: int, m0: seq<int>, se: Search, v: int, i: nat, se': Search, turns: nat)
    requires 0 <= v < |adj| && i < |adj[v]| && Visit(s, se, v, adj[v][i]) == Continue(se')
    requires OnCourse(adj, s, m0, Scan(adj, s, se, v, i), turns)
    ensures OnCourse(adj, s, m0, Scan(adj, s, se', v, i + 1), turns)
  {
    hide Visit, Rest;
  }

  lemma CourseScanned(adj: Graph, s: int, m0: seq<int>, se: Search, v: int, turns: nat)
    requires 0 <= v < |adj| && OnCourse(adj, s, m0, Scan(adj, s, se, v, |adj[v]|), turns)
    ensures OnCourse(adj, s, m0, Continue(se), turns)
  {
  }

  lemma CourseAugments(adj: Graph, s: int, m0: seq<int>, se: Search, v: int, i: nat, m: seq<int>, turns: nat)
    requires 0 <= v < |adj| && i < |adj[v]| && Visit(s, se, v, adj[v][i]) == Augmented(m)
    requires OnCourse(adj, s, m0, Scan(adj, s, se, v, i), turns)
    ensures AugmentFrom(adj, m0, s) == m
  {
    hide Visit;
  }

  lemma CourseFails(adj: Graph, s: int, m0: seq<int>, se: Search, turns: nat)
    requires OnCourse(adj, s, m0, Continue(se), turns) && se.q == []
    ensures AugmentFrom(adj, m0, s) == m0
  {
    assert Drain(adj, s, se, turns) == Continue(se);
  }

  // ---- two-coloured graphs ----

  /** On a two-coloured graph, scanning a neighbour of an outer vertex never reaches lca or
      markPath: she is inner, or not reached yet. */
  lemma ContractionUnreachable(adj: Graph, colour: seq<bool>, s: int, se: Search, depth: seq<nat>, v: int, u: int)
    requires Simple(adj) && TwoColoured(adj, colour) && |se.mates| == |adj|
    requires Tree(adj, se.mates, colour, s, se.labels, se.pred, depth)
    requires |se.base| == |adj| && forall i :: 0 <= i < |adj| ==> se.base[i] == i
    requires 0 <= v < |adj| && se.labels[v] == 1 && u in adj[v]
    ensures At(se.base, v) != At(se.base, u)
    ensures At(se.labels, u) == -1 || At(se.labels, u) == 0
    ensures At(se.labels, u) == -1 ==> Visit(s, se, v, u) == Continue(se)
    ensures At(se.labels, u) == 0 && At(se.mates, u) == -1 ==>
              Visit(s, se, v, u) == Augmented(Flip(se.mates, Put(se.pred, u, v), u, |adj|))
    ensures At(se.labels, u) == 0 && At(se.mates, u) != -1 ==>
              var w := se.mates[u];
              Visit(s, se, v, u) == Continue(se.(labels := Put(Put(se.labels, u, -1), w, 1),
                                                 pred := Put(Put(se.pred, u, v), w, u), q := se.q + [w]))
  {
    OuterSeesNoOuter(adj, se.mates, colour, s, se.labels, se.pred, depth, v, u);
  }
}
