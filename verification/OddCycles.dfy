/** A graph with odd cycles on which `maxMatching` of src/blossom.cpp couples two strangers. */
module OddCycles {
  import opened AlternatingTrees
  import opened BlossomSearch

  /** The graph after calls of addCompatiblePair for all these pairs, in this order. */
  function WithPairs(adj: Graph, pairs: seq<(nat, nat)>): Graph
    requires forall i :: 0 <= i < |pairs| ==>
               pairs[i].0 < |adj| && pairs[i].1 < |adj| && pairs[i].0 != pairs[i].1
    decreases |pairs|
  {
    if pairs == [] then adj else WithPairs(WithPair(adj, pairs[0].0, pairs[0].1), pairs[1..])
  }

  function ElevenPairs(): (pairs: seq<(nat, nat)>)
    ensures forall i :: 0 <= i < |pairs| ==> pairs[i].0 < 10 && pairs[i].1 < 10 && pairs[i].0 != pairs[i].1
  {
    [(0, 1), (2, 3), (4, 5), (6, 7), (0, 5), (6, 3), (9, 4), (8, 4), (1, 7), (6, 5), (8, 2)]
  }

  /** The lists that eleven pairs give ten people. */
  function TenPeople(): Graph {
    [[1, 5], [0, 7], [3, 8], [2, 6], [5, 9, 8], [4, 0, 6], [7, 3, 5], [6, 1], [4, 2], [4]]
  }

  /** The k-th pair makes la and lb of the lists of a and b. */
  lemma AddsPair(adj: Graph, k: nat, a: nat, b: nat, la: seq<int>, lb: seq<int>)
    requires |adj| == 10 && k < 11 && ElevenPairs()[k] == (a, b)
    requires a < 10 && b < 10 && a != b && la == adj[a] + [b] && lb == adj[b] + [a]
    ensures WithPairs(adj, ElevenPairs()[k..]) == WithPairs(adj[a := la][b := lb], ElevenPairs()[k + 1..])
  {
    assert ElevenPairs()[k..][1..] == ElevenPairs()[k + 1..];
    assert WithPair(adj, a, b) == adj[a := la][b := lb];
  }

  lemma NoMorePairs(adj: Graph, pairs: seq<(nat, nat)>)
    requires pairs == []
    ensures WithPairs(adj, pairs) == adj
  {
  }

  lemma TenPeopleBuilt()
    ensures WithPairs(seq(10, _ => []), ElevenPairs()) == TenPeople()
  {
    hide WithPairs;
    var g: Graph := seq(10, _ => []);
    assert ElevenPairs()[0..] == ElevenPairs();
    AddsPair(g, 0, 0, 1, [1], [0]);
    g := g[0 := [1]][1 := [0]];
    AddsPair(g, 1, 2, 3, [3], [2]);
    g := g[2 := [3]][3 := [2]];
    AddsPair(g, 2, 4, 5, [5], [4]);
    g := g[4 := [5]][5 := [4]];
    AddsPair(g, 3, 6, 7, [7], [6]);
    g := g[6 := [7]][7 := [6]];
    AddsPair(g, 4, 0, 5, [1, 5], [4, 0]);
    g := g[0 := [1, 5]][5 := [4, 0]];
    AddsPair(g, 5, 6, 3, [7, 3], [2, 6]);
    g := g[6 := [7, 3]][3 := [2, 6]];
    AddsPair(g, 6, 9, 4, [4], [5, 9]);
    g := g[9 := [4]][4 := [5, 9]];
    AddsPair(g, 7, 8, 4, [4], [5, 9, 8]);
    g := g[8 := [4]][4 := [5, 9, 8]];
    AddsPair(g, 8, 1, 7, [0, 7], [6, 1]);
    g := g[1 := [0, 7]][7 := [6, 1]];
    AddsPair(g, 9, 6, 5, [7, 3, 5], [4, 0, 6]);
    g := g[6 := [7, 3, 5]][5 := [4, 0, 6]];
    AddsPair(g, 10, 8, 2, [4, 2], [3, 8]);
    g := g[8 := [4, 2]][2 := [3, 8]];
    assert g == TenPeople();
    NoMorePairs(g, ElevenPairs()[11..]);
  }

  lemma TenPeopleSimple()
    ensures Simple(TenPeople())
  {
  }

  function FourCouples(): seq<int> {
    [1, 0, 3, 2, 5, 4, 7, 6, -1, -1]
  }

  /** Search states of root 8: after the first scans, after the first contraction, after the second. */
  function BeforeContraction(): Search {
    Search(FourCouples(), [-1, 1, -1, 1, -1, 1, -1, 1, 1, 0], [5, 0, 8, 2, 8, 4, 5, 6, -1, -1],
           [0, 1, 2, 3, 4, 5, 6, 7, 8, 9], [3, 1, 7])
  }

  function AfterFirst(): Search {
    Search(FourCouples(), [1, 1, -1, 1, -1, 1, 1, 1, 1, 0], [5, 7, 8, 2, 8, 4, 5, 1, -1, -1],
           [5, 5, 2, 3, 4, 5, 5, 5, 8, 9], [7, 0, 6])
  }

  function AfterSecond(): Search {
    Search(FourCouples(), [1, 1, 1, 1, 1, 1, 1, 1, 1, 0], [5, 7, 8, 6, 8, 7, 3, 1, -1, -1],
           [5, 5, 8, 8, 8, 8, 8, 8, 8, 9], [4, 2])
  }

  function Outcome(): seq<int> {
    [1, 0, 8, 6, 9, 7, 3, 5, 2, 4]
  }

  lemma FlipPair(mates: seq<int>, pred: seq<int>, s: int)
    requires |mates| == |pred| == 10 && 0 <= s < 9 && mates[s] == mates[s + 1] == -1 && pred[s + 1] == s
    ensures Flip(mates, pred, s + 1, 10) == mates[s := s + 1][s + 1 := s]
  {
  }

  lemma RootsPairUp(mates: seq<int>, s: int)
    requires (s == 0 && mates == [-1, -1, -1, -1, -1, -1, -1, -1, -1, -1])
          || (s == 2 && mates == [1, 0, -1, -1, -1, -1, -1, -1, -1, -1])
          || (s == 4 && mates == [1, 0, 3, 2, -1, -1, -1, -1, -1, -1])
          || (s == 6 && mates == [1, 0, 3, 2, 5, 4, -1, -1, -1, -1])
    ensures AugmentFrom(TenPeople(), mates, s) == mates[s := s + 1][s + 1 := s]
  {
    var adj := TenPeople();
    var se := StartAt(10, mates, s);
    assert adj[s][0] == s + 1 && se.q == [s];
    var popped := se.(q := se.q[1..]);
    FlipPair(mates, Put(popped.pred, s + 1, s), s);
    assert Visit(s, popped, s, s + 1) == Augmented(mates[s := s + 1][s + 1 := s]);
    assert Scan(adj, s, popped, s, 0) == Augmented(mates[s := s + 1][s + 1 := s]);
  }

  /** Root 8 pops 8 and 5 and hangs the four couples below itself. */
  function AfterRoot(): Search {
    Search(FourCouples(), [0, 0, -1, 1, -1, 1, 0, 0, 1, 0], [-1, -1, 8, 2, 8, 4, -1, -1, -1, -1],
           [0, 1, 2, 3, 4, 5, 6, 7, 8, 9], [5, 3])
  }

  lemma PopRoot()
    ensures Scan(TenPeople(), 8, StartAt(10, FourCouples(), 8).(q := []), 8, 0) == Continue(AfterRoot())
  {
    var adj, se := TenPeople(), StartAt(10, FourCouples(), 8).(q := []);
    var mid := Search(FourCouples(), [0, 0, 0, 0, -1, 1, 0, 0, 1, 0], [-1, -1, -1, -1, 8, 4, -1, -1, -1, -1],
                      [0, 1, 2, 3, 4, 5, 6, 7, 8, 9], [5]);
    assert Visit(8, se, 8, 4) == Continue(mid);
    assert Visit(8, mid, 8, 2) == Continue(AfterRoot());
    assert Scan(adj, 8, AfterRoot(), 8, 2) == Continue(AfterRoot());
    assert Scan(adj, 8, mid, 8, 1) == Continue(AfterRoot());
  }

  lemma PopFive()
    ensures Scan(TenPeople(), 8, AfterRoot().(q := [3]), 5, 0) == Continue(BeforeContraction())
  {
  }

  /** One turn of markPath, after which the base is reached. */
  lemma MarkOnce(se: Search, se': Search, v: int, b: int, child: int, prev: int, fuel: nat)
    requires fuel > 0 && At(se.base, v) != b && At(se.pred, v) == prev && At(se.labels, prev) != 1
    requires se' == Search(se.mates, Put(se.labels, prev, 1), Put(se.pred, v, child),
                           Put(Put(se.base, v, b), At(se.mates, v), b), se.q + [prev])
    requires At(se'.base, prev) == b
    ensures MarkPath(se, v, b, child, fuel) == se'
  {
  }

  lemma FirstLca()
    ensures Lca(BeforeContraction().(q := [7]), 8, 1, 7, 10) == 5
  {
    var se := BeforeContraction().(q := [7]);
    assert BasesToRoot(se, 8, 8, 8) == [8];
    assert BasesToRoot(se, 8, 5, 9) == [5, 8];
    assert BasesToRoot(se, 8, 1, 10) == [1, 5, 8];
    assert FirstVisited(se, [1, 5, 8], 5, 9) == 5;
  }

  lemma FirstMarks()
    ensures MarkPath(MarkPath(BeforeContraction().(q := [7]), 1, 5, 7, 10), 7, 5, 1, 10) == AfterFirst()
  {
    var half := Search(FourCouples(), [1, 1, -1, 1, -1, 1, -1, 1, 1, 0], [5, 7, 8, 2, 8, 4, 5, 6, -1, -1],
                       [5, 5, 2, 3, 4, 5, 6, 7, 8, 9], [7, 0]);
    MarkOnce(BeforeContraction().(q := [7]), half, 1, 5, 7, 0, 10);
    MarkOnce(half, AfterFirst(), 7, 5, 1, 6, 10);
  }

  /** Vertex 1 sees the outer vertex 7: the cycle 5 0 1 7 6 is contracted to 5, and pred of 1 and 7
      now lead across the edge that closed it. */
  lemma FirstContraction()
    ensures Visit(8, BeforeContraction().(q := [7]), 1, 7) == Continue(AfterFirst())
  {
    hide MarkPath, Lca;
    FirstLca();
    FirstMarks();
  }

  lemma PopThreeAndOne()
    ensures Scan(TenPeople(), 8, BeforeContraction().(q := [1, 7]), 3, 0)
         == Continue(BeforeContraction().(q := [1, 7]))
    ensures Scan(TenPeople(), 8, BeforeContraction().(q := [7]), 1, 0) == Continue(AfterFirst())
  {
    var adj, se, se1 := TenPeople(), BeforeContraction().(q := [1, 7]), BeforeContraction().(q := [7]);
    assert Visit(8, se, 3, 2) == Continue(se) && Visit(8, se, 3, 6) == Continue(se);
    assert Scan(adj, 8, se, 3, 2) == Continue(se);
    assert Scan(adj, 8, se, 3, 1) == Continue(se);
    assert Visit(8, se1, 1, 0) == Continue(se1);
    FirstContraction();
    assert Scan(adj, 8, AfterFirst(), 1, 2) == Continue(AfterFirst());
    assert Scan(adj, 8, se1, 1, 1) == Continue(AfterFirst());
  }

  lemma PopSevenAndZero()
    ensures Scan(TenPeople(), 8, AfterFirst().(q := [0, 6]), 7, 0) == Continue(AfterFirst().(q := [0, 6]))
    ensures Scan(TenPeople(), 8, AfterFirst().(q := [6]), 0, 0) == Continue(AfterFirst().(q := [6]))
  {
  }

  lemma SecondLca()
    ensures Lca(AfterFirst().(q := []), 8, 6, 3, 10) == 8
  {
    var se := AfterFirst().(q := []);
    assert BasesToRoot(se, 8, 8, 9) == [8];
    assert BasesToRoot(se, 8, 6, 10) == [5, 8];
    assert FirstVisited(se, [5, 8], 8, 9) == 8;
  }

  lemma SecondMarks()
    ensures MarkPath(MarkPath(AfterFirst().(q := []), 6, 8, 3, 10), 3, 8, 6, 10) == AfterSecond()
  {
    var se := AfterFirst().(q := []);
    var one := Search(FourCouples(), [1, 1, -1, 1, -1, 1, 1, 1, 1, 0], [5, 7, 8, 2, 8, 4, 3, 1, -1, -1],
                      [5, 5, 2, 3, 4, 5, 8, 8, 8, 9], []);
    var two := Search(FourCouples(), [1, 1, -1, 1, 1, 1, 1, 1, 1, 0], [5, 7, 8, 2, 8, 7, 3, 1, -1, -1],
                      [5, 5, 2, 3, 8, 8, 8, 8, 8, 9], [4]);
    assert MarkPath(se, 6, 8, 3, 10) == MarkPath(one, 5, 8, 7, 9);
    MarkOnce(one, two, 5, 8, 7, 4, 9);
    MarkOnce(two, AfterSecond(), 3, 8, 6, 2, 10);
  }

  /** Vertex 6 sees the outer vertex 3. Marking from 6 reaches 5, the base of the first cycle, with
      child 7, the mate of 6: pred of 5 becomes 7, who is no neighbour of 5. */
  lemma SecondContraction()
    ensures Visit(8, AfterFirst().(q := []), 6, 3) == Continue(AfterSecond())
  {
    hide MarkPath, Lca;
    SecondLca();
    SecondMarks();
  }

  lemma PopSix()
    ensures Scan(TenPeople(), 8, AfterFirst().(q := []), 6, 0) == Continue(AfterSecond())
  {
    var adj, se := TenPeople(), AfterFirst().(q := []);
    assert Visit(8, se, 6, 7) == Continue(se);
    SecondContraction();
    assert Visit(8, AfterSecond(), 6, 5) == Continue(AfterSecond());
    assert Scan(adj, 8, AfterSecond(), 6, 3) == Continue(AfterSecond());
    assert Scan(adj, 8, AfterSecond(), 6, 2) == Continue(AfterSecond());
    assert Scan(adj, 8, se, 6, 1) == Continue(AfterSecond());
  }

  /** The trace-back from 9 runs 4, 5, 7, 6, 3, 2, 8 and matches 5 with 7 on the way. */
  lemma LastFlips()
    ensures Flip(FourCouples(), [5, 7, 8, 6, 8, 7, 3, 1, -1, 4], 9, 10) == Outcome()
  {
    var pred := [5, 7, 8, 6, 8, 7, 3, 1, -1, 4];
    var m1 := [1, 0, 3, 2, 9, 4, 7, 6, -1, 4];
    var m2 := [1, 0, 3, 2, 9, 7, 7, 5, -1, 4];
    var m3 := [1, 0, 3, 6, 9, 7, 3, 5, -1, 4];
    FlipOnce(FourCouples(), pred, 9, 4, m1, 5, 10);
    FlipOnce(m1, pred, 5, 7, m2, 6, 9);
    FlipOnce(m2, pred, 6, 3, m3, 2, 8);
    FlipOnce(m3, pred, 2, 8, Outcome(), -1, 7);
  }

  lemma PopFour()
    ensures Scan(TenPeople(), 8, AfterSecond().(q := [2]), 4, 0) == Augmented(Outcome())
  {
    var adj, se := TenPeople(), AfterSecond().(q := [2]);
    assert Visit(8, se, 4, 5) == Continue(se);
    LastFlips();
    assert Put(se.pred, 9, 4) == [5, 7, 8, 6, 8, 7, 3, 1, -1, 4];
    hide Flip;
    assert Visit(8, se, 4, 9) == Augmented(Outcome());
    assert Scan(adj, 8, se, 4, 1) == Augmented(Outcome());
  }

  lemma DrainOnce(adj: Graph, s: int, se: Search, rest: seq<int>, se': Search, turns: nat)
    requires turns > 0 && se.q != [] && 0 <= se.q[0] < |adj| && rest == se.q[1..]
    requires Scan(adj, s, se.(q := rest), se.q[0], 0) == Continue(se')
    ensures Drain(adj, s, se, turns) == Drain(adj, s, se', turns - 1)
  {
  }

  lemma DrainEnds(adj: Graph, s: int, se: Search, rest: seq<int>, m: seq<int>, turns: nat)
    requires turns > 0 && se.q != [] && 0 <= se.q[0] < |adj| && rest == se.q[1..]
    requires Scan(adj, s, se.(q := rest), se.q[0], 0) == Augmented(m)
    ensures Drain(adj, s, se, turns) == Augmented(m)
  {
  }

  lemma RootEight()
    ensures AugmentFrom(TenPeople(), FourCouples(), 8) == Outcome()
  {
    var adj, start := TenPeople(), StartAt(10, FourCouples(), 8);
    PopRoot();
    PopFive();
    PopThreeAndOne();
    PopSevenAndZero();
    PopSix();
    PopFour();
    hide Scan, Drain;
    DrainOnce(adj, 8, start, [], AfterRoot(), 10);
    DrainOnce(adj, 8, AfterRoot(), [3], BeforeContraction(), 9);
    DrainOnce(adj, 8, BeforeContraction(), [1, 7], BeforeContraction().(q := [1, 7]), 8);
    DrainOnce(adj, 8, BeforeContraction().(q := [1, 7]), [7], AfterFirst(), 7);
    DrainOnce(adj, 8, AfterFirst(), [0, 6], AfterFirst().(q := [0, 6]), 6);
    DrainOnce(adj, 8, AfterFirst().(q := [0, 6]), [6], AfterFirst().(q := [6]), 5);
    DrainOnce(adj, 8, AfterFirst().(q := [6]), [], AfterSecond(), 4);
    DrainEnds(adj, 8, AfterSecond(), [2], Outcome(), 3);
  }

  lemma AllRoots()
    ensures MatchFrom(TenPeople(), [-1, -1, -1, -1, -1, -1, -1, -1, -1, -1], 0) == Outcome()
  {
    var adj := TenPeople();
    var m0: seq<int> := [-1, -1, -1, -1, -1, -1, -1, -1, -1, -1];
    var m2 := [1, 0, -1, -1, -1, -1, -1, -1, -1, -1];
    var m4 := [1, 0, 3, 2, -1, -1, -1, -1, -1, -1];
    var m6 := [1, 0, 3, 2, 5, 4, -1, -1, -1, -1];
    hide AugmentFrom, MatchFrom;
    RootsPairUp(m0, 0);
    MatchTries(adj, m0, 0, m2);
    MatchSkips(adj, m2, 1);
    RootsPairUp(m2, 2);
    MatchTries(adj, m2, 2, m4);
    MatchSkips(adj, m4, 3);
    RootsPairUp(m4, 4);
    MatchTries(adj, m4, 4, m6);
    MatchSkips(adj, m6, 5);
    RootsPairUp(m6, 6);
    MatchTries(adj, m6, 6, FourCouples());
    MatchSkips(adj, FourCouples(), 7);
    RootEight();
    MatchTries(adj, FourCouples(), 8, Outcome());
    MatchSkips(adj, Outcome(), 9);
    MatchDone(adj, Outcome());
  }

  /** The header promises a matching of any graph. On this one, a simple graph with odd cycles,
      maxMatching couples 5 and 7, who share no edge. */
  lemma OddCyclesBreakMatching()
    ensures var adj := WithPairs(seq(10, _ => []), ElevenPairs());
            var m := MatchFrom(adj, seq(10, _ => -1), 0);
            Simple(adj) && |adj| == |m| == 10 && m[5] == 7 && 7 !in adj[5] && !Coupling(adj, m)
  {
    hide MatchFrom, Simple, WithPairs;
    assert seq(10, _ => -1) == [-1, -1, -1, -1, -1, -1, -1, -1, -1, -1];
    TenPeopleBuilt();
    TenPeopleSimple();
    AllRoots();
    assert !Coupled(TenPeople(), Outcome(), 5);
  }
}
