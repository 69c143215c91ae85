/** src/gale_shapley.cpp: rank tables, the proposal loop and the stability checker. */
module GaleShapley {
  import opened Sequences
  import opened StableMatching

  /** table[i][x] is the position of x on i's list. */
  ghost predicate IsRankTable(table: seq<seq<int>>, prefs: Prefs, n: nat)
    requires |prefs| == n
  {
    && |table| == n
    && (forall i :: 0 <= i < n ==> |table[i]| == n)
    && (forall i, x :: 0 <= i < n && 0 <= x < n ==> table[i][x] == Rank(prefs, i, x))
  }

  /** Entries are -1 or indices, and the two sides agree on who is with whom. */
  ghost predicate Inverse(mA: seq<int>, mB: seq<int>, n: nat) {
    && |mA| == |mB| == n
    && (forall a :: 0 <= a < n ==> -1 <= mA[a] < n)
    && (forall b :: 0 <= b < n ==> -1 <= mB[b] < n)
    && (forall a :: 0 <= a < n && mA[a] != -1 ==> mB[mA[a]] == a)
    && (forall b :: 0 <= b < n && mB[b] != -1 ==> mA[mB[b]] == b)
  }

  /** Both a and b are matched and both would rather have each other. */
  ghost predicate Tempted(prefA: Prefs, prefB: Prefs, mA: seq<int>, mB: seq<int>, a: int, b: int)
    requires 0 <= a < |prefA| == |mA| && 0 <= b < |prefB| == |mB|
  {
    && mA[a] != -1 && mB[b] != -1
    && Rank(prefA, a, b) < Rank(prefA, a, mA[a])
    && Rank(prefB, b, a) < Rank(prefB, b, mB[b])
  }

  /** `next` counts each man's proposals; a matched man's last proposal is his match. */
  ghost predicate Proposed(prefA: Prefs, n: nat, mA: seq<int>, next: seq<nat>)
    requires PreferenceLists(prefA, n) && |mA| == n
  {
    && |next| == n
    && (forall a :: 0 <= a < n ==> next[a] <= n)
    && (forall a :: 0 <= a < n && mA[a] != -1 ==> next[a] > 0 && prefA[a][next[a] - 1] == mA[a])
  }

  /** The queue holds exactly the free men, once each. */
  ghost predicate QueueOfFree(mA: seq<int>, n: nat, free: seq<int>)
    requires |mA| == n
  {
    && Injection(free, n)
    && (forall a :: 0 <= a < n ==> (a in free <==> mA[a] == -1))
  }

  /** A woman who has been proposed to holds someone at least as good as that proposer. */
  ghost predicate WomenTradeUp(prefA: Prefs, prefB: Prefs, n: nat, mB: seq<int>, next: seq<nat>)
    requires PreferenceLists(prefA, n) && PreferenceLists(prefB, n)
    requires |mB| == |next| == n && forall a :: 0 <= a < n ==> next[a] <= n
  {
    forall a, k :: 0 <= a < n && 0 <= k < next[a] ==>
      var b := prefA[a][k];
      mB[b] != -1 && Rank(prefB, b, mB[b]) <= Rank(prefB, b, a)
  }

  /** Nobody has been rejected by a partner he has in some stable matching. */
  ghost predicate RejectionsFinal(prefA: Prefs, prefB: Prefs, n: nat, mA: seq<int>, next: seq<nat>)
    requires PreferenceLists(prefA, n) && PreferenceLists(prefB, n)
    requires |mA| == |next| == n && forall a :: 0 <= a < n ==> next[a] <= n
  {
    forall a, k :: 0 <= a < n && 0 <= k < next[a] && prefA[a][k] != mA[a] ==>
      NeverStable(prefA, prefB, a, prefA[a][k])
  }

  ghost predicate RunInvariant(prefA: Prefs, prefB: Prefs, n: nat,
                               mA: seq<int>, mB: seq<int>, next: seq<nat>, free: seq<int>)
    requires PreferenceLists(prefA, n) && PreferenceLists(prefB, n)
  {
    && Inverse(mA, mB, n)
    && Proposed(prefA, n, mA, next)
    && QueueOfFree(mA, n, free)
    && WomenTradeUp(prefA, prefB, n, mB, next)
    && RejectionsFinal(prefA, prefB, n, mA, next)
  }

  /** While anybody is free nobody has been through his whole list: if some man had, all women,
      hence all men, would be matched. */
  lemma NobodyAtListEnd(prefA: Prefs, prefB: Prefs, n: nat, mA: seq<int>, mB: seq<int>,
                        next: seq<nat>, free: seq<int>, i: nat)
    requires PreferenceLists(prefA, n) && PreferenceLists(prefB, n)
    requires RunInvariant(prefA, prefB, n, mA, mB, next, free) && free != [] && i < n
    ensures next[i] < n
  {
    assert free[0] in free;
    if next[i] == n {
      forall b | 0 <= b < n ensures mB[b] != -1 {
        RankInverse(prefA, n, i);
        assert b == prefA[i][Rank(prefA, i, b)];
      }
      assert Injection(mB, n);
      PermutationHits(mB, n, free[0]);
    }
  }

  /** The man at the head of the queue is free and still has somebody to propose to. */
  lemma HeadCanPropose(prefA: Prefs, prefB: Prefs, n: nat,
                       mA: seq<int>, mB: seq<int>, next: seq<nat>, free: seq<int>)
    requires PreferenceLists(prefA, n) && PreferenceLists(prefB, n)
    requires RunInvariant(prefA, prefB, n, mA, mB, next, free) && free != []
    ensures |prefA| == |prefB| == |mA| == |mB| == |next| == n
    ensures forall i :: 0 <= i < n ==> next[i] < n
    ensures 0 <= free[0] < n && mA[free[0]] == -1 && |prefA[free[0]]| == n
    ensures 0 <= prefA[free[0]][next[free[0]]] < n
    ensures -1 <= mB[prefA[free[0]][next[free[0]]]] < n
  {
    assert free[0] in free;
    forall i | 0 <= i < n ensures next[i] < n {
      NobodyAtListEnd(prefA, prefB, n, mA, mB, next, free, i);
    }
  }

  lemma StartInvariant(prefA: Prefs, prefB: Prefs, n: nat,
                       mA: seq<int>, mB: seq<int>, next: seq<nat>, free: seq<int>)
    requires PreferenceLists(prefA, n) && PreferenceLists(prefB, n)
    requires |mA| == |mB| == |next| == |free| == n
    requires forall k :: 0 <= k < n ==> mA[k] == mB[k] == -1 && next[k] == 0 && free[k] == k
    ensures RunInvariant(prefA, prefB, n, mA, mB, next, free)
  {
  }

  lemma AcceptKeepsInverse(n: nat, mA: seq<int>, mB: seq<int>, a: int, b: int)
    requires Inverse(mA, mB, n)
    requires 0 <= a < n && mA[a] == -1 && 0 <= b < n && mB[b] == -1
    ensures Inverse(mA[a := b], mB[b := a], n)
  {
  }

  lemma AcceptKeepsQueue(n: nat, mA: seq<int>, free: seq<int>, a: int, b: int)
    requires |mA| == n && QueueOfFree(mA, n, free) && free != [] && a == free[0] && 0 <= b < n
    ensures QueueOfFree(mA[a := b], n, free[1..])
  {
  }

  lemma AcceptKeepsTradeUp(prefA: Prefs, prefB: Prefs, n: nat, mB: seq<int>, next: seq<nat>, a: int, b: int)
    requires PreferenceLists(prefA, n) && PreferenceLists(prefB, n)
    requires |mB| == |next| == n && forall i :: 0 <= i < n ==> next[i] <= n
    requires WomenTradeUp(prefA, prefB, n, mB, next)
    requires 0 <= a < n && next[a] < n && b == prefA[a][next[a]] && mB[b] == -1
    ensures WomenTradeUp(prefA, prefB, n, mB[b := a], next[a := next[a] + 1])
  {
  }

  lemma AcceptKeepsFinal(prefA: Prefs, prefB: Prefs, n: nat, mA: seq<int>, next: seq<nat>, a: int)
    requires PreferenceLists(prefA, n) && PreferenceLists(prefB, n)
    requires |mA| == |next| == n && forall i :: 0 <= i < n ==> next[i] <= n
    requires RejectionsFinal(prefA, prefB, n, mA, next)
    requires 0 <= a < n && mA[a] == -1 && next[a] < n
    ensures RejectionsFinal(prefA, prefB, n, mA[a := prefA[a][next[a]]], next[a := next[a] + 1])
  {
  }

  /** The free man a at the head of the queue proposes to the free woman b. */
  lemma FreeWomanAccepts(prefA: Prefs, prefB: Prefs, n: nat, mA: seq<int>, mB: seq<int>,
                         next: seq<nat>, free: seq<int>, a: int, b: int)
    requires PreferenceLists(prefA, n) && PreferenceLists(prefB, n)
    requires RunInvariant(prefA, prefB, n, mA, mB, next, free)
    requires free != [] && a == free[0] && next[a] < n && b == prefA[a][next[a]] && mB[b] == -1
    ensures RunInvariant(prefA, prefB, n, mA[a := b], mB[b := a], next[a := next[a] + 1], free[1..])
  {
    hide WomenTradeUp, RejectionsFinal;
    assert a in free;
    AcceptKeepsInverse(n, mA, mB, a, b);
    AcceptKeepsQueue(n, mA, free, a, b);
    AcceptKeepsTradeUp(prefA, prefB, n, mB, next, a, b);
    AcceptKeepsFinal(prefA, prefB, n, mA, next, a);
  }

  lemma TradeKeepsInverse(n: nat, mA: seq<int>, mB: seq<int>, a: int, b: int, current: int)
    requires Inverse(mA, mB, n)
    requires 0 <= a < n && mA[a] == -1 && 0 <= b < n && mB[b] == current != -1
    ensures Inverse(mA[a := b][current := -1], mB[b := a], n)
  {
  }

  lemma TradeKeepsQueue(n: nat, mA: seq<int>, free: seq<int>, a: int, b: int, current: int)
    requires |mA| == n && QueueOfFree(mA, n, free)
    requires free != [] && a == free[0] && 0 <= b < n && 0 <= current < n && mA[current] == b
    ensures QueueOfFree(mA[a := b][current := -1], n, free[1..] + [current])
  {
  }

  lemma TradeKeepsTradeUp(prefA: Prefs, prefB: Prefs, n: nat, mB: seq<int>, next: seq<nat>,
                          a: int, b: int, current: int)
    requires PreferenceLists(prefA, n) && PreferenceLists(prefB, n)
    requires |mB| == |next| == n && forall i :: 0 <= i < n ==> next[i] <= n
    requires WomenTradeUp(prefA, prefB, n, mB, next)
    requires 0 <= a < n && next[a] < n && b == prefA[a][next[a]]
    requires mB[b] == current && Rank(prefB, b, a) < Rank(prefB, b, current)
    ensures WomenTradeUp(prefA, prefB, n, mB[b := a], next[a := next[a] + 1])
  {
  }

  /** Appending a's proposal to b and moving `loser` out of b keeps every rejection final. */
  lemma RejectionKeepsFinal(prefA: Prefs, prefB: Prefs, n: nat, mA: seq<int>, mA': seq<int>,
                            next: seq<nat>, a: int, loser: int)
    requires PreferenceLists(prefA, n) && PreferenceLists(prefB, n)
    requires |mA| == |mA'| == |next| == n && forall i :: 0 <= i < n ==> next[i] <= n
    requires RejectionsFinal(prefA, prefB, n, mA, next)
    requires 0 <= a < n && 0 <= loser < n && next[a] < n && mA[a] == -1
    requires NeverStable(prefA, prefB, loser, prefA[a][next[a]])
    requires a != loser ==> mA[loser] == prefA[a][next[a]] && mA'[a] == prefA[a][next[a]]
    requires forall i :: 0 <= i < n && i != a && i != loser ==> mA'[i] == mA[i]
    ensures RejectionsFinal(prefA, prefB, n, mA', next[a := next[a] + 1])
  {
  }

  lemma ProposerWins(prefA: Prefs, prefB: Prefs, n: nat, mA: seq<int>, next: seq<nat>,
                     a: int, b: int, current: int)
    requires PreferenceLists(prefA, n) && PreferenceLists(prefB, n)
    requires |mA| == |next| == n && forall i :: 0 <= i < n ==> next[i] <= n
    requires RejectionsFinal(prefA, prefB, n, mA, next)
    requires 0 <= a < n && mA[a] == -1 && next[a] < n && b == prefA[a][next[a]] && 0 <= current < n
    requires Rank(prefB, b, a) < Rank(prefB, b, current)
    ensures NeverStable(prefA, prefB, current, b)
  {
    RejectionIsFinal(prefA, prefB, n, a, current, next[a]);
  }

  /** The woman b prefers a to the man she holds, who goes to the back of the queue. */
  lemma WomanTrades(prefA: Prefs, prefB: Prefs, n: nat, mA: seq<int>, mB: seq<int>,
                    next: seq<nat>, free: seq<int>, a: int, b: int, current: int)
    requires PreferenceLists(prefA, n) && PreferenceLists(prefB, n)
    requires RunInvariant(prefA, prefB, n, mA, mB, next, free)
    requires free != [] && a == free[0] && next[a] < n && b == prefA[a][next[a]]
    requires mB[b] == current != -1 && Rank(prefB, b, a) < Rank(prefB, b, current)
    ensures RunInvariant(prefA, prefB, n, mA[a := b][current := -1], mB[b := a],
                         next[a := next[a] + 1], free[1..] + [current])
  {
    hide WomenTradeUp, RejectionsFinal, NeverStable;
    assert a in free;
    ProposerWins(prefA, prefB, n, mA, next, a, b, current);
    TradeKeepsInverse(n, mA, mB, a, b, current);
    TradeKeepsQueue(n, mA, free, a, b, current);
    TradeKeepsTradeUp(prefA, prefB, n, mB, next, a, b, current);
    RejectionKeepsFinal(prefA, prefB, n, mA, mA[a := b][current := -1], next, a, current);
  }

  lemma RefusalKeepsQueue(n: nat, mA: seq<int>, free: seq<int>, a: int)
    requires |mA| == n && QueueOfFree(mA, n, free) && free != [] && a == free[0]
    ensures QueueOfFree(mA, n, free[1..] + [a])
  {
  }

  lemma RefusalKeepsTradeUp(prefA: Prefs, prefB: Prefs, n: nat, mB: seq<int>, next: seq<nat>, a: int)
    requires PreferenceLists(prefA, n) && PreferenceLists(prefB, n)
    requires |mB| == |next| == n && forall i :: 0 <= i < n ==> next[i] <= n
    requires WomenTradeUp(prefA, prefB, n, mB, next) && 0 <= a < n && next[a] < n
    requires var b := prefA[a][next[a]]; mB[b] != -1 && Rank(prefB, b, mB[b]) <= Rank(prefB, b, a)
    ensures WomenTradeUp(prefA, prefB, n, mB, next[a := next[a] + 1])
  {
  }

  lemma HolderWins(prefA: Prefs, prefB: Prefs, n: nat, mA: seq<int>, next: seq<nat>,
                   a: int, b: int, current: int)
    requires PreferenceLists(prefA, n) && PreferenceLists(prefB, n)
    requires |mA| == n && Proposed(prefA, n, mA, next) && RejectionsFinal(prefA, prefB, n, mA, next)
    requires 0 <= a < n && 0 <= current < n && 0 <= b < n && a != current && mA[current] == b
    requires Rank(prefB, b, a) >= Rank(prefB, b, current)
    ensures NeverStable(prefA, prefB, a, b)
  {
    RankInverse(prefB, n, b);
    assert prefB[b][Rank(prefB, b, a)] == a && prefB[b][Rank(prefB, b, current)] == current;
    RejectionIsFinal(prefA, prefB, n, current, a, next[current] - 1);
  }

  /** The woman b keeps the man she holds and a goes to the back of the queue. */
  lemma WomanRefuses(prefA: Prefs, prefB: Prefs, n: nat, mA: seq<int>, mB: seq<int>,
                     next: seq<nat>, free: seq<int>, a: int, b: int, current: int)
    requires PreferenceLists(prefA, n) && PreferenceLists(prefB, n)
    requires RunInvariant(prefA, prefB, n, mA, mB, next, free)
    requires free != [] && a == free[0] && next[a] < n && b == prefA[a][next[a]]
    requires mB[b] == current != -1 && Rank(prefB, b, a) >= Rank(prefB, b, current)
    ensures RunInvariant(prefA, prefB, n, mA, mB, next[a := next[a] + 1], free[1..] + [a])
  {
    hide WomenTradeUp, RejectionsFinal, NeverStable, Rank;
    assert a in free;
    RefusalKeepsQueue(n, mA, free, a);
    RefusalKeepsTradeUp(prefA, prefB, n, mB, next, a);
    HolderWins(prefA, prefB, n, mA, next, a, b, current);
    RejectionKeepsFinal(prefA, prefB, n, mA, mA, next, a, a);
  }

  /** When nobody is free, everybody is matched. */
  lemma RunIsPerfect(n: nat, mA: seq<int>, mB: seq<int>)
    requires Inverse(mA, mB, n) && QueueOfFree(mA, n, [])
    ensures Permutation(mA, n) && Permutation(mB, n)
  {
    assert forall a :: 0 <= a < n ==> a !in [] && mA[a] != -1;
    forall b | 0 <= b < n ensures mB[b] != -1 {
      PermutationHits(mA, n, b);
    }
  }

  lemma RunIsStable(prefA: Prefs, prefB: Prefs, n: nat, mA: seq<int>, mB: seq<int>, next: seq<nat>)
    requires PreferenceLists(prefA, n) && PreferenceLists(prefB, n)
    requires Inverse(mA, mB, n) && Permutation(mA, n) && Permutation(mB, n)
    requires Proposed(prefA, n, mA, next) && WomenTradeUp(prefA, prefB, n, mB, next)
    ensures Stable(prefA, prefB, mA)
  {
  }

  lemma RunIsManOptimal(prefA: Prefs, prefB: Prefs, n: nat, mA: seq<int>, next: seq<nat>)
    requires PreferenceLists(prefA, n) && PreferenceLists(prefB, n)
    requires Permutation(mA, n) && Proposed(prefA, n, mA, next)
    requires RejectionsFinal(prefA, prefB, n, mA, next)
    ensures ManOptimal(prefA, prefB, mA)
  {
  }

  /** When nobody is free the invariant says everything `run` is for. */
  lemma RunFinishes(prefA: Prefs, prefB: Prefs, n: nat, mA: seq<int>, mB: seq<int>, next: seq<nat>)
    requires PreferenceLists(prefA, n) && PreferenceLists(prefB, n)
    requires RunInvariant(prefA, prefB, n, mA, mB, next, [])
    ensures Inverse(mA, mB, n) && Permutation(mA, n) && Permutation(mB, n)
    ensures Stable(prefA, prefB, mA) && ManOptimal(prefA, prefB, mA) && WomanPessimal(prefA, prefB, mA)
  {
    hide Inverse, Proposed, QueueOfFree, WomenTradeUp, RejectionsFinal, Stable, ManOptimal, Rank;
    RunIsPerfect(n, mA, mB);
    RunIsStable(prefA, prefB, n, mA, mB, next);
    RunIsManOptimal(prefA, prefB, n, mA, next);
    OptimalIsPessimal(prefA, prefB, n, mA);
  }

  /** What each man's proposals come to when he ends up with m: one to each woman down to her. */
  function ProposalsDownTo(prefA: Prefs, m: seq<int>): (r: seq<int>)
    requires |m| == |prefA|
    ensures |r| == |m| && forall a :: 0 <= a < |r| ==> r[a] == Rank(prefA, a, m[a]) + 1
  {
    seq(|m|, a requires 0 <= a < |m| => Rank(prefA, a, m[a]) + 1)
  }

  /** The number of proposals is settled by the outcome, whatever the queue order. */
  lemma ProposalCount(prefA: Prefs, prefB: Prefs, n: nat, mA: seq<int>, mB: seq<int>, next: seq<nat>)
    requires PreferenceLists(prefA, n) && PreferenceLists(prefB, n)
    requires RunInvariant(prefA, prefB, n, mA, mB, next, [])
    ensures |mA| == |prefA| && Sum(next) == Sum(ProposalsDownTo(prefA, mA))
  {
    hide WomenTradeUp, RejectionsFinal, Rank, Sum;
    forall a | 0 <= a < n ensures next[a] == Rank(prefA, a, mA[a]) + 1 {
      assert a !in [];
      RankInverse(prefA, n, a);
    }
    assert next == ProposalsDownTo(prefA, mA);
  }

  /** Whether a couple is tempted does not depend on who else is matched: in a part of a matching the
      tempted are those of the whole who are both still matched. */
  lemma PartTempted(prefA: Prefs, prefB: Prefs, n: nat, mA: seq<int>, mB: seq<int>,
                    mA': seq<int>, mB': seq<int>, a: nat, b: nat)
    requires |prefA| == |prefB| == n && Inverse(mA, mB, n) && Inverse(mA', mB', n) && a < n && b < n
    requires forall i :: 0 <= i < n && mA'[i] != -1 ==> mA'[i] == mA[i]
    ensures Tempted(prefA, prefB, mA', mB', a, b) <==>
            Tempted(prefA, prefB, mA, mB, a, b) && mA'[a] != -1 && mB'[b] != -1
  {
    hide Rank;
  }

  lemma PairwiseIsStable(prefA: Prefs, prefB: Prefs, n: nat, mA: seq<int>, mB: seq<int>)
    requires PreferenceLists(prefA, n) && PreferenceLists(prefB, n)
    requires Inverse(mA, mB, n) && forall a :: 0 <= a < n ==> mA[a] != -1
    ensures Stable(prefA, prefB, mA) <==>
            forall a, b :: 0 <= a < n && 0 <= b < n ==> !Tempted(prefA, prefB, mA, mB, a, b)
  {
    assert Permutation(mA, n);
    forall b | 0 <= b < n ensures mB[b] != -1 && PartnerOf(mA, b) == mB[b] {
      PermutationHits(mA, n, b);
      assert mB[b] != -1;
      IndexOfUnique(mA, mB[b]);
    }
    assert forall a, b :: 0 <= a < n && 0 <= b < n ==>
      (Blocks(prefA, prefB, mA, a, b) <==> Tempted(prefA, prefB, mA, mB, a, b));
  }

  class GaleShapley {
    const n: nat
    const prefA: Prefs
    const rankA: seq<seq<int>>
    const rankB: seq<seq<int>>
    ghost const prefB: Prefs
    var matchA: seq<int>
    var matchB: seq<int>

    ghost predicate Valid() {
      && |prefA| == |prefB| == n
      && PreferenceLists(prefA, n) && PreferenceLists(prefB, n)
      && IsRankTable(rankA, prefA, n) && IsRankTable(rankB, prefB, n)
    }

    /** The two rank loops of the constructor. */
    static method RankTable(prefs: Prefs, n: nat) returns (table: seq<seq<int>>)
      requires PreferenceLists(prefs, n)
      ensures IsRankTable(table, prefs, n)
      ensures forall i, k :: 0 <= i < n && 0 <= k < n ==> table[i][prefs[i][k]] == k
    {
      table := seq(n, _ => seq(n, _ => 0));
      for i := 0 to n
        invariant |table| == n && forall j :: 0 <= j < n ==> |table[j]| == n
        invariant forall j, x :: 0 <= j < i && 0 <= x < n ==> table[j][x] == Rank(prefs, j, x)
      {
        var row := table[i];
        for rank := 0 to n
          invariant |row| == n
          invariant forall k :: 0 <= k < rank ==> row[prefs[i][k]] == k
        {
          row := row[prefs[i][rank] := rank];
        }
        RankInverse(prefs, n, i);
        assert forall x :: 0 <= x < n ==> row[prefs[i][Rank(prefs, i, x)]] == Rank(prefs, i, x);
        table := table[i := row];
      }
      forall i, k | 0 <= i < n && 0 <= k < n ensures table[i][prefs[i][k]] == k {
        RankInverse(prefs, n, i);
      }
    }

    constructor (groupAPrefs: Prefs, groupBPrefs: Prefs)
      requires PreferenceLists(groupAPrefs, |groupAPrefs|)
      requires PreferenceLists(groupBPrefs, |groupAPrefs|)
      ensures Valid() && n == |groupAPrefs| && prefA == groupAPrefs && prefB == groupBPrefs
      ensures matchA == matchB == []
    {
      n := |groupAPrefs|;
      prefA := groupAPrefs;
      prefB := groupBPrefs;
      matchA, matchB := [], [];
      var tableA := RankTable(groupAPrefs, |groupAPrefs|);
      var tableB := RankTable(groupBPrefs, |groupAPrefs|);
      rankA, rankB := tableA, tableB;
    }

    /** However many stable matchings there are, the one left behind is the men's best and the women's
        worst. Each turn of the loop is one proposal; there are as many as it takes every man to get
        down his list to his match, and at most n * (n - 1) + 1. */
    method Run() returns (ghost proposals: nat)
      requires Valid()
      modifies this`matchA, this`matchB
      ensures Inverse(matchA, matchB, n) && Permutation(matchA, n) && Permutation(matchB, n)
      ensures Stable(prefA, prefB, matchA)
      ensures ManOptimal(prefA, prefB, matchA)
      ensures WomanPessimal(prefA, prefB, matchA)
      ensures proposals == Sum(ProposalsDownTo(prefA, matchA)) <= n * (n - 1) + 1
    {
      hide RunInvariant, PreferenceLists, Inverse, Stable, ManOptimal, WomanPessimal, Rank;
      matchA := seq(n, _ => -1);
      matchB := seq(n, _ => -1);
      var next: seq<nat> := seq(n, _ => 0);
      var free: seq<int> := [];
      for i := 0 to n
        invariant |free| == i && forall k :: 0 <= k < i ==> free[k] == k
      {
        free := free + [i];
      }
      StartInvariant(prefA, prefB, n, matchA, matchB, next, free);
      SumZero(next);
      proposals := 0;

      while free != []
        invariant RunInvariant(prefA, prefB, n, matchA, matchB, next, free)
        invariant proposals == Sum(next) <= n * (n - 1) + 1
        decreases n * (n - 1) + 1 - proposals
      {
        var a := free[0];
        HeadCanPropose(prefA, prefB, n, matchA, matchB, next, free);
        SumBounded(next, 0, n - 1);
        SumUpdate(next, a, next[a] + 1);
        proposals := proposals + 1;
        var b := prefA[a][next[a]];
        ghost var mA, mB, next0, free0 := matchA, matchB, next, free;
        free := free[1..];
        next := next[a := next[a] + 1];
        if matchB[b] == -1 {
          matchA := matchA[a := b];
          matchB := matchB[b := a];
          FreeWomanAccepts(prefA, prefB, n, mA, mB, next0, free0, a, b);
        } else {
          var current := matchB[b];
          if rankB[b][a] < rankB[b][current] {
            matchA := matchA[a := b];
            matchB := matchB[b := a];
            matchA := matchA[current := -1];
            free := free + [current];
            WomanTrades(prefA, prefB, n, mA, mB, next0, free0, a, b, current);
          } else {
            free := free + [a];
            WomanRefuses(prefA, prefB, n, mA, mB, next0, free0, a, b, current);
          }
        }
      }
      RunFinishes(prefA, prefB, n, matchA, matchB, next);
      ProposalCount(prefA, prefB, n, matchA, matchB, next);
    }

    /** Reads the tables only: true iff no matched man and matched woman prefer each other
        to their partners; on a perfect matching, iff it is stable. */
    method IsStable() returns (r: bool)
      requires Valid() && matchA != []
      requires Inverse(matchA, matchB, n)
      ensures r <==> forall a, b :: 0 <= a < n && 0 <= b < n ==> !Tempted(prefA, prefB, matchA, matchB, a, b)
      ensures (forall a :: 0 <= a < n ==> matchA[a] != -1) ==> (r <==> Stable(prefA, prefB, matchA))
    {
      hide PreferenceLists, Stable, Rank;
      if forall a :: 0 <= a < n ==> matchA[a] != -1 {
        PairwiseIsStable(prefA, prefB, n, matchA, matchB);
      }
      for a := 0 to n
        invariant forall a', b :: 0 <= a' < a && 0 <= b < n ==> !Tempted(prefA, prefB, matchA, matchB, a', b)
      {
        if matchA[a] == -1 { continue; }
        for b := 0 to n
          invariant forall b' :: 0 <= b' < b ==> !Tempted(prefA, prefB, matchA, matchB, a, b')
        {
          if matchA[a] == b { continue; }
          if matchB[b] == -1 { continue; }
          if rankA[a][b] >= rankA[a][matchA[a]] { continue; }
          if rankB[b][a] < rankB[b][matchB[b]] {
            assert Tempted(prefA, prefB, matchA, matchB, a, b);
            return false;
          }
        }
      }
      return true;
    }
  }
}
