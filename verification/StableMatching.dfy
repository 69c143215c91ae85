/** The theory of stable matchings that src/gale_shapley.cpp relies on.
    Men are group A (proposers), women are group B (receivers). A perfect matching is a
    permutation m with m[a] the woman of man a. */
module StableMatching {
  import opened Sequences

  type Prefs = seq<seq<int>>

  /** n strict, complete preference lists. */
  ghost predicate PreferenceLists(prefs: Prefs, n: nat) {
    |prefs| == n && forall i :: 0 <= i < n ==> Permutation(prefs[i], n)
  }

  /** Position of x on i's list: smaller is better. */
  function Rank(prefs: Prefs, i: int, x: int): nat
    requires 0 <= i < |prefs|
  {
    IndexOf(prefs[i], x)
  }

  lemma RankInverse(prefs: Prefs, n: nat, i: int)
    requires PreferenceLists(prefs, n) && 0 <= i < n
    ensures forall k :: 0 <= k < n ==> Rank(prefs, i, prefs[i][k]) == k
    ensures forall x :: 0 <= x < n ==> Rank(prefs, i, x) < n && prefs[i][Rank(prefs, i, x)] == x
  {
    forall k | 0 <= k < n ensures Rank(prefs, i, prefs[i][k]) == k {
      IndexOfUnique(prefs[i], k);
    }
    forall x | 0 <= x < n ensures Rank(prefs, i, x) < n && prefs[i][Rank(prefs, i, x)] == x {
      IndexOfPermutation(prefs[i], n, x);
    }
  }

  /** The man matched to woman b. */
  function PartnerOf(m: seq<int>, b: int): nat {
    IndexOf(m, b)
  }

  /** a and b would both rather have each other than their partners in m. */
  ghost predicate Blocks(prefA: Prefs, prefB: Prefs, m: seq<int>, a: int, b: int)
    requires 0 <= a < |prefA| && 0 <= b < |prefB| && a < |m|
  {
    && Rank(prefA, a, b) < Rank(prefA, a, m[a])
    && Rank(prefB, b, a) < Rank(prefB, b, PartnerOf(m, b))
  }

  ghost predicate Stable(prefA: Prefs, prefB: Prefs, m: seq<int>)
    requires |prefB| == |prefA|
  {
    && Permutation(m, |prefA|)
    && forall a, b :: 0 <= a < |prefA| && 0 <= b < |prefA| ==> !Blocks(prefA, prefB, m, a, b)
  }

  /** No stable matching pairs a with b. */
  ghost predicate NeverStable(prefA: Prefs, prefB: Prefs, a: int, b: int)
    requires |prefB| == |prefA| && 0 <= a < |prefA|
  {
    forall s :: Stable(prefA, prefB, s) ==> s[a] != b
  }

  /** Every man has the best partner he has in any stable matching. */
  ghost predicate ManOptimal(prefA: Prefs, prefB: Prefs, m: seq<int>)
    requires |m| == |prefB| == |prefA|
  {
    forall s, a :: Stable(prefA, prefB, s) && 0 <= a < |prefA| ==>
      Rank(prefA, a, m[a]) <= Rank(prefA, a, s[a])
  }

  /** Every woman has the worst partner she has in any stable matching. */
  ghost predicate WomanPessimal(prefA: Prefs, prefB: Prefs, m: seq<int>)
    requires |m| == |prefB| == |prefA|
  {
    forall s, b :: Stable(prefA, prefB, s) && 0 <= b < |prefA| ==>
      Rank(prefB, b, PartnerOf(s, b)) <= Rank(prefB, b, PartnerOf(m, b))
  }

  /** The heart of proposer-optimality. `winner` has just been preferred by b to `loser`, and
      nobody above b on winner's list is his partner in a stable matching; then b is not
      loser's partner in any stable matching either. */
  lemma RejectionIsFinal(prefA: Prefs, prefB: Prefs, n: nat, winner: int, loser: int, k: nat)
    requires PreferenceLists(prefA, n) && PreferenceLists(prefB, n)
    requires 0 <= winner < n && 0 <= loser < n && k < n
    requires forall i :: 0 <= i < k ==> NeverStable(prefA, prefB, winner, prefA[winner][i])
    requires Rank(prefB, prefA[winner][k], winner) < Rank(prefB, prefA[winner][k], loser)
    ensures NeverStable(prefA, prefB, loser, prefA[winner][k])
  {
    var b := prefA[winner][k];
    forall s | Stable(prefA, prefB, s) ensures s[loser] != b {
      forall i | 0 <= i < k ensures s[winner] != prefA[winner][i] {
        assert NeverStable(prefA, prefB, winner, prefA[winner][i]);
      }
      IndexOfUnique(s, loser);
      RankInverse(prefA, n, winner);
      assert !Blocks(prefA, prefB, s, winner, b);
      assert prefA[winner][Rank(prefA, winner, s[winner])] == s[winner];
    }
  }

  /** If b is a's partner in m, and m is man-optimal, then no stable matching gives b a man she
      likes less than she likes a without a and b blocking it. */
  lemma OptimalPartnerIsWorst(prefA: Prefs, prefB: Prefs, n: nat, m: seq<int>, s: seq<int>, a: int)
    requires PreferenceLists(prefA, n) && PreferenceLists(prefB, n) && 0 <= a < n
    requires Permutation(m, n) && Stable(prefA, prefB, s)
    requires Rank(prefA, a, m[a]) <= Rank(prefA, a, s[a])
    ensures Rank(prefB, m[a], PartnerOf(s, m[a])) <= Rank(prefB, m[a], a)
  {
    var b := m[a];
    assert !Blocks(prefA, prefB, s, a, b);
    hide Stable;
    if s[a] == b {
      IndexOfUnique(s, a);
    } else {
      RankInverse(prefA, n, a);
      assert prefA[a][Rank(prefA, a, b)] == b && prefA[a][Rank(prefA, a, s[a])] == s[a];
    }
  }

  /** A man-optimal stable matching is woman-pessimal. */
  lemma OptimalIsPessimal(prefA: Prefs, prefB: Prefs, n: nat, m: seq<int>)
    requires PreferenceLists(prefA, n) && PreferenceLists(prefB, n)
    requires Permutation(m, n) && ManOptimal(prefA, prefB, m)
    ensures WomanPessimal(prefA, prefB, m)
  {
    forall s, b | Stable(prefA, prefB, s) && 0 <= b < n
      ensures Rank(prefB, b, PartnerOf(s, b)) <= Rank(prefB, b, PartnerOf(m, b))
    {
      IndexOfPermutation(m, n, b);
      hide PreferenceLists, Stable, Rank;
      OptimalPartnerIsWorst(prefA, prefB, n, m, s, PartnerOf(m, b));
    }
  }

  /** There is only one man-optimal stable matching, so the outcome of `run` depends neither on
      the order of the queue nor on what was matched before it. */
  lemma ManOptimalUnique(prefA: Prefs, prefB: Prefs, n: nat, m: seq<int>, m': seq<int>)
    requires PreferenceLists(prefA, n) && PreferenceLists(prefB, n)
    requires Stable(prefA, prefB, m) && ManOptimal(prefA, prefB, m)
    requires Stable(prefA, prefB, m') && ManOptimal(prefA, prefB, m')
    ensures m == m'
  {
    forall a | 0 <= a < n ensures m[a] == m'[a] {
      RankInverse(prefA, n, a);
      assert Rank(prefA, a, m[a]) == Rank(prefA, a, m'[a]);
      assert prefA[a][Rank(prefA, a, m[a])] == m[a] && prefA[a][Rank(prefA, a, m'[a])] == m'[a];
    }
  }
}
