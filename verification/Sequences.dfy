/** Finite sums, injections and cardinalities: the counting facts the matching proofs share. */
module Sequences {
  /** Sum of a sequence, last element last. */
  function Sum(s: seq<int>): int {
    if s == [] then 0 else Sum(s[..|s| - 1]) + s[|s| - 1]
  }

  lemma SumAppend(s: seq<int>, x: int)
    ensures Sum(s + [x]) == Sum(s) + x
  {
  }

  lemma {:induction false} SumUpdate(s: seq<int>, k: nat, x: int)
    requires k < |s|
    ensures Sum(s[k := x]) == Sum(s) - s[k] + x
  {
    var n := |s| - 1;
    if k == n {
      assert s[k := x][..n] == s[..n];
    } else {
      assert s[k := x][..n] == s[..n][k := x];
      SumUpdate(s[..n], k, x);
    }
  }

  lemma {:induction false} SumMonotone(s: seq<int>, t: seq<int>)
    requires |s| == |t|
    requires forall k :: 0 <= k < |s| ==> s[k] <= t[k]
    ensures Sum(s) <= Sum(t)
  {
    if s != [] {
      SumMonotone(s[..|s| - 1], t[..|t| - 1]);
    }
  }

  lemma {:induction false} SumPlus(s: seq<int>, t: seq<int>, w: seq<int>)
    requires |s| == |t| == |w|
    requires forall k :: 0 <= k < |s| ==> w[k] == s[k] + t[k]
    ensures Sum(w) == Sum(s) + Sum(t)
  {
    if s != [] {
      SumPlus(s[..|s| - 1], t[..|s| - 1], w[..|s| - 1]);
    }
  }

  lemma {:induction false} SumZero(s: seq<int>)
    requires forall k :: 0 <= k < |s| ==> s[k] == 0
    ensures Sum(s) == 0
  {
    if s != [] {
      SumZero(s[..|s| - 1]);
    }
  }

  lemma {:induction false} SumBounded(s: seq<int>, lo: int, hi: int)
    requires forall k :: 0 <= k < |s| ==> lo <= s[k] <= hi
    ensures |s| * lo <= Sum(s) <= |s| * hi
  {
    if s != [] {
      SumBounded(s[..|s| - 1], lo, hi);
      assert |s| * hi == (|s| - 1) * hi + hi && |s| * lo == (|s| - 1) * lo + lo;
    }
  }

  lemma {:induction false} SumNatural(s: seq<nat>)
    ensures Sum(s) >= 0
  {
    if s != [] {
      SumNatural(s[..|s| - 1]);
    }
  }

  lemma {:induction false} SumConcat(s: seq<int>, t: seq<int>)
    ensures Sum(s + t) == Sum(s) + Sum(t)
  {
    if t == [] {
      assert s + t == s;
    } else {
      var n := |t| - 1;
      SumConcat(s, t[..n]);
      assert s + t == (s + t[..n]) + [t[n]];
      SumAppend(s + t[..n], t[n]);
    }
  }

  /** p sends its indices one-to-one into 0..m-1. */
  ghost predicate Injection(p: seq<int>, m: nat) {
    && (forall i :: 0 <= i < |p| ==> 0 <= p[i] < m)
    && (forall i, j :: 0 <= i < j < |p| ==> p[i] != p[j])
  }

  ghost predicate Permutation(p: seq<int>, n: nat) {
    |p| == n && Injection(p, n)
  }

  /** The entries of f that p selects, in p's order. */
  function Gather(f: seq<int>, p: seq<int>): (g: seq<int>)
    requires forall i :: 0 <= i < |p| ==> 0 <= p[i] < |f|
    ensures |g| == |p|
    ensures forall i :: 0 <= i < |p| ==> g[i] == f[p[i]]
  {
    seq(|p|, i requires 0 <= i < |p| => f[p[i]])
  }

  /** Summing a non-positive f over an injection never goes below the full sum. */
  lemma {:induction false} SumGatherNonPositive(f: seq<int>, p: seq<int>)
    requires Injection(p, |f|)
    requires forall j :: 0 <= j < |f| ==> f[j] <= 0
    ensures Sum(Gather(f, p)) >= Sum(f)
    decreases |p|
  {
    if p == [] {
      var zeros := seq(|f|, _ => 0);
      SumMonotone(f, zeros);
      SumZero(zeros);
    } else {
      var n := |p| - 1;
      var f' := f[p[n] := 0];
      SumUpdate(f, p[n], 0);
      SumGatherNonPositive(f', p[..n]);
      assert Gather(f, p)[..n] == Gather(f', p[..n]);
    }
  }

  /** Summing f over an injection is the full sum when f vanishes off the injection's range. */
  lemma {:induction false} SumGatherSupport(f: seq<int>, p: seq<int>)
    requires Injection(p, |f|)
    requires forall j :: 0 <= j < |f| && j !in p ==> f[j] == 0
    ensures Sum(Gather(f, p)) == Sum(f)
    decreases |p|
  {
    if p == [] {
      SumZero(f);
    } else {
      var n := |p| - 1;
      var f' := f[p[n] := 0];
      SumUpdate(f, p[n], 0);
      forall j | 0 <= j < |f| && j !in p[..n] ensures f'[j] == 0 {
        assert p == p[..n] + [p[n]];
      }
      SumGatherSupport(f', p[..n]);
      assert Gather(f, p)[..n] == Gather(f', p[..n]);
    }
  }

  // ---- counting ----

  ghost function Range(n: nat): (r: set<int>)
    ensures forall x :: x in r <==> 0 <= x < n
  {
    if n == 0 then {} else Range(n - 1) + {n - 1}
  }

  lemma {:induction false} RangeCardinality(n: nat)
    ensures |Range(n)| == n
  {
    if n > 0 {
      RangeCardinality(n - 1);
    }
  }

  lemma {:induction false} SubsetCardinality<T>(a: set<T>, b: set<T>)
    requires a <= b
    ensures |a| <= |b|
    ensures |a| == |b| ==> a == b
  {
    assert b == a + (b - a);
  }

  /** Elements of an injective sequence. */
  ghost function Elements(p: seq<int>): (r: set<int>)
    ensures forall x :: x in r <==> x in p
  {
    set x | x in p
  }

  lemma {:induction false} ElementsCardinality(p: seq<int>)
    requires forall i, j :: 0 <= i < j < |p| ==> p[i] != p[j]
    ensures |Elements(p)| == |p|
  {
    if p == [] {
      assert Elements(p) == {};
    } else {
      var n := |p| - 1;
      ElementsCardinality(p[..n]);
      assert Elements(p) == Elements(p[..n]) + {p[n]};
    }
  }

  /** Pigeonhole: an injection is no longer than its target, and if equally long it is onto. */
  lemma {:induction false} Pigeonhole(p: seq<int>, m: nat)
    requires Injection(p, m)
    ensures |p| <= m
    ensures |p| == m ==> forall x :: 0 <= x < m ==> x in p
    ensures |p| < m ==> exists x :: 0 <= x < m && x !in p
  {
    ElementsCardinality(p);
    RangeCardinality(m);
    assert Elements(p) <= Range(m);
    SubsetCardinality(Elements(p), Range(m));
    if |p| < m {
      assert Elements(p) != Range(m);
      var x :| x in Range(m) && x !in Elements(p);
    }
  }

  lemma AnElement<T>(a: set<T>) returns (x: T)
    requires a != {}
    ensures x in a
  {
    x :| x in a;
  }

  lemma PermutationHits(p: seq<int>, n: nat, x: int)
    requires Permutation(p, n) && 0 <= x < n
    ensures x in p
  {
    Pigeonhole(p, n);
  }

  /** Rearranging f by a permutation keeps its sum. */
  lemma SumGatherPermutation(f: seq<int>, p: seq<int>)
    requires Permutation(p, |f|)
    ensures Sum(Gather(f, p)) == Sum(f)
  {
    Pigeonhole(p, |f|);
    SumGatherSupport(f, p);
  }

  /** A finite set mapped one-to-one into another is no larger. */
  lemma {:induction false} InjectionCardinality(a: set<int>, f: map<int, int>, b: set<int>)
    requires a <= f.Keys
    requires forall x :: x in a ==> f[x] in b
    requires forall x, y :: x in a && y in a && x != y ==> f[x] != f[y]
    ensures |a| <= |b|
    decreases |a|
  {
    if a != {} {
      var x := AnElement(a);
      InjectionCardinality(a - {x}, f, b - {f[x]});
    }
  }

  /** Position of the first occurrence of x in l (|l| when absent). */
  function IndexOf(l: seq<int>, x: int): (k: nat)
    ensures k <= |l|
    ensures k < |l| ==> l[k] == x
    ensures forall i :: 0 <= i < k ==> l[i] != x
  {
    if l == [] then 0
    else if l[0] == x then 0
    else 1 + IndexOf(l[1..], x)
  }

  /** In a permutation every value has a position, and IndexOf is the inverse of indexing. */
  lemma IndexOfPermutation(l: seq<int>, n: nat, x: int)
    requires Permutation(l, n) && 0 <= x < n
    ensures IndexOf(l, x) < n && l[IndexOf(l, x)] == x
  {
    Pigeonhole(l, n);
    assert x in l;
  }

  lemma IndexOfUnique(l: seq<int>, k: nat)
    requires forall i, j :: 0 <= i < j < |l| ==> l[i] != l[j]
    requires k < |l|
    ensures IndexOf(l, l[k]) == k
  {
  }
}
