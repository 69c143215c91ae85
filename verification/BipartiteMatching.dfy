/** Matchings between men 0..left-1 and women 0..right-1, augmenting paths and their effect,
    as src/hopcroft_karp.cpp stores them: matchLeft and matchRight with -1 for nobody. */
module BipartiteMatching {
  import opened Sequences

  type Adjacency = seq<seq<int>>

  ghost predicate Graph(adj: Adjacency, right: nat) {
    forall a, i :: 0 <= a < |adj| && 0 <= i < |adj[a]| ==> 0 <= adj[a][i] < right
  }

  /** Every matched man has an edge to his woman, and no woman is shared. */
  ghost predicate IsMatching(adj: Adjacency, m: seq<int>) {
    && |m| == |adj|
    && (forall a :: 0 <= a < |m| && m[a] != -1 ==> m[a] in adj[a])
    && (forall a, a' :: 0 <= a < a' < |m| && m[a] != -1 ==> m[a] != m[a'])
  }

  /** The two sides agree, along edges. */
  ghost predicate Consistent(adj: Adjacency, right: nat, ml: seq<int>, mr: seq<int>) {
    && |ml| == |adj| && |mr| == right
    && (forall a :: 0 <= a < |ml| && ml[a] != -1 ==> 0 <= ml[a] < right && mr[ml[a]] == a && ml[a] in adj[a])
    && (forall b :: 0 <= b < right && mr[b] != -1 ==> 0 <= mr[b] < |ml| && ml[mr[b]] == b)
  }

  lemma ConsistentIsMatching(adj: Adjacency, right: nat, ml: seq<int>, mr: seq<int>)
    requires Consistent(adj, right, ml, mr)
    ensures IsMatching(adj, ml)
  {
  }

  /** The matched men, and how many couples there are. */
  ghost function Matched(m: seq<int>): (r: set<int>)
    ensures forall a :: a in r <==> 0 <= a < |m| && m[a] != -1
  {
    set a | a in Range(|m|) && m[a] != -1
  }

  ghost function Size(m: seq<int>): nat {
    |Matched(m)|
  }

  lemma SizeBounded(m: seq<int>)
    ensures Size(m) <= |m|
  {
    RangeCardinality(|m|);
    SubsetCardinality(Matched(m), Range(|m|));
  }

  /** An alternating walk man, woman, man, ..., woman along edges and matched pairs, ending at a
      free woman. */
  ghost predicate Alternating(adj: Adjacency, mr: seq<int>, xs: seq<int>, ys: seq<int>) {
    && |xs| == |ys| > 0
    && (forall i :: 0 <= i < |xs| ==> 0 <= xs[i] < |adj| && 0 <= ys[i] < |mr| && ys[i] in adj[xs[i]])
    && (forall i :: 0 <= i < |xs| - 1 ==> mr[ys[i]] == xs[i + 1])
    && mr[ys[|ys| - 1]] == -1
  }

  ghost predicate Distinct(s: seq<int>) {
    forall i, j :: 0 <= i < j < |s| ==> s[i] != s[j]
  }

  /** An augmenting path: alternating, no man twice, from a free man. */
  ghost predicate Augmenting(adj: Adjacency, ml: seq<int>, mr: seq<int>, xs: seq<int>, ys: seq<int>) {
    Alternating(adj, mr, xs, ys) && Distinct(xs) && xs[0] < |ml| && ml[xs[0]] == -1
  }

  /** Every augmenting path has more than k men. */
  ghost predicate NoShorterPath(adj: Adjacency, ml: seq<int>, mr: seq<int>, k: int) {
    forall xs, ys :: Augmenting(adj, ml, mr, xs, ys) ==> |xs| > k
  }

  /** The shortest augmenting path has L men. */
  ghost predicate Shortest(adj: Adjacency, ml: seq<int>, mr: seq<int>, L: nat) {
    && NoShorterPath(adj, ml, mr, L - 1)
    && exists xs, ys :: Augmenting(adj, ml, mr, xs, ys) && |xs| == L
  }

  /** m with m[keys[i]] set to vals[i], the deepest write first: the order in which `dfs` unwinds. */
  function Write(m: seq<int>, keys: seq<int>, vals: seq<int>): (r: seq<int>)
    requires |keys| == |vals| && forall i :: 0 <= i < |keys| ==> 0 <= keys[i] < |m|
    ensures |r| == |m|
  {
    if keys == [] then m else Write(m, keys[1..], vals[1..])[keys[0] := vals[0]]
  }

  lemma {:induction false} WriteElsewhere(m: seq<int>, keys: seq<int>, vals: seq<int>, x: int)
    requires |keys| == |vals| && forall i :: 0 <= i < |keys| ==> 0 <= keys[i] < |m|
    requires 0 <= x < |m| && forall i :: 0 <= i < |keys| ==> keys[i] != x
    ensures Write(m, keys, vals)[x] == m[x]
  {
    if keys != [] {
      WriteElsewhere(m, keys[1..], vals[1..], x);
    }
  }

  lemma {:induction false} WriteAt(m: seq<int>, keys: seq<int>, vals: seq<int>, k: nat)
    requires |keys| == |vals| && forall i :: 0 <= i < |keys| ==> 0 <= keys[i] < |m|
    requires Distinct(keys) && k < |keys|
    ensures Write(m, keys, vals)[keys[k]] == vals[k]
  {
    if k > 0 {
      assert keys[k] == keys[1..][k - 1];
      WriteAt(m, keys[1..], vals[1..], k - 1);
    }
  }

  /** What an augmenting path does to each man and woman. */
  lemma WriteSpec(m: seq<int>, keys: seq<int>, vals: seq<int>)
    requires |keys| == |vals| && forall i :: 0 <= i < |keys| ==> 0 <= keys[i] < |m|
    requires Distinct(keys)
    ensures forall k :: 0 <= k < |keys| ==> Write(m, keys, vals)[keys[k]] == vals[k]
    ensures forall x :: 0 <= x < |m| && x !in keys ==> Write(m, keys, vals)[x] == m[x]
  {
  }

  lemma WomenDistinct(adj: Adjacency, mr: seq<int>, xs: seq<int>, ys: seq<int>)
    requires Alternating(adj, mr, xs, ys) && Distinct(xs)
    ensures Distinct(ys)
  {
  }

  /** On the path, the men after the first and the women before the last are matched to each other. */
  lemma PathPairs(adj: Adjacency, right: nat, ml: seq<int>, mr: seq<int>, xs: seq<int>, ys: seq<int>)
    requires Consistent(adj, right, ml, mr) && Alternating(adj, mr, xs, ys)
    ensures forall i :: 1 <= i < |xs| ==> ml[xs[i]] == ys[i - 1]
  {
  }

  /** A woman on the path is free or held by a man on it; a man on it is free or holds a woman on it. */
  lemma PathClosed(adj: Adjacency, right: nat, ml: seq<int>, mr: seq<int>, xs: seq<int>, ys: seq<int>)
    requires Consistent(adj, right, ml, mr) && Augmenting(adj, ml, mr, xs, ys)
    ensures forall b :: b in ys ==> mr[b] == -1 || mr[b] in xs
    ensures forall a :: a in xs ==> ml[a] == -1 || ml[a] in ys
  {
    PathPairs(adj, right, ml, mr, xs, ys);
    forall b | b in ys ensures mr[b] == -1 || mr[b] in xs {
      var i :| 0 <= i < |ys| && ys[i] == b;
      assert i < |ys| - 1 ==> mr[ys[i]] == xs[i + 1];
    }
    forall a | a in xs ensures ml[a] == -1 || ml[a] in ys {
      var i :| 0 <= i < |xs| && xs[i] == a;
      assert i >= 1 ==> ml[xs[i]] == ys[i - 1];
    }
  }

  /** Augmenting keeps the two sides consistent and matches exactly one more man, the path's first. */
  lemma AugmentKeepsConsistent(adj: Adjacency, right: nat, ml: seq<int>, mr: seq<int>,
                               xs: seq<int>, ys: seq<int>)
    requires Consistent(adj, right, ml, mr) && Augmenting(adj, ml, mr, xs, ys)
    ensures Consistent(adj, right, Write(ml, xs, ys), Write(mr, ys, xs))
  {
    WomenDistinct(adj, mr, xs, ys);
    PathClosed(adj, right, ml, mr, xs, ys);
    WriteSpec(ml, xs, ys);
    WriteSpec(mr, ys, xs);
    var ml', mr' := Write(ml, xs, ys), Write(mr, ys, xs);
    forall a | 0 <= a < |ml| && ml'[a] != -1
      ensures 0 <= ml'[a] < right && mr'[ml'[a]] == a && ml'[a] in adj[a]
    {
      if a in xs {
        var i :| 0 <= i < |xs| && xs[i] == a;
      }
    }
    forall b | 0 <= b < right && mr'[b] != -1
      ensures 0 <= mr'[b] < |ml| && ml'[mr'[b]] == b
    {
      if b in ys {
        var i :| 0 <= i < |ys| && ys[i] == b;
      }
    }
  }

  /** Writing women to one free man and to men already matched adds just the free man. */
  lemma WriteGrows(m: seq<int>, keys: seq<int>, vals: seq<int>)
    requires |keys| == |vals| > 0 && forall i :: 0 <= i < |keys| ==> 0 <= keys[i] < |m|
    requires Distinct(keys) && m[keys[0]] == -1
    requires forall i :: 0 <= i < |keys| ==> vals[i] != -1
    requires forall i :: 1 <= i < |keys| ==> m[keys[i]] != -1
    ensures Matched(Write(m, keys, vals)) == Matched(m) + {keys[0]}
  {
    WriteSpec(m, keys, vals);
    var m' := Write(m, keys, vals);
    hide Write, Distinct;
    forall a | 0 <= a < |m| ensures m'[a] != -1 <==> m[a] != -1 || a == keys[0] {
      if a in keys {
        var i :| 0 <= i < |keys| && keys[i] == a;
        assert m'[keys[i]] != -1;
      }
    }
  }

  lemma AugmentGrows(adj: Adjacency, right: nat, ml: seq<int>, mr: seq<int>, xs: seq<int>, ys: seq<int>)
    requires Consistent(adj, right, ml, mr) && Augmenting(adj, ml, mr, xs, ys)
    ensures Matched(Write(ml, xs, ys)) == Matched(ml) + {xs[0]}
    ensures Size(Write(ml, xs, ys)) == Size(ml) + 1
  {
    PathPairs(adj, right, ml, mr, xs, ys);
    WriteGrows(ml, xs, ys);
  }
}
