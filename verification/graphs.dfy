/**
 The elimination graph: an undirected simple graph on the vertices 0 .. n-1
 that is destructively mutated by eliminating vertices with fill-in.

 A graph is its adjacency: `g[u]` is the set of neighbours of `u`, so the
 neighbour count the source reads as `get_neighbours(u).size()` is `|g[u]|`.
 */
module Graphs {

  type Graph = seq<set<nat>>

  /** Symmetric, irreflexive, and every neighbour is a vertex of the graph. */
  predicate Valid(g: Graph) {
    forall u | 0 <= u < |g| :: forall w | w in g[u] :: w < |g| && w != u && u in g[w]
  }

  /** Every entry of `s` names a vertex of an `n`-vertex graph. */
  predicate InRange(s: seq<nat>, n: nat) {
    forall i | 0 <= i < |s| :: s[i] < n
  }

  predicate Distinct(s: seq<nat>) {
    forall i, j | 0 <= i < j < |s| :: s[i] != s[j]
  }

  /** An elimination order: every vertex of an `n`-vertex graph exactly once. */
  predicate IsPermutation(s: seq<nat>, n: nat) {
    |s| == n && InRange(s, n) && Distinct(s)
  }

  /** The vertex set 0 .. n-1. */
  function Vertices(n: nat): (r: set<nat>)
    ensures forall v: nat :: v in r <==> v < n
  {
    if n == 0 then {}
    else
      var s := Vertices(n - 1);
      s + {n - 1}
  }

  function Elems(s: seq<nat>): (r: set<nat>)
    ensures forall v :: v in r <==> v in s
  {
    set v | v in s
  }

  /**
   `EliminationGraph::eliminate`: every two distinct neighbours of `v` become
   adjacent (fill-in), then every edge incident to `v` is removed. `v` stays a
   vertex, now isolated. The contract pins the result down edge by edge.
   */
  function Eliminate(g: Graph, v: nat): (r: Graph)
    requires Valid(g) && v < |g|
    ensures |r| == |g| && Valid(r)
    ensures r[v] == {}
    ensures forall a, b | 0 <= a < |g| && a in g[v] && b in g[v] && a != b :: b in r[a]
    ensures forall a, b | 0 <= a < |g| && b in g[a] && a != v && b != v :: b in r[a]
    ensures forall a, b | 0 <= a < |g| && b in r[a] :: b in g[a] || (a in g[v] && b in g[v])
  {
    var r := seq(|g|, u requires 0 <= u < |g| =>
      if u == v then {} else if u in g[v] then (g[u] + g[v]) - {u, v} else g[u]);
    assert Valid(r) by {
      forall u, w | 0 <= u < |r| && w in r[u]
        ensures w < |r| && w != u && u in r[w]
      {
        if u in g[v] {
          if w in g[v] {
            assert r[w] == (g[w] + g[v]) - {w, v};
          } else {
            assert w in g[u] && w != v;
            assert r[w] == g[w];
          }
        } else {
          assert w in g[u] && w != v;
          if w in g[v] {
            assert r[w] == (g[w] + g[v]) - {w, v};
          } else {
            assert r[w] == g[w];
          }
        }
      }
    }
    r
  }

  /** The elimination graph after eliminating the first `k` vertices of `order`, left to right. */
  function Eliminated(g: Graph, order: seq<nat>, k: nat): (r: Graph)
    requires Valid(g) && InRange(order, |g|) && k <= |order|
    ensures |r| == |g| && Valid(r)
    ensures forall i | 0 <= i < k :: r[order[i]] == {}
    decreases k
  {
    if k == 0 then g else Eliminate(Eliminated(g, order, k - 1), order[k - 1])
  }

  /** The elimination graph depends only on the prefix already eliminated. */
  lemma {:induction false} EliminatedPrefix(g: Graph, a: seq<nat>, b: seq<nat>, k: nat)
    requires Valid(g) && InRange(a, |g|) && InRange(b, |g|)
    requires k <= |a| && k <= |b| && a[..k] == b[..k]
    ensures Eliminated(g, a, k) == Eliminated(g, b, k)
    decreases k
  {
    if k > 0 {
      assert a[k - 1] == a[..k][k - 1] == b[..k][k - 1] == b[k - 1];
      assert a[..k - 1] == a[..k][..k - 1] == b[..k][..k - 1] == b[..k - 1];
      EliminatedPrefix(g, a, b, k - 1);
    }
  }

  lemma {:induction false} VerticesCard(n: nat)
    ensures |Vertices(n)| == n
  {
    if n == 0 {
      assert Vertices(n) == {};
    } else {
      VerticesCard(n - 1);
      assert n - 1 !in Vertices(n - 1);
      assert Vertices(n) == Vertices(n - 1) + {n - 1};
    }
  }

  lemma {:induction false} DistinctCard(s: seq<nat>)
    requires Distinct(s)
    ensures |Elems(s)| == |s|
  {
    if s != [] {
      var t := s[..|s| - 1];
      assert Distinct(t);
      DistinctCard(t);
      assert Elems(s) == Elems(t) + {s[|s| - 1]};
      assert s[|s| - 1] !in Elems(t);
    }
  }

  lemma DifferenceCard(a: set<nat>, b: set<nat>)
    requires b <= a
    ensures |a - b| == |a| - |b|
  {
    assert a == b + (a - b);
  }

  lemma SubsetCard(a: set<nat>, b: set<nat>)
    requires a <= b
    ensures |a| <= |b|
  {
    assert b == a + (b - a);
  }

  /** A subset as large as its superset is the whole superset. */
  lemma SameSizeSubset(a: set<nat>, b: set<nat>)
    requires a <= b && |a| == |b|
    ensures a == b
  {
    DifferenceCard(b, a);
    assert b - a == {};
  }

  /** Splitting `rem` by `s` splits its size. */
  lemma SplitCard(rem: set<nat>, s: set<nat>)
    ensures |rem| == |rem - s| + |rem * s|
  {
    assert rem == (rem - s) + (rem * s);
    assert (rem - s) !! (rem * s);
  }

  /** Removing a set that meets `rem` makes it strictly smaller. */
  lemma ShrinkCard(rem: set<nat>, s: set<nat>)
    requires rem * s != {}
    ensures |rem - s| < |rem|
  {
    SplitCard(rem, s);
  }

  /**
   Once the first `k` vertices of a duplicate-free order have been eliminated,
   the vertex at position `k` has at most n - 1 - k neighbours: eliminated
   vertices are isolated, so only the other uneliminated vertices can be
   adjacent to it.
   */
  lemma LiveNeighbourBound(g: Graph, order: seq<nat>, k: nat)
    requires Valid(g) && InRange(order, |g|) && Distinct(order) && k < |order|
    ensures |Eliminated(g, order, k)[order[k]]| <= |g| - 1 - k
  {
    var prefix := order[..k];
    var dead := Elems(prefix) + {order[k]};
    LiveNeighbours(g, order, k);
    assert Distinct(prefix);
    DistinctCard(prefix);
    VerticesCard(|g|);
    assert order[k] !in prefix;
    assert |dead| == k + 1;
    DifferenceCard(Vertices(|g|), dead);
    SubsetCard(Eliminated(g, order, k)[order[k]], Vertices(|g|) - dead);
  }

  /** The neighbours of the vertex at position `k` are neither it nor an eliminated vertex. */
  lemma LiveNeighbours(g: Graph, order: seq<nat>, k: nat)
    requires Valid(g) && InRange(order, |g|) && k < |order|
    ensures Eliminated(g, order, k)[order[k]] <= Vertices(|g|) - (Elems(order[..k]) + {order[k]})
  {
    var h := Eliminated(g, order, k);
    var x := order[k];
    forall w | w in h[x] ensures w in Vertices(|g|) && w != x && w !in Elems(order[..k]) {
      assert w < |g| && w != x && x in h[w];
    }
  }

  /** A vertex of a valid graph never has more than n - 1 neighbours. */
  lemma NeighbourBound(g: Graph, x: nat)
    requires Valid(g) && x < |g|
    ensures |g[x]| <= |g| - 1
  {
    forall w | w in g[x] ensures w in Vertices(|g|) - {x} {
      assert w < |g| && w != x;
      assert w in Vertices(|g|);
    }
    VerticesCard(|g|);
    DifferenceCard(Vertices(|g|), {x});
    SubsetCard(g[x], Vertices(|g|) - {x});
  }
}
