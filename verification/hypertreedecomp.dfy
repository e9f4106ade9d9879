/**
 The hypertree-decomposition problem (`HyperTreeDecompProblem`).

 The graph the elimination runs on is the primal graph of a hypergraph `h`:
 two vertices are adjacent when some hyperedge holds both. Every vertex of
 the primal graph lies in some hyperedge, which is what `Coverable(h,
 Vertices(|g|))` says. The width of an elimination order is the largest
 number of hyperedges the greedy cover needs for a bag: an eliminated vertex
 together with its neighbours at the moment it is eliminated.

 `compute_width` and `get_feasible_neighbours` use the greedy cover as
 written, with tallies accumulated across rounds
 (`Cover.ComputeGreedyHyperedgeCovering`). The bounds below hold for either
 tally policy, so they hold for the corrected cover as well.
 */
module HyperTreeDecomp {
  import opened Graphs
  import opened Maxima
  import opened Scan
  import opened Cover
  import opened Decomp

  /** The bag of position `i`: the vertex `tour[i]` and its neighbours just before it is eliminated. */
  function Bag(g: Graph, tour: seq<nat>, i: nat): (b: set<nat>)
    requires Valid(g) && InRange(tour, |g|) && i < |tour|
    ensures tour[i] in b && b <= Vertices(|g|)
    ensures |b| == Profile(g, tour)[i] + 1
  {
    var x := tour[i];
    var ns := Eliminated(g, tour, i)[x];
    assert x !in ns;
    ns + {x}
  }

  /** The closed neighbourhood of `v` in the graph itself, as the feasible-neighbour scores use it. */
  function Clique(g: Graph, v: nat): (b: set<nat>)
    requires Valid(g) && v < |g|
    ensures v in b && b <= Vertices(|g|)
    ensures |b| == |g[v]| + 1
  {
    assert v !in g[v];
    g[v] + {v}
  }

  /** The number of hyperedges the greedy cover with the given policy needs for each bag of `tour`. */
  function BagCovers(h: HyperGraph, g: Graph, tour: seq<nat>, policy: TallyPolicy): (cs: seq<nat>)
    requires Valid(g) && InRange(tour, |g|) && Coverable(h, Vertices(|g|))
    ensures |cs| == |tour|
    ensures forall i | 0 <= i < |tour| :: cs[i] == |CoverWith(h, Bag(g, tour, i), policy)|
  {
    seq(|tour|, i requires 0 <= i < |tour| =>
      CoverableSubset(h, Vertices(|g|), Bag(g, tour, i));
      |CoverWith(h, Bag(g, tour, i), policy)|)
  }

  /** A bag needs at least one hyperedge and never more than it has vertices. */
  lemma BagCoverBounds(h: HyperGraph, g: Graph, tour: seq<nat>, policy: TallyPolicy)
    requires Valid(g) && InRange(tour, |g|) && Coverable(h, Vertices(|g|))
    ensures forall i | 0 <= i < |tour| :: 1 <= BagCovers(h, g, tour, policy)[i] <= Profile(g, tour)[i] + 1
  {
    forall i | 0 <= i < |tour| ensures 1 <= BagCovers(h, g, tour, policy)[i] <= Profile(g, tour)[i] + 1 {
      var b := Bag(g, tour, i);
      CoverableSubset(h, Vertices(|g|), b);
      assert b != {};
    }
  }

  /**
   `compute_width`: eliminate the order's vertices left to right, covering
   each bag greedily, and return the largest cover. Unlike the tree-width
   scan there is no early exit.
   */
  method ComputeWidth(h: HyperGraph, g: Graph, tour: seq<nat>) returns (width: nat)
    requires Valid(g) && InRange(tour, |g|) && Coverable(h, Vertices(|g|))
    ensures width == MaxOf(BagCovers(h, g, tour, Accumulate), |tour|)
    ensures |tour| == 0 ==> width == 0
    ensures |tour| > 0 ==> 1 <= width <= MaxOf(Profile(g, tour), |tour|) + 1
  {
    width := LargestBagCover(h, g, tour);
    HyperWidthBounds(h, g, tour, Accumulate);
  }

  /** The loop of `compute_width`: the running maximum of the bag covers. */
  method LargestBagCover(h: HyperGraph, g: Graph, tour: seq<nat>) returns (width: nat)
    requires Valid(g) && InRange(tour, |g|) && Coverable(h, Vertices(|g|))
    ensures width == MaxOf(BagCovers(h, g, tour, Accumulate), |tour|)
  {
    ghost var cs := BagCovers(h, g, tour, Accumulate);
    width := 0;
    var elim := g;
    var i := 0;
    while i < |tour|
      invariant i <= |tour|
      invariant elim == Eliminated(g, tour, i)
      invariant width == MaxOf(cs, i)
    {
      elim, width := EliminationStep(h, g, tour, i, elim, width);
      i := i + 1;
    }
  }

  /** One round of the loop: cover the bag of position `i`, update the maximum, eliminate `tour[i]`. */
  method EliminationStep(h: HyperGraph, g: Graph, tour: seq<nat>, i: nat, elim: Graph, width: nat)
    returns (elim': Graph, width': nat)
    requires Valid(g) && InRange(tour, |g|) && Coverable(h, Vertices(|g|)) && i < |tour|
    requires elim == Eliminated(g, tour, i) && width == MaxOf(BagCovers(h, g, tour, Accumulate), i)
    ensures elim' == Eliminated(g, tour, i + 1) && width' == MaxOf(BagCovers(h, g, tour, Accumulate), i + 1)
  {
    var w := BagCoverAt(h, g, tour, i, elim);
    MaxNext(BagCovers(h, g, tour, Accumulate), i, width);
    elim' := Eliminate(elim, tour[i]);
    width' := if w > width then w else width;
  }

  /** The cover of the bag of position `i`, read off the elimination graph reached there. */
  function BagCoverAt(h: HyperGraph, g: Graph, tour: seq<nat>, i: nat, elim: Graph): (w: nat)
    requires Valid(g) && InRange(tour, |g|) && Coverable(h, Vertices(|g|)) && i < |tour|
    requires elim == Eliminated(g, tour, i)
    ensures w == BagCovers(h, g, tour, Accumulate)[i]
  {
    var vertices := elim[tour[i]] + {tour[i]};
    assert vertices == Bag(g, tour, i);
    CoverableSubset(h, Vertices(|g|), vertices);
    |ComputeGreedyHyperedgeCovering(h, vertices)|
  }

  /** The hypertree width of an order lies between 1 and its tree width plus one. */
  lemma HyperWidthBounds(h: HyperGraph, g: Graph, tour: seq<nat>, policy: TallyPolicy)
    requires Valid(g) && InRange(tour, |g|) && Coverable(h, Vertices(|g|))
    ensures |tour| > 0 ==>
              1 <= MaxOf(BagCovers(h, g, tour, policy), |tour|) <= MaxOf(Profile(g, tour), |tour|) + 1
  {
    if |tour| > 0 {
      BagCoverBounds(h, g, tour, policy);
      MaxBetween(BagCovers(h, g, tour, policy), Profile(g, tour), |tour|);
    }
  }

  /**
   On an elimination order, the hypertree width is at most one more than the
   width the tree-decomposition scan computes, early exit included.
   */
  lemma HyperWidthAtMostTreeWidthPlusOne(h: HyperGraph, g: Graph, tour: seq<nat>, policy: TallyPolicy)
    requires Valid(g) && IsPermutation(tour, |g|) && Coverable(h, Vertices(|g|))
    ensures MaxOf(BagCovers(h, g, tour, policy), |tour|) <= MaxOf(Profile(g, tour), Cutoff(Profile(g, tour))) + 1
  {
    var ps := Profile(g, tour);
    ProfileBound(g, tour);
    CutoffExact(ps);
    HyperWidthBounds(h, g, tour, policy);
  }

  /**
   `get_feasible_neighbours` of the hypertree problem: every unvisited vertex,
   scored by the number of hyperedges covering its closed neighbourhood in the
   graph itself (the source stores the reciprocal of that count). The
   elimination graph is not consulted.
   */
  function HyperFeasibleNeighbours(s: Session, h: HyperGraph): (r: map<nat, nat>)
    requires Valid(s.graph) && Coverable(h, Vertices(|s.graph|))
    ensures r.Keys == FeasibleNeighbours(s)
    ensures forall v | v in r :: 1 <= r[v] <= |s.graph[v]| + 1
  {
    map v | v in FeasibleNeighbours(s) :: CliqueCover(h, s.graph, v)
  }

  /** The score of a feasible vertex is the size of the greedy cover of its closed neighbourhood. */
  lemma HyperFeasibleScore(s: Session, h: HyperGraph, v: nat)
    requires Valid(s.graph) && Coverable(h, Vertices(|s.graph|)) && v in FeasibleNeighbours(s)
    ensures Coverable(h, Clique(s.graph, v))
    ensures HyperFeasibleNeighbours(s, h)[v] == |ComputeGreedyHyperedgeCovering(h, Clique(s.graph, v))|
  {
    CoverableSubset(h, Vertices(|s.graph|), Clique(s.graph, v));
    assert HyperFeasibleNeighbours(s, h)[v] == CliqueCover(h, s.graph, v);
  }

  /** The number of hyperedges the greedy cover needs for the closed neighbourhood of `v`. */
  function CliqueCover(h: HyperGraph, g: Graph, v: nat): (w: nat)
    requires Valid(g) && v < |g| && Coverable(h, Vertices(|g|))
    ensures 1 <= w <= |g[v]| + 1
  {
    var b := Clique(g, v);
    CoverableSubset(h, Vertices(|g|), b);
    assert b != {};
    |ComputeGreedyHyperedgeCovering(h, b)|
  }

  /** The scores depend on the graph and the visited vertices only, not on how far elimination has gone. */
  lemma HyperFeasibleIgnoresElimination(s: Session, h: HyperGraph, elim: Graph, eliminated: nat)
    requires Valid(s.graph) && Coverable(h, Vertices(|s.graph|))
    ensures HyperFeasibleNeighbours(s.(elim := elim, eliminated := eliminated), h) == HyperFeasibleNeighbours(s, h)
  {
    var t := s.(elim := elim, eliminated := eliminated);
    assert FeasibleNeighbours(t) == FeasibleNeighbours(s) by {
      forall v: nat ensures IsVisited(t, v) == IsVisited(s, v) {
      }
    }
    var a := HyperFeasibleNeighbours(t, h);
    var b := HyperFeasibleNeighbours(s, h);
    assert a.Keys == b.Keys;
    forall v | v in a ensures a[v] == b[v] {
      assert Clique(t.graph, v) == Clique(s.graph, v);
    }
  }
}
