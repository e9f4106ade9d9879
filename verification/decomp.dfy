/**
 The per-tour bookkeeping of the decomposition problem (`DecompProblem`) and
 its perturbation.

 While an ant builds a tour, the problem keeps an elimination graph in step
 with the tour, a visited map and a count of eliminated vertices. The visited
 map is read with a default of `false` for vertices never written, as
 `std::map::operator[]` does.
 */
module Decomp {
  import opened Graphs
  import opened Maxima
  import opened Scan
  import opened Neighbourhoods

  datatype Session = Session(
    graph: Graph,
    elim: Graph,
    visited: map<nat, bool>,
    eliminated: nat)

  /** The constructor: the elimination graph starts as a copy of the graph, nothing is visited. */
  function NewSession(g: Graph): (s: Session)
    ensures s.graph == g && s.elim == g && s.eliminated == 0
    ensures forall v: nat :: !IsVisited(s, v)
  {
    Session(g, g, map[], 0)
  }

  /** `visited_vertices_[v]`, with the default `false` for vertices never marked. */
  predicate IsVisited(s: Session, v: nat) {
    v in s.visited && s.visited[v]
  }

  /** `added_vertex_to_tour`: eliminate the vertex, count it and mark it visited. */
  function AddedVertexToTour(s: Session, v: nat): (r: Session)
    requires Valid(s.elim) && v < |s.elim|
    ensures r.graph == s.graph && r.eliminated == s.eliminated + 1
    ensures r.elim == Eliminate(s.elim, v)
    ensures IsVisited(r, v) && forall u: nat | u != v :: IsVisited(r, u) == IsVisited(s, u)
  {
    Session(s.graph, Eliminate(s.elim, v), s.visited[v := true], s.eliminated + 1)
  }

  /** `is_tour_complete`: the tour holds as many vertices as the graph. */
  predicate IsTourComplete(s: Session, tour: seq<nat>) {
    |tour| == |s.graph|
  }

  /** `cleanup`: the elimination graph is reset to the graph and every vertex is unvisited again. */
  function Cleanup(s: Session): (r: Session)
    ensures r.graph == s.graph && r.elim == s.graph && r.eliminated == 0
    ensures forall v: nat :: !IsVisited(r, v)
  {
    Session(s.graph, s.graph, map[], 0)
  }

  /**
   The vertices `get_feasible_neighbours` offers: every unvisited vertex of
   the graph. The heuristic score attached to each is not modelled, and the
   vertex the source passes in is not used by it.
   */
  function FeasibleNeighbours(s: Session): (r: set<nat>)
    ensures forall v: nat :: v in r <==> v < |s.graph| && !IsVisited(s, v)
  {
    set v: nat | v < |s.graph| && !IsVisited(s, v)
  }

  /**
   The session is in step with `tour`: the elimination graph is the graph
   with the tour eliminated, the count is the tour's length and the visited
   vertices are those of the tour.
   */
  ghost predicate Consistent(s: Session, tour: seq<nat>) {
    && Valid(s.graph)
    && InRange(tour, |s.graph|)
    && s.elim == Eliminated(s.graph, tour, |tour|)
    && s.eliminated == |tour|
    && forall v: nat :: IsVisited(s, v) <==> v in tour
  }

  lemma NewSessionConsistent(g: Graph)
    requires Valid(g)
    ensures Consistent(NewSession(g), [])
  {
  }

  /** `cleanup` brings any session back in step with the empty tour. */
  lemma CleanupConsistent(s: Session)
    requires Valid(s.graph)
    ensures Consistent(Cleanup(s), [])
  {
  }

  /** Adding a vertex to the tour keeps the session in step with the extended tour. */
  lemma AddedVertexConsistent(s: Session, tour: seq<nat>, v: nat)
    requires Consistent(s, tour) && v < |s.graph|
    ensures Valid(s.elim) && v < |s.elim|
    ensures Consistent(AddedVertexToTour(s, v), tour + [v])
  {
    var t := tour + [v];
    assert InRange(t, |s.graph|);
    assert t[..|tour|] == tour[..|tour|];
    EliminatedPrefix(s.graph, t, tour, |tour|);
    assert Eliminated(s.graph, t, |t|) == Eliminate(Eliminated(s.graph, t, |tour|), v);
    forall u: nat ensures IsVisited(AddedVertexToTour(s, v), u) <==> u in t {
      assert u in t <==> u in tour || u == v;
    }
  }

  /** In step with a tour, the feasible vertices are exactly the vertices not on it. */
  lemma FeasibleAreOffTour(s: Session, tour: seq<nat>)
    requires Consistent(s, tour)
    ensures FeasibleNeighbours(s) == Vertices(|s.graph|) - Elems(tour)
  {
  }

  /** Choosing only feasible vertices keeps the tour free of repeats. */
  lemma FeasibleKeepsDistinct(s: Session, tour: seq<nat>, v: nat)
    requires Consistent(s, tour) && Distinct(tour) && v in FeasibleNeighbours(s)
    ensures Distinct(tour + [v])
  {
    var t := tour + [v];
    forall i, j | 0 <= i < j < |t| ensures t[i] != t[j] {
      if j == |tour| {
        assert t[i] == tour[i] && t[j] == v && v !in tour;
      } else {
        assert t[i] == tour[i] && t[j] == tour[j];
      }
    }
  }

  /** For a repeat-free tour in step with the session, the tour is complete exactly when no vertex is feasible. */
  lemma CompleteIffNoFeasible(s: Session, tour: seq<nat>)
    requires Consistent(s, tour) && Distinct(tour)
    ensures IsTourComplete(s, tour) <==> FeasibleNeighbours(s) == {}
  {
    var n := |s.graph|;
    FeasibleAreOffTour(s, tour);
    DistinctCard(tour);
    VerticesCard(n);
    assert Elems(tour) <= Vertices(n);
    if |tour| == n {
      SameSizeSubset(Elems(tour), Vertices(n));
    }
    if FeasibleNeighbours(s) == {} {
      assert Vertices(n) <= Elems(tour);
      SubsetCard(Vertices(n), Elems(tour));
      SubsetCard(Elems(tour), Vertices(n));
    }
  }

  /** The positions a sequence of swaps `(ps[t], ds[t])`, `t < i`, may have touched. */
  function Touched(ps: seq<nat>, ds: seq<nat>, i: nat): (r: set<nat>)
    requires i <= |ps| && i <= |ds|
    ensures forall t | 0 <= t < i :: ps[t] in r && ds[t] in r
  {
    if i == 0 then {} else Touched(ps, ds, i - 1) + {ps[i - 1], ds[i - 1]}
  }

  /** Only the swapped positions are touched. */
  lemma {:induction false} TouchedOnly(ps: seq<nat>, ds: seq<nat>, i: nat, x: nat)
    requires i <= |ps| && i <= |ds| && x in Touched(ps, ds, i)
    ensures exists t | 0 <= t < i :: x == ps[t] || x == ds[t]
  {
    if x == ps[i - 1] || x == ds[i - 1] {
    } else {
      TouchedOnly(ps, ds, i - 1, x);
      var t :| 0 <= t < i - 1 && (x == ps[t] || x == ds[t]);
      assert 0 <= t < i;
    }
  }

  /** The first `i` swap pairs exist and name positions of `s`. */
  predicate SwapsInRange(s: seq<nat>, ps: seq<nat>, ds: seq<nat>, i: nat) {
    i <= |ps| && i <= |ds| && forall t | 0 <= t < i :: ps[t] < |s| && ds[t] < |s|
  }

  /**
   The reference for a chain of swaps: the first `i` swaps `(ps[t], ds[t])`
   applied in increasing `t`. A later swap may move an entry an earlier one
   placed, so only untouched positions are sure to keep their entry.
   */
  function Swaps(s: seq<nat>, ps: seq<nat>, ds: seq<nat>, i: nat): (r: seq<nat>)
    requires SwapsInRange(s, ps, ds, i)
    ensures |r| == |s|
  {
    if i == 0 then s else Swap(Swaps(s, ps, ds, i - 1), ps[i - 1], ds[i - 1])
  }

  /** The chain rearranges entries; it neither loses nor invents any. */
  lemma {:induction false} SwapsPermute(s: seq<nat>, ps: seq<nat>, ds: seq<nat>, i: nat)
    requires SwapsInRange(s, ps, ds, i)
    ensures multiset(Swaps(s, ps, ds, i)) == multiset(s)
  {
    if i > 0 {
      SwapsPermute(s, ps, ds, i - 1);
      SwapPermutes(Swaps(s, ps, ds, i - 1), ps[i - 1], ds[i - 1]);
    }
  }

  /** A position no swap of the chain names keeps its entry. */
  lemma {:induction false} SwapsFrame(s: seq<nat>, ps: seq<nat>, ds: seq<nat>, i: nat)
    requires SwapsInRange(s, ps, ds, i)
    ensures forall j | 0 <= j < |s| && j !in Touched(ps, ds, i) :: Swaps(s, ps, ds, i)[j] == s[j]
  {
    if i > 0 {
      SwapsFrame(s, ps, ds, i - 1);
      assert Touched(ps, ds, i) == Touched(ps, ds, i - 1) + {ps[i - 1], ds[i - 1]};
      forall j | 0 <= j < |s| && j !in Touched(ps, ds, i) ensures Swaps(s, ps, ds, i)[j] == s[j] {
        assert j != ps[i - 1] && j != ds[i - 1] && j !in Touched(ps, ds, i - 1);
      }
    }
  }

  /** Every swap of the chain keeps an elimination order one. */
  lemma {:induction false} SwapsKeepPermutation(s: seq<nat>, ps: seq<nat>, ds: seq<nat>, i: nat, n: nat)
    requires SwapsInRange(s, ps, ds, i)
    ensures IsPermutation(s, n) ==> IsPermutation(Swaps(s, ps, ds, i), n)
  {
    if i > 0 {
      SwapsKeepPermutation(s, ps, ds, i - 1, n);
      SwapKeepsPermutation(Swaps(s, ps, ds, i - 1), ps[i - 1], ds[i - 1], n);
    }
  }

  /** Swap position `ps[t]` with position `ds[t]`, for `t` in increasing order. */
  method SwapChain(s: seq<nat>, ps: seq<nat>, ds: seq<nat>, ghost n: nat) returns (r: seq<nat>)
    requires |ps| == |ds|
    requires forall t | 0 <= t < |ps| :: ps[t] < |s| && ds[t] < |s|
    ensures r == Swaps(s, ps, ds, |ps|)
    ensures |r| == |s| && multiset(r) == multiset(s)
    ensures IsPermutation(s, n) ==> IsPermutation(r, n)
    ensures forall j | 0 <= j < |s| && j !in Touched(ps, ds, |ps|) :: r[j] == s[j]
  {
    r := ApplySwaps(s, ps, ds);
    SwapsPermute(s, ps, ds, |ps|);
    SwapsKeepPermutation(s, ps, ds, |ps|, n);
    SwapsFrame(s, ps, ds, |ps|);
  }

  /** The loop of the chain: after `i` iterations the sequence is the first `i` swaps applied. */
  method ApplySwaps(s: seq<nat>, ps: seq<nat>, ds: seq<nat>) returns (r: seq<nat>)
    requires |ps| == |ds|
    requires forall t | 0 <= t < |ps| :: ps[t] < |s| && ds[t] < |s|
    ensures r == Swaps(s, ps, ds, |ps|)
  {
    r := s;
    var i := 0;
    while i < |ps|
      invariant i <= |ps|
      invariant r == Swaps(s, ps, ds, i)
    {
      r := Swap(r, ps[i], ds[i]);
      i := i + 1;
    }
  }

  /**
   `perturbate`: for every max-clique position of the solution, in order,
   swap it with a drawn position. `draws[t]` is the position drawn for the
   `t`-th max-clique position.
   */
  method Perturbate(g: Graph, solution: seq<nat>, draws: seq<nat>) returns (r: seq<nat>)
    requires Valid(g) && InRange(solution, |g|)
    requires |draws| == |GetMaxCliquePositions(g, solution)|
    requires forall t | 0 <= t < |draws| :: draws[t] < |solution|
    ensures r == Swaps(solution, GetMaxCliquePositions(g, solution), draws, |draws|)
    ensures |r| == |solution| && multiset(r) == multiset(solution)
    ensures IsPermutation(solution, |g|) ==> IsPermutation(r, |g|)
    ensures forall j | 0 <= j < |solution| && j !in Touched(GetMaxCliquePositions(g, solution), draws, |draws|) ::
              r[j] == solution[j]
  {
    var ps := GetMaxCliquePositions(g, solution);
    r := SwapChain(solution, ps, draws, |g|);
  }
}
