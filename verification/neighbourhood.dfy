/**
 The max-clique neighbourhood of the local search (`MaxCliqueNeighbourhood`).

 A neighbourhood holds the graph, the current solution, the neighbour it is
 building and a one-shot flag. Asking for a neighbour swaps a position of the
 current solution's maximum neighbour count with some other position. The
 source draws both positions at random and redraws until they differ; here
 the accepted draw is a parameter: `k` indexes the list of max-clique
 positions and `other` indexes the solution.
 */
module Neighbourhoods {
  import opened Graphs
  import opened Maxima
  import opened Scan

  /** `s` with the entries at positions `i` and `j` exchanged. */
  function Swap(s: seq<nat>, i: nat, j: nat): (r: seq<nat>)
    requires i < |s| && j < |s|
    ensures |r| == |s|
    ensures r[i] == s[j] && r[j] == s[i]
    ensures forall k | 0 <= k < |s| && k != i && k != j :: r[k] == s[k]
  {
    seq(|s|, k requires 0 <= k < |s| => if k == i then s[j] else if k == j then s[i] else s[k])
  }

  /** A swap rearranges entries; it neither loses nor invents any. */
  lemma SwapPermutes(s: seq<nat>, i: nat, j: nat)
    requires i < |s| && j < |s|
    ensures multiset(Swap(s, i, j)) == multiset(s)
  {
    assert Swap(s, i, j) == s[i := s[j]][j := s[i]];
    var t := s[i := s[j]];
    assert multiset(t) == multiset(s) - multiset{s[i]} + multiset{s[j]};
    assert multiset(t[j := s[i]]) == multiset(t) - multiset{t[j]} + multiset{s[i]};
  }

  /** A swap maps an elimination order of the graph to an elimination order. */
  lemma SwapKeepsPermutation(s: seq<nat>, i: nat, j: nat, n: nat)
    requires i < |s| && j < |s|
    ensures IsPermutation(s, n) ==> IsPermutation(Swap(s, i, j), n)
  {
    var r := Swap(s, i, j);
    if IsPermutation(s, n) {
      forall a, b | 0 <= a < b < |r| ensures r[a] != r[b] {
        var a' := if a == i then j else if a == j then i else a;
        var b' := if b == i then j else if b == j then i else b;
        assert r[a] == s[a'] && r[b] == s[b'] && a' != b';
        if a' < b' {
          assert s[a'] != s[b'];
        } else {
          assert s[b'] != s[a'];
        }
      }
    }
  }

  datatype MaxCliqueNeighbourhood = MaxCliqueNeighbourhood(
    graph: Graph,
    solution: seq<nat>,
    neighbour: seq<nat>,
    hasNext: bool)

  /**
   What every state a neighbourhood reaches from a well-formed solution
   satisfies: the neighbour is a rearrangement of the solution.
   */
  predicate WellFormed(nb: MaxCliqueNeighbourhood) {
    && Valid(nb.graph)
    && InRange(nb.solution, |nb.graph|)
    && |nb.neighbour| == |nb.solution|
    && multiset(nb.neighbour) == multiset(nb.solution)
  }

  /** A neighbourhood that has not handed out its neighbour yet: it starts from the solution itself. */
  predicate Ready(nb: MaxCliqueNeighbourhood) {
    nb.neighbour == nb.solution && nb.hasNext
  }

  /** The constructor: a private copy of the graph, and the solution as the starting neighbour. */
  function NewNeighbourhood(g: Graph, solution: seq<nat>): (nb: MaxCliqueNeighbourhood)
    ensures nb.graph == g && nb.solution == solution && Ready(nb)
    ensures Valid(g) && InRange(solution, |g|) ==> WellFormed(nb)
  {
    MaxCliqueNeighbourhood(g, solution, solution, true)
  }

  /** `set_solution`: replaces the solution and restarts the neighbour from it. */
  function SetSolution(nb: MaxCliqueNeighbourhood, solution: seq<nat>): (r: MaxCliqueNeighbourhood)
    ensures r.graph == nb.graph && r.solution == solution && Ready(r)
    ensures Valid(nb.graph) && InRange(solution, |nb.graph|) ==> WellFormed(r)
  {
    nb.(solution := solution, neighbour := solution, hasNext := true)
  }

  function GetSolution(nb: MaxCliqueNeighbourhood): seq<nat> {
    nb.solution
  }

  function HasNextNeighbourSolution(nb: MaxCliqueNeighbourhood): bool {
    nb.hasNext
  }

  /**
   `next_neighbour_solution` for the accepted draw: position
   `GetMaxCliquePositions(...)[k]` of the neighbour is swapped with position
   `other`, and the neighbourhood reports no further neighbour. The max-clique
   positions are those of the solution, while the swap is applied to the
   neighbour, so a second call without `set_solution` composes two swaps.
   */
  function NextNeighbourSolution(nb: MaxCliqueNeighbourhood, k: nat, other: nat): (r: MaxCliqueNeighbourhood)
    requires WellFormed(nb)
    requires k < |GetMaxCliquePositions(nb.graph, nb.solution)| && other < |nb.solution|
    requires GetMaxCliquePositions(nb.graph, nb.solution)[k] != other
    ensures WellFormed(r) && !r.hasNext
    ensures r.graph == nb.graph && r.solution == nb.solution
    ensures var p := GetMaxCliquePositions(nb.graph, nb.solution)[k];
            && p != other
            && Profile(nb.graph, nb.solution)[p] == MaxOf(Profile(nb.graph, nb.solution), Cutoff(Profile(nb.graph, nb.solution)))
            && r.neighbour[p] == nb.neighbour[other] && r.neighbour[other] == nb.neighbour[p]
            && forall i | 0 <= i < |r.neighbour| && i != p && i != other :: r.neighbour[i] == nb.neighbour[i]
    ensures IsPermutation(nb.neighbour, |nb.graph|) ==> IsPermutation(r.neighbour, |nb.graph|)
  {
    var p := GetMaxCliquePositions(nb.graph, nb.solution)[k];
    SwapPermutes(nb.neighbour, p, other);
    SwapKeepsPermutation(nb.neighbour, p, other, |nb.graph|);
    nb.(neighbour := Swap(nb.neighbour, p, other), hasNext := false)
  }

  /** `get_solution` returns what was last installed by the constructor or `set_solution`, whatever happened in between. */
  lemma GetSolutionAfterSet(nb: MaxCliqueNeighbourhood, solution: seq<nat>, k: nat, other: nat)
    requires Valid(nb.graph) && InRange(solution, |nb.graph|)
    ensures var s := SetSolution(nb, solution);
            && GetSolution(s) == solution
            && HasNextNeighbourSolution(s)
    ensures var s := SetSolution(nb, solution);
            k < |GetMaxCliquePositions(s.graph, solution)| && other < |solution| &&
            GetMaxCliquePositions(s.graph, solution)[k] != other ==>
              && GetSolution(NextNeighbourSolution(s, k, other)) == solution
              && !HasNextNeighbourSolution(NextNeighbourSolution(s, k, other))
  {
  }

  /**
   The first neighbour handed out after the solution is installed differs
   from an elimination-order solution in exactly two positions, one of them
   a max-clique position.
   */
  lemma FirstNeighbourDiffersInTwo(nb: MaxCliqueNeighbourhood, k: nat, other: nat)
    requires WellFormed(nb) && Ready(nb) && IsPermutation(nb.solution, |nb.graph|)
    requires k < |GetMaxCliquePositions(nb.graph, nb.solution)| && other < |nb.solution|
    requires GetMaxCliquePositions(nb.graph, nb.solution)[k] != other
    ensures var p := GetMaxCliquePositions(nb.graph, nb.solution)[k];
            var r := NextNeighbourSolution(nb, k, other);
            forall i | 0 <= i < |nb.solution| :: r.neighbour[i] != nb.solution[i] <==> i == p || i == other
  {
    var p := GetMaxCliquePositions(nb.graph, nb.solution)[k];
    var r := NextNeighbourSolution(nb, k, other);
    assert nb.solution[p] != nb.solution[other] by {
      if p < other {
        assert nb.solution[p] != nb.solution[other];
      } else {
        assert nb.solution[other] != nb.solution[p];
      }
    }
  }
}
