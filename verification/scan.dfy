/**
 Left-to-right elimination scans over an order.

 The unpruned reference is stated over the order's width profile: the
 neighbour count of every position, read just before its vertex is
 eliminated. `get_max_clique_positions` is modelled as the loop it is, with
 the early exit once the positions left cannot exceed the running maximum,
 and proved equal to the reference over the prefix it scans — and, on
 elimination orders, over the whole order.
 */
module Scan {
  import opened Graphs
  import opened Maxima

  /** The pre-elimination neighbour count of every position of `order`. */
  function Profile(g: Graph, order: seq<nat>): (cs: seq<nat>)
    requires Valid(g) && InRange(order, |g|)
    ensures |cs| == |order|
    ensures forall i | 0 <= i < |order| :: cs[i] == |Eliminated(g, order, i)[order[i]]|
  {
    seq(|order|, i requires 0 <= i < |order| => |Eliminated(g, order, i)[order[i]]|)
  }

  /** On a duplicate-free order, position `i` sees at most n - 1 - i live neighbours. */
  lemma ProfileBound(g: Graph, order: seq<nat>)
    requires Valid(g) && InRange(order, |g|) && Distinct(order)
    ensures forall i | 0 <= i < |order| :: Profile(g, order)[i] <= |g| - 1 - i
  {
    forall i | 0 <= i < |order| ensures Profile(g, order)[i] <= |g| - 1 - i {
      LiveNeighbourBound(g, order, i);
    }
  }

  /** On any order, no position sees more than n - 1 neighbours. */
  lemma ProfileBelowVertexCount(g: Graph, order: seq<nat>)
    requires Valid(g) && InRange(order, |g|)
    ensures forall i | 0 <= i < |order| :: Profile(g, order)[i] < |g|
  {
    forall i | 0 <= i < |order| ensures Profile(g, order)[i] < |g| {
      NeighbourBound(Eliminated(g, order, i), order[i]);
    }
  }

  /** Whether the scan breaks right after processing its `k`-th position. */
  predicate Stops(cs: seq<nat>, k: nat)
    requires 1 <= k <= |cs|
  {
    |cs| - (k - 1) <= MaxOf(cs, k)
  }

  function CutoffFrom(cs: seq<nat>, k: nat): (r: nat)
    requires 1 <= k <= |cs|
    ensures k <= r <= |cs|
    ensures forall j | k <= j < r :: !Stops(cs, j)
    ensures r < |cs| ==> Stops(cs, r)
    decreases |cs| - k
  {
    if k == |cs| || Stops(cs, k) then k else CutoffFrom(cs, k + 1)
  }

  /** How many positions the pruned scan processes: up to its first stop, or all of them. */
  function Cutoff(cs: seq<nat>): (r: nat)
    ensures r <= |cs| && (|cs| > 0 ==> 1 <= r)
    ensures forall j | 1 <= j < r :: !Stops(cs, j)
    ensures 1 <= r < |cs| ==> Stops(cs, r)
  {
    if |cs| == 0 then 0 else CutoffFrom(cs, 1)
  }

  /** The cutoff is the only prefix length with no earlier stop that stops or ends the order. */
  lemma CutoffUnique(cs: seq<nat>, k: nat)
    requires 1 <= k <= |cs|
    requires forall j | 1 <= j < k :: !Stops(cs, j)
    requires k == |cs| || Stops(cs, k)
    ensures Cutoff(cs) == k
  {
  }

  /** Entries below the running maximum change neither the maximum nor its positions. */
  lemma {:induction false} LowTail(cs: seq<nat>, k: nat, j: nat)
    requires k <= j <= |cs|
    requires forall t | k <= t < j :: cs[t] < MaxOf(cs, k)
    ensures MaxOf(cs, j) == MaxOf(cs, k)
    ensures MaxPositionsOf(cs, j) == MaxPositionsOf(cs, k)
    decreases j
  {
    if j > k {
      LowTail(cs, k, j - 1);
      var m := MaxOf(cs, k);
      assert cs[j - 1] < m;
      assert MaxOf(cs, j) == m;
      assert MaxOf(cs, j - 1) == m;
      PositionsSkip(cs, j, m);
      assert MaxPositionsOf(cs, j) == PositionsOf(cs, j - 1, m);
    }
  }

  /**
   The early exit is exact when position `i` can see at most |cs| - 1 - i
   neighbours: after a stop at `k`, every later entry is below the maximum.
   */
  lemma CutoffExact(cs: seq<nat>)
    requires forall i | 0 <= i < |cs| :: cs[i] <= |cs| - 1 - i
    ensures MaxOf(cs, Cutoff(cs)) == MaxOf(cs, |cs|)
    ensures MaxPositionsOf(cs, Cutoff(cs)) == MaxPositionsOf(cs, |cs|)
  {
    var k := Cutoff(cs);
    if k < |cs| {
      var m := MaxOf(cs, k);
      assert |cs| - (k - 1) <= m by {
        assert Stops(cs, k);
      }
      forall t | k <= t < |cs| ensures cs[t] < m {
      }
      LowTail(cs, k, |cs|);
    }
  }

  /** The state the loop of `get_max_clique_positions` carries from one position to the next. */
  datatype ScanState = ScanState(elim: Graph, max: nat, positions: seq<nat>)

  /**
   The loop body for position `i` holding vertex `v`: read the neighbour count,
   record a tie or restart the list on a new maximum, then eliminate `v`.
   */
  function ScanStep(st: ScanState, i: nat, v: nat): (r: ScanState)
    requires Valid(st.elim) && v < |st.elim|
    ensures r.elim == Eliminate(st.elim, v)
  {
    var w := |st.elim[v]|;
    var elim := Eliminate(st.elim, v);
    if w == st.max then ScanState(elim, st.max, st.positions + [i])
    else if st.max < w then ScanState(elim, w, [i])
    else ScanState(elim, st.max, st.positions)
  }

  /** The loop from position `i` on, with its early exit once `|order| - i <= max`. */
  function ScanFrom(order: seq<nat>, i: nat, st: ScanState): seq<nat>
    requires Valid(st.elim) && InRange(order, |st.elim|) && i <= |order|
    decreases |order| - i
  {
    if i == |order| then st.positions
    else
      var next := ScanStep(st, i, order[i]);
      if |order| - i <= next.max then next.positions
      else ScanFrom(order, i + 1, next)
  }

  /** The reference state after the first `i` positions: graph, maximum and its positions. */
  predicate ScanInvariant(g: Graph, order: seq<nat>, i: nat, st: ScanState)
    requires Valid(g) && InRange(order, |g|) && i <= |order|
  {
    var cs := Profile(g, order);
    st.elim == Eliminated(g, order, i) && st.max == MaxOf(cs, i) && st.positions == MaxPositionsOf(cs, i)
  }

  lemma ScanStepCorrect(g: Graph, order: seq<nat>, i: nat, st: ScanState)
    requires Valid(g) && InRange(order, |g|) && i < |order|
    requires ScanInvariant(g, order, i, st)
    ensures ScanInvariant(g, order, i + 1, ScanStep(st, i, order[i]))
  {
    var cs := Profile(g, order);
    assert |st.elim[order[i]]| == cs[i];
    MaxStep(cs, i);
  }

  lemma {:induction false} ScanFromCorrect(g: Graph, order: seq<nat>, i: nat, st: ScanState)
    requires Valid(g) && InRange(order, |g|) && i < |order|
    requires ScanInvariant(g, order, i, st)
    ensures ScanFrom(order, i, st) == MaxPositionsOf(Profile(g, order), CutoffFrom(Profile(g, order), i + 1))
    decreases |order| - i
  {
    var cs := Profile(g, order);
    var next := ScanStep(st, i, order[i]);
    ScanStepCorrect(g, order, i, st);
    assert next.max == MaxOf(cs, i + 1) && next.positions == MaxPositionsOf(cs, i + 1);
    if |order| - i <= next.max {
      assert Stops(cs, i + 1);
      assert CutoffFrom(cs, i + 1) == i + 1;
      assert ScanFrom(order, i, st) == next.positions;
    } else if i + 1 < |order| {
      assert !Stops(cs, i + 1);
      assert CutoffFrom(cs, i + 1) == CutoffFrom(cs, i + 2);
      assert ScanFrom(order, i, st) == ScanFrom(order, i + 1, next);
      ScanFromCorrect(g, order, i + 1, next);
    } else {
      assert CutoffFrom(cs, i + 1) == i + 1;
      assert ScanFrom(order, i, st) == ScanFrom(order, i + 1, next) == next.positions;
    }
  }

  /** The scan from position 0 returns the reference positions over the prefix it processes. */
  lemma ScanCorrect(g: Graph, order: seq<nat>)
    requires Valid(g) && InRange(order, |g|)
    ensures ScanFrom(order, 0, ScanState(g, 0, [])) == MaxPositionsOf(Profile(g, order), Cutoff(Profile(g, order)))
  {
    var cs := Profile(g, order);
    var init := ScanState(g, 0, []);
    if |order| > 0 {
      assert ScanInvariant(g, order, 0, init) by {
        assert Eliminated(g, order, 0) == g;
        assert MaxOf(cs, 0) == 0;
        assert MaxPositionsOf(cs, 0) == PositionsOf(cs, 0, 0) == [];
      }
      ScanFromCorrect(g, order, 0, init);
      assert Cutoff(cs) == CutoffFrom(cs, 1);
    } else {
      assert ScanFrom(order, 0, init) == [];
      assert Cutoff(cs) == 0;
      assert MaxPositionsOf(cs, 0) == PositionsOf(cs, 0, 0) == [];
    }
  }

  /** What the scan's answer is, in terms of the reference over the profile. */
  lemma ScanAnswer(g: Graph, order: seq<nat>)
    requires Valid(g) && InRange(order, |g|)
    ensures var cs := Profile(g, order);
            var ps := MaxPositionsOf(cs, Cutoff(cs));
            && (|order| > 0 ==> |ps| > 0)
            && (forall a | 0 <= a < |ps| :: ps[a] < Cutoff(cs) && cs[ps[a]] == MaxOf(cs, Cutoff(cs)))
            && (IsPermutation(order, |g|) ==> ps == MaxPositionsOf(cs, |order|))
  {
    var cs := Profile(g, order);
    if |order| > 0 {
      MaxPositionsNonEmpty(cs, Cutoff(cs));
    }
    if IsPermutation(order, |g|) {
      ProfileBound(g, order);
      CutoffExact(cs);
    }
  }

  /**
   `get_max_clique_positions`: the positions of `order` whose pre-elimination
   neighbour count equals the maximum, found by a left-to-right scan that stops
   once the positions left are no more than the running maximum.
   */
  function GetMaxCliquePositions(g: Graph, order: seq<nat>): (ps: seq<nat>)
    requires Valid(g) && InRange(order, |g|)
    ensures |order| > 0 ==> |ps| > 0
    ensures forall a, b | 0 <= a < b < |ps| :: ps[a] < ps[b]
    ensures forall a | 0 <= a < |ps| ::
              && ps[a] < Cutoff(Profile(g, order)) <= |order|
              && Profile(g, order)[ps[a]] == MaxOf(Profile(g, order), Cutoff(Profile(g, order)))
    ensures ps == MaxPositionsOf(Profile(g, order), Cutoff(Profile(g, order)))
    ensures IsPermutation(order, |g|) ==> ps == MaxPositionsOf(Profile(g, order), |order|)
  {
    var ps := ScanFrom(order, 0, ScanState(g, 0, []));
    ScanResult(g, order, ps);
    ps
  }

  /** What the scan from the initial state returns, stated of its result `ps`. */
  lemma ScanResult(g: Graph, order: seq<nat>, ps: seq<nat>)
    requires Valid(g) && InRange(order, |g|)
    requires ps == ScanFrom(order, 0, ScanState(g, 0, []))
    ensures |order| > 0 ==> |ps| > 0
    ensures forall a, b | 0 <= a < b < |ps| :: ps[a] < ps[b]
    ensures forall a | 0 <= a < |ps| ::
              && ps[a] < Cutoff(Profile(g, order)) <= |order|
              && Profile(g, order)[ps[a]] == MaxOf(Profile(g, order), Cutoff(Profile(g, order)))
    ensures ps == MaxPositionsOf(Profile(g, order), Cutoff(Profile(g, order)))
    ensures IsPermutation(order, |g|) ==> ps == MaxPositionsOf(Profile(g, order), |order|)
  {
    ScanCorrect(g, order);
    ScanAnswer(g, order);
  }
}
