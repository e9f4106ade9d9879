/**
 Greedy hyperedge covering (`compute_greedy_hyperedge_covering`).

 A hypergraph is its list of hyperedges: `h[e]` is the vertex set of
 hyperedge `e`, so the hyperedges of a vertex `x` are the `e` with `x` in
 `h[e]`. The vertices still to cover are a set: the callers pass a closed
 neighbourhood, which holds no vertex twice.

 Each round adds to the tally of every hyperedge the number of uncovered
 vertices it holds, chooses the smallest hyperedge with the largest tally,
 removes the vertices it holds and appends it. The source keeps the tallies
 of earlier rounds (`Accumulate`); `Reset` starts every round from zero, which
 is the classic greedy set cover the algorithm is meant to be.
 */
module Cover {
  import opened Maxima
  import Graphs

  type HyperGraph = seq<set<nat>>

  datatype TallyPolicy = Accumulate | Reset

  /** Every vertex of `vs` lies in some hyperedge. */
  predicate Coverable(h: HyperGraph, vs: set<nat>) {
    forall x | x in vs :: exists e | 0 <= e < |h| :: x in h[e]
  }

  /** The vertices the hyperedges `es` hold between them. */
  ghost predicate CoveredBy(h: HyperGraph, vs: set<nat>, es: seq<nat>)
    requires forall k | 0 <= k < |es| :: es[k] < |h|
  {
    forall x | x in vs :: exists k | 0 <= k < |es| :: x in h[es[k]]
  }

  function Zeros(n: nat): (z: seq<nat>)
    ensures |z| == n && forall e | 0 <= e < n :: z[e] == 0
  {
    seq(n, _ => 0)
  }

  /** The tallies a round starts from. */
  function Base(tally: seq<nat>, policy: TallyPolicy): (b: seq<nat>)
    ensures |b| == |tally|
  {
    if policy == Accumulate then tally else Zeros(|tally|)
  }

  /** One round's counting: every hyperedge gains the number of uncovered vertices it holds. */
  function Tally(h: HyperGraph, rem: set<nat>, base: seq<nat>): (t: seq<nat>)
    requires |base| == |h|
    ensures |t| == |h|
    ensures forall e | 0 <= e < |h| :: t[e] == base[e] + |rem * h[e]|
  {
    seq(|h|, e requires 0 <= e < |h| => base[e] + |rem * h[e]|)
  }

  /**
   The scan over the tallies in ascending hyperedge order that replaces the
   current choice only on a strictly larger tally; `bestVal` is 0 until some
   hyperedge with a positive tally has been seen.
   */
  function FirstMaxFrom(t: seq<nat>, e: nat, best: nat, bestVal: nat): (r: nat)
    requires e <= |t|
    requires bestVal == 0 ==> best == 0 && forall j | 0 <= j < e :: t[j] == 0
    requires bestVal > 0 ==> best < e && t[best] == bestVal
    requires forall j | 0 <= j < e :: t[j] <= bestVal
    requires forall j | 0 <= j < best && j < e :: t[j] < bestVal
    ensures (exists j | 0 <= j < |t| :: t[j] > 0) ==>
              && r < |t| && t[r] > 0
              && (forall j | 0 <= j < |t| :: t[j] <= t[r])
              && (forall j | 0 <= j < r :: t[j] < t[r])
    decreases |t| - e
  {
    if e == |t| then best
    else if t[e] > bestVal then FirstMaxFrom(t, e + 1, e, t[e])
    else FirstMaxFrom(t, e + 1, best, bestVal)
  }

  /** The smallest hyperedge with the largest tally, when some tally is positive. */
  function MaxEdge(t: seq<nat>): (e: nat)
    requires exists j | 0 <= j < |t| :: t[j] > 0
    ensures e < |t| && t[e] > 0
    ensures forall j | 0 <= j < |t| :: t[j] <= t[e]
    ensures forall j | 0 <= j < e :: t[j] < t[e]
  {
    FirstMaxFrom(t, 0, 0, 0)
  }

  /** A coverable non-empty set meets some hyperedge. */
  lemma CoverableMeets(h: HyperGraph, rem: set<nat>)
    requires rem != {} && Coverable(h, rem)
    ensures exists j | 0 <= j < |h| :: rem * h[j] != {}
  {
    var x :| x in rem;
    var k :| 0 <= k < |h| && x in h[k];
    assert x in rem * h[k];
  }

  function FirstMeeting(h: HyperGraph, rem: set<nat>, from: nat): (e: nat)
    requires from <= |h|
    requires exists j | from <= j < |h| :: rem * h[j] != {}
    ensures from <= e < |h| && rem * h[e] != {}
    decreases |h| - from
  {
    if rem * h[from] != {} then from else FirstMeeting(h, rem, from + 1)
  }

  /** The first hyperedge holding a vertex of `rem`. */
  function Witness(h: HyperGraph, rem: set<nat>): (e: nat)
    requires rem != {} && Coverable(h, rem)
    ensures e < |h| && rem * h[e] != {}
  {
    CoverableMeets(h, rem);
    FirstMeeting(h, rem, 0)
  }

  /**
   The termination measure for rounds that cover nothing: the largest tally
   is then held by a hyperedge with no uncovered vertex, and it does not grow,
   while the witness hyperedge gains at least one every round.
   */
  ghost function Measure(h: HyperGraph, rem: set<nat>, tally: seq<nat>): nat
    requires |tally| == |h| && Coverable(h, rem)
  {
    if rem == {} then 0
    else
      var w := Witness(h, rem);
      MaxOf(tally, |tally|) + 1 - tally[w]
  }

  lemma RoundHasCandidate(h: HyperGraph, rem: set<nat>, base: seq<nat>)
    requires |base| == |h| && rem != {} && Coverable(h, rem)
    ensures exists j | 0 <= j < |h| :: Tally(h, rem, base)[j] > 0
  {
    var w := Witness(h, rem);
    assert |rem * h[w]| > 0;
    assert Tally(h, rem, base)[w] > 0;
  }

  /** The hyperedge a round chooses: the smallest one with the largest tally after counting. */
  function Pick(h: HyperGraph, rem: set<nat>, tally: seq<nat>, policy: TallyPolicy): (e: nat)
    requires |tally| == |h| && rem != {} && Coverable(h, rem)
    ensures var t := Tally(h, rem, Base(tally, policy));
            && e < |h| && t[e] > 0
            && (forall j | 0 <= j < |h| :: t[j] <= t[e])
            && (forall j | 0 <= j < e :: t[j] < t[e])
  {
    RoundHasCandidate(h, rem, Base(tally, policy));
    MaxEdge(Tally(h, rem, Base(tally, policy)))
  }

  lemma DisjointMinus(rem: set<nat>, s: set<nat>)
    requires rem * s == {}
    ensures rem - s == rem
  {
    forall x | x in rem ensures x !in s {
      assert x !in rem * s;
    }
  }

  /**
   A round that covers nothing only happens when tallies accumulate, and it
   lowers the measure: the chosen tally stays put while the witness grows.
   */
  lemma IdleRound(h: HyperGraph, rem: set<nat>, tally: seq<nat>, policy: TallyPolicy)
    requires |tally| == |h| && rem != {} && Coverable(h, rem)
    requires rem * h[Pick(h, rem, tally, policy)] == {}
    ensures policy == Accumulate
    ensures Measure(h, rem, Tally(h, rem, Base(tally, policy))) < Measure(h, rem, tally)
  {
    var t := Tally(h, rem, Base(tally, policy));
    var e := Pick(h, rem, tally, policy);
    assert t[e] == Base(tally, policy)[e];
    var w := Witness(h, rem);
    assert |rem * h[w]| > 0;
    MaxAt(t, e);
    assert tally[e] <= MaxOf(tally, |tally|);
  }

  /** The result of a round: hyperedge `e` first, then a cover of what it leaves. */
  lemma CoverPrepend(h: HyperGraph, rem: set<nat>, e: nat, rest: seq<nat>)
    requires e < |h| && forall k | 0 <= k < |rest| :: rest[k] < |h|
    requires CoveredBy(h, rem - h[e], rest)
    ensures forall k | 0 <= k < |[e] + rest| :: ([e] + rest)[k] < |h|
    ensures CoveredBy(h, rem, [e] + rest)
  {
    var r := [e] + rest;
    forall x | x in rem ensures exists k | 0 <= k < |r| :: x in h[r[k]] {
      if x in h[e] {
        assert x in h[r[0]];
      } else {
        assert x in rem - h[e];
        var k :| 0 <= k < |rest| && x in h[rest[k]];
        assert r[k + 1] == rest[k];
      }
    }
  }

  /** What is left to cover after a round is still coverable. */
  lemma CoverableSubset(h: HyperGraph, rem: set<nat>, sub: set<nat>)
    requires Coverable(h, rem) && sub <= rem
    ensures Coverable(h, sub)
  {
  }

  /** Every round either covers a vertex or, covering nothing, lowers the measure. */
  lemma RoundProgress(h: HyperGraph, rem: set<nat>, tally: seq<nat>, policy: TallyPolicy)
    requires |tally| == |h| && rem != {} && Coverable(h, rem)
    ensures var e := Pick(h, rem, tally, policy);
            && Coverable(h, rem - h[e])
            && (|rem - h[e]| < |rem| ||
                (rem - h[e] == rem && Measure(h, rem, Tally(h, rem, Base(tally, policy))) < Measure(h, rem, tally)))
  {
    var e := Pick(h, rem, tally, policy);
    CoverableSubset(h, rem, rem - h[e]);
    if rem * h[e] != {} {
      Graphs.ShrinkCard(rem, h[e]);
    } else {
      IdleRound(h, rem, tally, policy);
      DisjointMinus(rem, h[e]);
    }
  }

  /**
   The greedy loop from the uncovered set `rem` and the tallies so far. The
   result names only hyperedges of `h` and covers every vertex of `rem`.
   */
  function GreedyCover(h: HyperGraph, rem: set<nat>, tally: seq<nat>, policy: TallyPolicy): (r: seq<nat>)
    requires |tally| == |h| && Coverable(h, rem)
    ensures forall k | 0 <= k < |r| :: r[k] < |h|
    ensures CoveredBy(h, rem, r)
    ensures |r| == 0 <==> rem == {}
    decreases |rem|, Measure(h, rem, tally)
  {
    if rem == {} then []
    else
      var e := Pick(h, rem, tally, policy);
      RoundProgress(h, rem, tally, policy);
      var rest := GreedyCover(h, rem - h[e], Tally(h, rem, Base(tally, policy)), policy);
      CoverPrepend(h, rem, e, rest);
      [e] + rest
  }

  /**
   Accumulated tallies never cost more hyperedges than vertices. After `j`
   rounds that covered `c` vertices between them, no tally exceeds `c` (a
   chosen tally counts only vertices it then covers, and it bounds every other
   tally), every hyperedge still holding an uncovered vertex has a tally of at
   least `j` (that vertex was counted in every round), and `j <= c`: a round
   that covers nothing picks a tally no smaller than such a hyperedge's, so it
   is paid for by vertices covered earlier.
   */
  lemma {:induction false} AccumulatedBound(h: HyperGraph, rem: set<nat>, tally: seq<nat>, j: nat, c: nat)
    requires |tally| == |h| && Coverable(h, rem)
    requires forall e | 0 <= e < |h| :: tally[e] <= c
    requires forall e | 0 <= e < |h| && rem * h[e] != {} :: j <= tally[e]
    requires j <= c
    ensures j + |GreedyCover(h, rem, tally, Accumulate)| <= c + |rem|
    decreases |rem|, Measure(h, rem, tally)
  {
    if rem != {} {
      var e := Pick(h, rem, tally, Accumulate);
      RoundProgress(h, rem, tally, Accumulate);
      GreedyUnfold(h, rem, tally, Accumulate);
      AccumulatedRound(h, rem, tally, j, c);
      AccumulatedBound(h, rem - h[e], Tally(h, rem, Base(tally, Accumulate)), j + 1, c + |rem * h[e]|);
    }
  }

  /** One accumulating round keeps the invariant of `AccumulatedBound`, with one more round and `d` more vertices covered. */
  lemma AccumulatedRound(h: HyperGraph, rem: set<nat>, tally: seq<nat>, j: nat, c: nat)
    requires |tally| == |h| && Coverable(h, rem) && rem != {}
    requires forall e | 0 <= e < |h| :: tally[e] <= c
    requires forall e | 0 <= e < |h| && rem * h[e] != {} :: j <= tally[e]
    requires j <= c
    ensures var e := Pick(h, rem, tally, Accumulate);
            var t := Tally(h, rem, Base(tally, Accumulate));
            var d := |rem * h[e]|;
            && |rem| == |rem - h[e]| + d
            && (forall f | 0 <= f < |h| :: t[f] <= c + d)
            && (forall f | 0 <= f < |h| && (rem - h[e]) * h[f] != {} :: j + 1 <= t[f])
            && j + 1 <= c + d
  {
    var e := Pick(h, rem, tally, Accumulate);
    assert Base(tally, Accumulate) == tally;
    var t := Tally(h, rem, tally);
    var d := |rem * h[e]|;
    Graphs.SplitCard(rem, h[e]);
    assert t[e] == tally[e] + d <= c + d;
    forall f | 0 <= f < |h| ensures t[f] <= c + d {
      assert t[f] <= t[e];
    }
    if d == 0 {
      var w := Witness(h, rem);
      assert j + 1 <= t[w] <= t[e];
    }
    forall f | 0 <= f < |h| && (rem - h[e]) * h[f] != {} ensures j + 1 <= t[f] {
      var x :| x in (rem - h[e]) * h[f];
      assert x in rem * h[f];
      assert j <= tally[f] && |rem * h[f]| >= 1;
    }
  }

  /**
   `compute_greedy_hyperedge_covering` as written: the tally map lives outside
   the loop, so tallies accumulate across rounds. It terminates whenever every
   vertex to cover lies in some hyperedge, and returns hyperedges whose union
   holds every vertex. Even with accumulated tallies it never needs more
   hyperedges than there are vertices (`AccumulatedBound`).
   */
  function ComputeGreedyHyperedgeCovering(h: HyperGraph, vs: set<nat>): (r: seq<nat>)
    requires Coverable(h, vs)
    ensures forall k | 0 <= k < |r| :: r[k] < |h|
    ensures CoveredBy(h, vs, r)
    ensures |r| <= |vs|
    ensures |r| == 0 <==> vs == {}
  {
    AccumulatedBound(h, vs, Zeros(|h|), 0, 0);
    GreedyCover(h, vs, Zeros(|h|), Accumulate)
  }

  /** One round of the loop, unfolded. */
  lemma GreedyUnfold(h: HyperGraph, rem: set<nat>, tally: seq<nat>, policy: TallyPolicy)
    requires |tally| == |h| && Coverable(h, rem) && rem != {}
    ensures var e := Pick(h, rem, tally, policy);
            && Coverable(h, rem - h[e])
            && GreedyCover(h, rem, tally, policy)
               == [e] + GreedyCover(h, rem - h[e], Tally(h, rem, Base(tally, policy)), policy)
  {
    RoundProgress(h, rem, tally, policy);
  }

  /** Prepending a fresh element that meets `rem` keeps a duplicate-free list of hyperedges meeting `rem`. */
  lemma PrependFresh(h: HyperGraph, rem: set<nat>, e: nat, rest: seq<nat>)
    requires e < |h| && rem * h[e] != {}
    requires forall k | 0 <= k < |rest| :: rest[k] < |h| && rest[k] != e && rem * h[rest[k]] != {}
    requires forall a, b | 0 <= a < b < |rest| :: rest[a] != rest[b]
    ensures forall k | 0 <= k < |[e] + rest| :: rem * h[([e] + rest)[k]] != {}
    ensures forall a, b | 0 <= a < b < |[e] + rest| :: ([e] + rest)[a] != ([e] + rest)[b]
  {
    var r := [e] + rest;
    forall a, b | 0 <= a < b < |r| ensures r[a] != r[b] {
      assert r[b] == rest[b - 1];
      if a > 0 {
        assert r[a] == rest[a - 1];
      }
    }
    forall k | 0 <= k < |r| ensures rem * h[r[k]] != {} {
      if k > 0 {
        assert r[k] == rest[k - 1];
      }
    }
  }

  /** With fresh tallies every round, every chosen hyperedge holds a still uncovered vertex. */
  lemma {:induction false} FreshRoundsCover(h: HyperGraph, rem: set<nat>, tally: seq<nat>)
    requires |tally| == |h| && Coverable(h, rem)
    ensures var r := GreedyCover(h, rem, tally, Reset);
            && (forall k | 0 <= k < |r| :: rem * h[r[k]] != {})
            && (forall a, b | 0 <= a < b < |r| :: r[a] != r[b])
            && |r| <= |rem|
    decreases |rem|
  {
    if rem != {} {
      var t := Tally(h, rem, Base(tally, Reset));
      var e := Pick(h, rem, tally, Reset);
      assert t[e] == |rem * h[e]|;
      var rem' := rem - h[e];
      Graphs.ShrinkCard(rem, h[e]);
      GreedyUnfold(h, rem, tally, Reset);
      FreshRoundsCover(h, rem', t);
      var rest := GreedyCover(h, rem', t, Reset);
      forall k | 0 <= k < |rest| ensures rest[k] != e && rem * h[rest[k]] != {} {
        var x :| x in rem' * h[rest[k]];
        assert x in rem * h[rest[k]];
        assert x !in h[e];
      }
      PrependFresh(h, rem, e, rest);
    }
  }

  /**
   The evidently intended greedy cover: tallies restart every round, so every
   chosen hyperedge covers something new, no hyperedge is chosen twice and
   there are never more hyperedges than vertices.
   */
  function FreshGreedyHyperedgeCovering(h: HyperGraph, vs: set<nat>): (r: seq<nat>)
    requires Coverable(h, vs)
    ensures forall k | 0 <= k < |r| :: r[k] < |h| && vs * h[r[k]] != {}
    ensures CoveredBy(h, vs, r)
    ensures forall a, b | 0 <= a < b < |r| :: r[a] != r[b]
    ensures |r| <= |vs|
    ensures |r| == 0 <==> vs == {}
  {
    FreshRoundsCover(h, vs, Zeros(|h|));
    GreedyCover(h, vs, Zeros(|h|), Reset)
  }

  /**
   The cover a tally policy produces: the as-written one for `Accumulate`, the
   corrected one for `Reset`. Either is a cover of `vs` by hyperedges of `h`,
   with at least one hyperedge for a non-empty set and never more hyperedges
   than vertices.
   */
  function CoverWith(h: HyperGraph, vs: set<nat>, policy: TallyPolicy): (r: seq<nat>)
    requires Coverable(h, vs)
    ensures forall k | 0 <= k < |r| :: r[k] < |h|
    ensures CoveredBy(h, vs, r)
    ensures |r| <= |vs|
    ensures |r| == 0 <==> vs == {}
  {
    if policy == Accumulate then ComputeGreedyHyperedgeCovering(h, vs) else FreshGreedyHyperedgeCovering(h, vs)
  }

  /** With two hyperedges, the round picks hyperedge 1 exactly when its tally is strictly larger. */
  lemma PickOfTwo(h: HyperGraph, rem: set<nat>, tally: seq<nat>, policy: TallyPolicy)
    requires |tally| == |h| == 2 && rem != {} && Coverable(h, rem)
    ensures var t := Tally(h, rem, Base(tally, policy));
            Pick(h, rem, tally, policy) == if t[0] < t[1] then 1 else 0
  {
    var t := Tally(h, rem, Base(tally, policy));
    var e := Pick(h, rem, tally, policy);
    assert e < 2 && t[0] <= t[e] && t[1] <= t[e];
    if e == 0 {
      assert !(t[0] < t[1]);
    } else {
      assert e == 1 && t[0] < t[1];
    }
  }

  // The two sequence-literal steps below are proved apart from the examples:
  // inside an example's context they send the solver through every cover term.
  lemma ConcatSingletons(a: nat, b: nat)
    ensures [a] + [b] == [a, b]
  {
  }

  lemma ConcatThree(a: nat, b: nat, c: nat)
    ensures [a] + ([b] + [c]) == [a, b, c]
  {
  }

  /** Hyperedge 0 is {0, 1, 2} and hyperedge 1 is {2, 3}. */
  predicate ExampleEdges(h: HyperGraph) {
    |h| == 2 && h[0] == {0, 1, 2} && h[1] == {2, 3}
  }

  /** Hyperedges {0, 1, 2} and {2, 3}, to cover {0, 1, 2, 3}. */
  predicate IsExample(h: HyperGraph, vs: set<nat>) {
    ExampleEdges(h) && vs == {0, 1, 2, 3}
  }

  lemma ExampleCoverable(h: HyperGraph, vs: set<nat>)
    requires IsExample(h, vs)
    ensures Coverable(h, vs) && Coverable(h, {3})
  {
    forall x | x in vs ensures exists e | 0 <= e < |h| :: x in h[e] {
      if x == 3 { assert x in h[1]; } else { assert x in h[0]; }
    }
    assert 3 in h[1];
  }

  lemma ExampleOverlaps(h: HyperGraph, vs: set<nat>)
    requires IsExample(h, vs)
    ensures |vs * h[0]| == 3 && |vs * h[1]| == 2
    ensures vs - h[0] == {3}
  {
    var a: set<nat> := {0, 1, 2};
    var b: set<nat> := {2, 3};
    assert vs * h[0] == a;
    assert vs * h[1] == b;
    assert |a| == 3 && |b| == 2;
  }

  /** The first round counts 3 and 2, whichever the policy, and chooses hyperedge 0. */
  lemma ExampleFirstRound(h: HyperGraph, vs: set<nat>, policy: TallyPolicy)
    requires IsExample(h, vs)
    ensures var t := Tally(h, vs, Base(Zeros(2), policy)); |t| == 2 && t[0] == 3 && t[1] == 2
    ensures Coverable(h, vs) && Pick(h, vs, Zeros(2), policy) == 0
    ensures vs - h[0] == {3}
  {
    ExampleCoverable(h, vs);
    ExampleOverlaps(h, vs);
    var base := Base(Zeros(2), policy);
    assert base[0] == 0 && base[1] == 0;
    var t := Tally(h, vs, base);
    assert t[0] == base[0] + |vs * h[0]|;
    assert t[1] == base[1] + |vs * h[1]|;
    PickOfTwo(h, vs, Zeros(2), policy);
  }

  /** Vertex 3 lies in hyperedge 1 only. */
  lemma ExampleLastVertex(h: HyperGraph)
    requires ExampleEdges(h)
    ensures |{3} * h[0]| == 0 && |{3} * h[1]| == 1
    ensures {3} - h[0] == {3} && {3} - h[1] == {}
  {
    var three: set<nat> := {3};
    assert three * h[0] == {};
    assert three * h[1] == three;
  }

  /** The third round under accumulated tallies [3, 3]: hyperedge 1 covers vertex 3. */
  lemma ExampleAccumulatedLast(h: HyperGraph, t2: seq<nat>)
    requires ExampleEdges(h) && |t2| == 2 && t2[0] == 3 && t2[1] == 3
    ensures Coverable(h, {3}) && GreedyCover(h, {3}, t2, Accumulate) == [1]
  {
    var three: set<nat> := {3};
    ExampleCoverable(h, {0, 1, 2, 3});
    ExampleLastVertex(h);
    var t3 := Tally(h, three, t2);
    assert t3[0] == t2[0] + |three * h[0]|;
    assert t3[1] == t2[1] + |three * h[1]|;
    PickOfTwo(h, three, t2, Accumulate);
    GreedyUnfold(h, three, t2, Accumulate);
    var none: set<nat> := {};
    assert three - h[1] == none;
    var last := GreedyCover(h, none, t3, Accumulate);
    assert last == [];
    assert [1] + last == [1];
  }

  /** The second round under accumulated tallies [3, 2]: a tie at 3 picks hyperedge 0 again. */
  lemma ExampleAccumulatedTail(h: HyperGraph, t1: seq<nat>)
    requires ExampleEdges(h) && |t1| == 2 && t1[0] == 3 && t1[1] == 2
    ensures Coverable(h, {3}) && GreedyCover(h, {3}, t1, Accumulate) == [0] + [1]
  {
    var three: set<nat> := {3};
    ExampleLastVertex(h);
    var t2 := Tally(h, three, t1);
    assert t2[0] == 3 + |three * h[0]| == 3;
    assert t2[1] == 2 + |three * h[1]| == 3;
    ExampleAccumulatedLast(h, t2);
    PickOfTwo(h, three, t1, Accumulate);
    GreedyUnfold(h, three, t1, Accumulate);
  }

  /**
   Accumulated tallies make the loop choose a hyperedge that covers nothing:
   covering {0, 1, 2, 3} with {0, 1, 2} and {2, 3}, the second round ties
   3 against 3 and picks hyperedge 0 again, so the cover has three entries.
   */
  lemma AccumulatedTallyRepeatsEdge(h: HyperGraph, vs: set<nat>)
    requires IsExample(h, vs)
    ensures Coverable(h, vs)
    ensures ComputeGreedyHyperedgeCovering(h, vs) == [0, 0, 1]
  {
    ExampleCoverable(h, vs);
    var t1 := Tally(h, vs, Base(Zeros(2), Accumulate));
    var three: set<nat> := {3};
    assert Coverable(h, three) && GreedyCover(h, vs, Zeros(2), Accumulate) == [0] + GreedyCover(h, three, t1, Accumulate) by {
      ExampleFirstRound(h, vs, Accumulate);
      GreedyUnfold(h, vs, Zeros(2), Accumulate);
    }
    assert GreedyCover(h, three, t1, Accumulate) == [0] + [1] by {
      ExampleFirstRound(h, vs, Accumulate);
      ExampleAccumulatedTail(h, t1);
    }
    assert Zeros(|h|) == Zeros(2);
    ConcatThree(0, 0, 1);
    assert GreedyCover(h, vs, Zeros(|h|), Accumulate) == [0, 0, 1];
  }

  /** With fresh tallies, vertex 3 alone is covered by hyperedge 1, whatever came before. */
  lemma ExampleFreshLastRound(h: HyperGraph, t1: seq<nat>)
    requires ExampleEdges(h) && |t1| == 2
    ensures Coverable(h, {3}) && GreedyCover(h, {3}, t1, Reset) == [1]
  {
    var three: set<nat> := {3};
    ExampleCoverable(h, {0, 1, 2, 3});
    ExampleLastVertex(h);
    var base := Base(t1, Reset);
    assert base[0] == 0 && base[1] == 0;
    var t2 := Tally(h, three, base);
    assert t2[0] == base[0] + |three * h[0]|;
    assert t2[1] == base[1] + |three * h[1]|;
    PickOfTwo(h, three, t1, Reset);
    GreedyUnfold(h, three, t1, Reset);
    var none: set<nat> := {};
    assert three - h[1] == none;
    var last := GreedyCover(h, none, t2, Reset);
    assert last == [];
    assert [1] + last == [1];
  }

  /** With fresh tallies the same input is covered by hyperedges 0 and 1. */
  lemma FreshTallyExample(h: HyperGraph, vs: set<nat>)
    requires IsExample(h, vs)
    ensures Coverable(h, vs)
    ensures FreshGreedyHyperedgeCovering(h, vs) == [0, 1]
  {
    ExampleCoverable(h, vs);
    var t1 := Tally(h, vs, Base(Zeros(2), Reset));
    var three: set<nat> := {3};
    assert Coverable(h, three) && GreedyCover(h, vs, Zeros(2), Reset) == [0] + GreedyCover(h, three, t1, Reset) by {
      ExampleFirstRound(h, vs, Reset);
      GreedyUnfold(h, vs, Zeros(2), Reset);
    }
    assert GreedyCover(h, three, t1, Reset) == [1] by {
      ExampleFreshLastRound(h, t1);
    }
    assert Zeros(|h|) == Zeros(2);
    assert [0] + [1] == [0, 1] by {
      ConcatSingletons(0, 1);
    }
    assert GreedyCover(h, vs, Zeros(|h|), Reset) == [0, 1];
  }
}
