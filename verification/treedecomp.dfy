/**
 The width of an elimination order for tree decompositions
 (`TreeDecompProblem::compute_width`): the largest neighbour count a vertex
 has just before it is eliminated, scanning the order left to right and
 stopping once the vertices left cannot beat the width found so far.
 */
module TreeDecomp {
  import opened Graphs
  import opened Maxima
  import opened Scan

  method ComputeWidth(g: Graph, tour: seq<nat>) returns (width: nat)
    requires Valid(g) && InRange(tour, |g|)
    ensures width == MaxOf(Profile(g, tour), Cutoff(Profile(g, tour)))
    ensures IsPermutation(tour, |g|) ==> width == MaxOf(Profile(g, tour), |tour|)
    ensures forall a | 0 <= a < |GetMaxCliquePositions(g, tour)| ::
              Profile(g, tour)[GetMaxCliquePositions(g, tour)[a]] == width
    ensures |tour| == 0 ==> width == 0
    ensures |tour| > 0 ==> width <= |g| - 1
  {
    width := PrunedMax(g, tour);
    WidthFacts(g, tour);
  }

  /** The pruned scan itself: the running maximum up to the first stop. */
  method PrunedMax(g: Graph, tour: seq<nat>) returns (width: nat)
    requires Valid(g) && InRange(tour, |g|)
    ensures width == MaxOf(Profile(g, tour), Cutoff(Profile(g, tour)))
  {
    ghost var cs := Profile(g, tour);
    width := 0;
    var elim := g;
    var i := 0;
    while i < |tour|
      invariant i <= |tour|
      invariant elim == Eliminated(g, tour, i)
      invariant width == MaxOf(cs, i)
      invariant forall j | 1 <= j <= i :: !Stops(cs, j)
    {
      var w := |elim[tour[i]]|;
      assert w == cs[i];
      MaxNext(cs, i, width);
      elim := Eliminate(elim, tour[i]);
      if w > width {
        width := w;
      }
      if |tour| - i <= width {
        CutoffUnique(cs, i + 1);
        break;
      }
      i := i + 1;
    }
    if i == |tour| && i > 0 {
      CutoffUnique(cs, i);
    }
  }

  /** What the prefix maximum says about the whole order and the max-clique positions. */
  lemma WidthFacts(g: Graph, tour: seq<nat>)
    requires Valid(g) && InRange(tour, |g|)
    ensures var cs := Profile(g, tour);
            && (forall a | 0 <= a < |GetMaxCliquePositions(g, tour)| :: cs[GetMaxCliquePositions(g, tour)[a]] == MaxOf(cs, Cutoff(cs)))
            && (|tour| == 0 ==> MaxOf(cs, Cutoff(cs)) == 0)
            && (IsPermutation(tour, |g|) ==> MaxOf(cs, Cutoff(cs)) == MaxOf(cs, |tour|))
            && (|tour| > 0 ==> MaxOf(cs, Cutoff(cs)) <= |g| - 1)
  {
    var cs := Profile(g, tour);
    if IsPermutation(tour, |g|) {
      ProfileBound(g, tour);
      CutoffExact(cs);
    }
    if |tour| > 0 {
      ProfileBelowVertexCount(g, tour);
      var j :| 0 <= j < Cutoff(cs) && cs[j] == MaxOf(cs, Cutoff(cs));
    }
  }

  /** The 5-cycle 0-1-2-3-4-0. */
  predicate IsCycle5(g: Graph) {
    |g| == 5 && g[0] == {1, 4} && g[1] == {0, 2} && g[2] == {1, 3} && g[3] == {2, 4} && g[4] == {3, 0}
  }

  /** Eliminating 0 from the 5-cycle joins its neighbours 1 and 4, closing the 4-cycle 1-2-3-4-1. */
  lemma Cycle5First(g: Graph)
    requires IsCycle5(g)
    ensures Valid(g) && InRange([0, 1, 2, 3, 4], |g|)
    ensures var e := Eliminated(g, [0, 1, 2, 3, 4], 1);
            e[1] == {2, 4} && e[2] == {1, 3} && e[3] == {2, 4} && e[4] == {3, 1}
  {
    assert Eliminated(g, [0, 1, 2, 3, 4], 1) == Eliminate(g, 0);
  }

  /** Eliminating 1 next joins 2 and 4, leaving the triangle 2-3-4. */
  lemma Cycle5Second(g: Graph)
    requires IsCycle5(g)
    ensures Valid(g) && InRange([0, 1, 2, 3, 4], |g|)
    ensures var e := Eliminated(g, [0, 1, 2, 3, 4], 2);
            e[2] == {3, 4} && e[3] == {2, 4}
  {
    var t := [0, 1, 2, 3, 4];
    Cycle5First(g);
    assert Eliminated(g, t, 2) == Eliminate(Eliminated(g, t, 1), 1);
  }

  /** Eliminating 2 then leaves the edge 3-4. */
  lemma Cycle5Third(g: Graph)
    requires IsCycle5(g)
    ensures Valid(g) && InRange([0, 1, 2, 3, 4], |g|)
    ensures Eliminated(g, [0, 1, 2, 3, 4], 3)[3] == {4}
  {
    var t := [0, 1, 2, 3, 4];
    Cycle5Second(g);
    assert Eliminated(g, t, 3) == Eliminate(Eliminated(g, t, 2), 2);
  }

  /** Eliminating 0, 1 and 2 in turn from the 5-cycle: each has two neighbours, then 3 has one. */
  lemma Cycle5Profile(g: Graph)
    requires IsCycle5(g)
    ensures Valid(g) && InRange([0, 1, 2, 3, 4], |g|)
    ensures var cs := Profile(g, [0, 1, 2, 3, 4]);
            |cs| == 5 && cs[0] == 2 && cs[1] == 2 && cs[2] == 2 && cs[3] == 1
  {
    Cycle5First(g);
    Cycle5Second(g);
    Cycle5Third(g);
  }

  /**
   On the 5-cycle the scan stops after four vertices with width 2, and the
   three tied positions 0, 1 and 2 are all reported.
   */
  lemma Cycle5Width(g: Graph)
    requires IsCycle5(g)
    ensures Valid(g) && InRange([0, 1, 2, 3, 4], |g|)
    ensures var cs := Profile(g, [0, 1, 2, 3, 4]);
            Cutoff(cs) == 4 && MaxOf(cs, Cutoff(cs)) == 2
    ensures forall j | 0 <= j < 5 :: j in GetMaxCliquePositions(g, [0, 1, 2, 3, 4]) <==> j < 3
  {
    Cycle5Profile(g);
    TiedScan(Profile(g, [0, 1, 2, 3, 4]));
  }

  /** The running maxima of the neighbour counts 2, 2, 2, 1, _ of the 5-cycle. */
  lemma TiedMaxima(cs: seq<nat>)
    requires |cs| == 5 && cs[0] == 2 && cs[1] == 2 && cs[2] == 2 && cs[3] == 1
    ensures MaxOf(cs, 1) == 2 && MaxOf(cs, 2) == 2 && MaxOf(cs, 3) == 2 && MaxOf(cs, 4) == 2
  {
    MaxNext(cs, 0, 0);
    MaxNext(cs, 1, 2);
    MaxNext(cs, 2, 2);
    MaxNext(cs, 3, 2);
  }

  /** The scan over the neighbour counts of the 5-cycle stops at 4 and reports the three tied positions. */
  lemma TiedScan(cs: seq<nat>)
    requires |cs| == 5 && cs[0] == 2 && cs[1] == 2 && cs[2] == 2 && cs[3] == 1
    ensures Cutoff(cs) == 4 && MaxOf(cs, Cutoff(cs)) == 2
    ensures forall j | 0 <= j < 5 :: j in MaxPositionsOf(cs, Cutoff(cs)) <==> j < 3
  {
    TiedMaxima(cs);
    StopsAtFour(cs);
    TiedPositions(cs);
  }

  /** No prefix shorter than 4 stops a scan of five counts whose running maximum is 2; the prefix of 4 does. */
  lemma StopsAtFour(cs: seq<nat>)
    requires |cs| == 5 && MaxOf(cs, 1) == 2 && MaxOf(cs, 2) == 2 && MaxOf(cs, 3) == 2 && MaxOf(cs, 4) == 2
    ensures Cutoff(cs) == 4
  {
    forall j | 1 <= j < 4 ensures !Stops(cs, j) {
      assert j == 1 || j == 2 || j == 3;
    }
    CutoffUnique(cs, 4);
  }

  /** The positions of the count 2 among the first four counts of the 5-cycle are 0, 1 and 2. */
  lemma TiedPositions(cs: seq<nat>)
    requires |cs| == 5 && cs[0] == 2 && cs[1] == 2 && cs[2] == 2 && cs[3] == 1
    ensures forall j | 0 <= j < 5 :: j in PositionsOf(cs, 4, 2) <==> j < 3
  {
    var ps := PositionsOf(cs, 4, 2);
    forall j | 0 <= j < 5 ensures j in ps <==> j < 3 {
      assert j == 0 || j == 1 || j == 2 || j == 3 || j == 4;
    }
  }

  /** The complete graph on 0 .. 3. */
  predicate IsComplete4(g: Graph) {
    |g| == 4 && g[0] == {1, 2, 3} && g[1] == {0, 2, 3} && g[2] == {0, 1, 3} && g[3] == {0, 1, 2}
  }

  /** Eliminating 0 from the complete graph leaves 1 with the two neighbours 2 and 3. */
  lemma Complete4First(g: Graph)
    requires IsComplete4(g)
    ensures Valid(g) && InRange([0, 1, 2, 3], |g|)
    ensures var cs := Profile(g, [0, 1, 2, 3]);
            |cs| == 4 && cs[0] == 3 && cs[1] == 2
  {
    assert Eliminated(g, [0, 1, 2, 3], 1) == Eliminate(g, 0);
    assert Eliminate(g, 0)[1] == {2, 3};
  }

  /**
   On the complete graph on four vertices the first vertex already has three
   neighbours; the scan stops after the second vertex with width 3, reported
   at position 0 only.
   */
  lemma Complete4Width(g: Graph)
    requires IsComplete4(g)
    ensures Valid(g) && InRange([0, 1, 2, 3], |g|)
    ensures var cs := Profile(g, [0, 1, 2, 3]);
            Cutoff(cs) == 2 && MaxOf(cs, Cutoff(cs)) == 3
    ensures forall j | 0 <= j < 4 :: j in GetMaxCliquePositions(g, [0, 1, 2, 3]) <==> j == 0
  {
    Complete4First(g);
    EarlyStopScan(Profile(g, [0, 1, 2, 3]));
  }

  /** The scan over the neighbour counts 3, 2, _, _ of the complete graph stops at 2. */
  lemma EarlyStopScan(cs: seq<nat>)
    requires |cs| == 4 && cs[0] == 3 && cs[1] == 2
    ensures Cutoff(cs) == 2 && MaxOf(cs, Cutoff(cs)) == 3
    ensures forall j | 0 <= j < 4 :: j in MaxPositionsOf(cs, Cutoff(cs)) <==> j == 0
  {
    MaxNext(cs, 0, 0);
    MaxNext(cs, 1, 3);
    assert !Stops(cs, 1) && Stops(cs, 2);
    CutoffUnique(cs, 2);
    var ps := PositionsOf(cs, 2, 3);
    forall j | 0 <= j < 4 ensures j in ps <==> j == 0 {
      assert j == 0 || j == 1 || j == 2 || j == 3;
    }
  }

  /** The path 0-1-2-3. */
  predicate IsPath4(g: Graph) {
    |g| == 4 && g[0] == {1} && g[1] == {0, 2} && g[2] == {1, 3} && g[3] == {2}
  }

  /** Eliminating the end 0 of the path leaves the path 1-2-3. */
  lemma Path4First(g: Graph)
    requires IsPath4(g)
    ensures Valid(g) && InRange([0, 1, 2, 3], |g|)
    ensures var e := Eliminated(g, [0, 1, 2, 3], 1);
            e[1] == {2} && e[2] == {1, 3}
  {
    assert Eliminated(g, [0, 1, 2, 3], 1) == Eliminate(g, 0);
  }

  /** Eliminating 1 next leaves the edge 2-3. */
  lemma Path4Second(g: Graph)
    requires IsPath4(g)
    ensures Valid(g) && InRange([0, 1, 2, 3], |g|)
    ensures Eliminated(g, [0, 1, 2, 3], 2)[2] == {3}
  {
    var t := [0, 1, 2, 3];
    Path4First(g);
    assert Eliminated(g, t, 2) == Eliminate(Eliminated(g, t, 1), 1);
  }

  /** Eliminating 2 then leaves 3 isolated. */
  lemma Path4Third(g: Graph)
    requires IsPath4(g)
    ensures Valid(g) && InRange([0, 1, 2, 3], |g|)
    ensures Eliminated(g, [0, 1, 2, 3], 3)[3] == {}
  {
    var t := [0, 1, 2, 3];
    Path4Second(g);
    assert Eliminated(g, t, 3) == Eliminate(Eliminated(g, t, 2), 2);
  }

  /** Eliminating the path from one end: each vertex has one neighbour left, the last none. */
  lemma Path4Profile(g: Graph)
    requires IsPath4(g)
    ensures Valid(g) && InRange([0, 1, 2, 3], |g|)
    ensures var cs := Profile(g, [0, 1, 2, 3]);
            |cs| == 4 && cs[0] == 1 && cs[1] == 1 && cs[2] == 1 && cs[3] == 0
  {
    Path4First(g);
    Path4Second(g);
    Path4Third(g);
  }

  /**
   On the path no prefix stops the scan, the width is 1, and it is tied at
   positions 0, 1 and 2, all of which are reported.
   */
  lemma Path4Width(g: Graph)
    requires IsPath4(g)
    ensures Valid(g) && InRange([0, 1, 2, 3], |g|)
    ensures var cs := Profile(g, [0, 1, 2, 3]);
            Cutoff(cs) == 4 && MaxOf(cs, Cutoff(cs)) == 1
    ensures forall j | 0 <= j < 4 :: j in GetMaxCliquePositions(g, [0, 1, 2, 3]) <==> j < 3
  {
    Path4Profile(g);
    UnstoppedScan(Profile(g, [0, 1, 2, 3]));
  }

  /** The running maxima of the neighbour counts 1, 1, 1, 0 of the path. */
  lemma UnstoppedMaxima(cs: seq<nat>)
    requires |cs| == 4 && cs[0] == 1 && cs[1] == 1 && cs[2] == 1 && cs[3] == 0
    ensures MaxOf(cs, 1) == 1 && MaxOf(cs, 2) == 1 && MaxOf(cs, 3) == 1 && MaxOf(cs, 4) == 1
  {
    MaxNext(cs, 0, 0);
    MaxNext(cs, 1, 1);
    MaxNext(cs, 2, 1);
    MaxNext(cs, 3, 1);
  }

  /** The scan over the neighbour counts of the path runs to the end and reports the three tied positions. */
  lemma UnstoppedScan(cs: seq<nat>)
    requires |cs| == 4 && cs[0] == 1 && cs[1] == 1 && cs[2] == 1 && cs[3] == 0
    ensures Cutoff(cs) == 4 && MaxOf(cs, Cutoff(cs)) == 1
    ensures forall j | 0 <= j < 4 :: j in MaxPositionsOf(cs, Cutoff(cs)) <==> j < 3
  {
    UnstoppedMaxima(cs);
    NeverStops(cs);
    UnstoppedPositions(cs);
  }

  /** No prefix stops a scan of four counts whose running maximum is 1. */
  lemma NeverStops(cs: seq<nat>)
    requires |cs| == 4 && MaxOf(cs, 1) == 1 && MaxOf(cs, 2) == 1 && MaxOf(cs, 3) == 1
    ensures Cutoff(cs) == 4
  {
    forall j | 1 <= j < 4 ensures !Stops(cs, j) {
      assert j == 1 || j == 2 || j == 3;
    }
    CutoffUnique(cs, 4);
  }

  /** The positions of the count 1 among the counts of the path are 0, 1 and 2. */
  lemma UnstoppedPositions(cs: seq<nat>)
    requires |cs| == 4 && cs[0] == 1 && cs[1] == 1 && cs[2] == 1 && cs[3] == 0
    ensures forall j | 0 <= j < 4 :: j in PositionsOf(cs, 4, 1) <==> j < 3
  {
    var ps := PositionsOf(cs, 4, 1);
    forall j | 0 <= j < 4 ensures j in ps <==> j < 3 {
      assert j == 0 || j == 1 || j == 2 || j == 3;
    }
  }
}
