/**
 Maxima of sequences of natural numbers and the positions that attain them,
 as the elimination scans and the greedy cover use them.
 */
module Maxima {

  /** The largest of the first `k` entries of `cs` (0 when `k` is 0). */
  function MaxOf(cs: seq<nat>, k: nat): (m: nat)
    requires k <= |cs|
    ensures forall j | 0 <= j < k :: cs[j] <= m
    ensures k > 0 ==> exists j | 0 <= j < k :: cs[j] == m
    ensures k == 0 ==> m == 0
    decreases k
  {
    if k == 0 then 0
    else if cs[k - 1] > MaxOf(cs, k - 1) then cs[k - 1]
    else MaxOf(cs, k - 1)
  }

  /** The positions before `k` whose entry is `c`, in increasing order. */
  function PositionsOf(cs: seq<nat>, k: nat, c: nat): (ps: seq<nat>)
    requires k <= |cs|
    ensures forall a, b | 0 <= a < b < |ps| :: ps[a] < ps[b]
    ensures forall a | 0 <= a < |ps| :: ps[a] < k && cs[ps[a]] == c
    ensures forall j | 0 <= j < k && cs[j] == c :: j in ps
    decreases k
  {
    if k == 0 then []
    else if cs[k - 1] == c then PositionsOf(cs, k - 1, c) + [k - 1]
    else PositionsOf(cs, k - 1, c)
  }

  lemma PositionsSkip(cs: seq<nat>, k: nat, c: nat)
    requires 1 <= k <= |cs| && cs[k - 1] != c
    ensures PositionsOf(cs, k, c) == PositionsOf(cs, k - 1, c)
  {
  }

  /** Every position before `k` whose entry is the maximum over those positions. */
  function MaxPositionsOf(cs: seq<nat>, k: nat): seq<nat>
    requires k <= |cs|
  {
    PositionsOf(cs, k, MaxOf(cs, k))
  }

  lemma MaxPositionsNonEmpty(cs: seq<nat>, k: nat)
    requires 1 <= k <= |cs|
    ensures |MaxPositionsOf(cs, k)| > 0
  {
    var j :| 0 <= j < k && cs[j] == MaxOf(cs, k);
    assert j in MaxPositionsOf(cs, k);
  }

  lemma {:induction false} PositionsAbove(cs: seq<nat>, k: nat, c: nat)
    requires k <= |cs| && c > MaxOf(cs, k)
    ensures PositionsOf(cs, k, c) == []
    decreases k
  {
    if k > 0 {
      PositionsAbove(cs, k - 1, c);
    }
  }

  /** How one more entry updates the maximum and its positions: a tie appends, a new maximum restarts. */
  lemma MaxStep(cs: seq<nat>, i: nat)
    requires i < |cs|
    ensures cs[i] == MaxOf(cs, i) ==>
              MaxOf(cs, i + 1) == MaxOf(cs, i) && MaxPositionsOf(cs, i + 1) == MaxPositionsOf(cs, i) + [i]
    ensures cs[i] > MaxOf(cs, i) ==> MaxOf(cs, i + 1) == cs[i] && MaxPositionsOf(cs, i + 1) == [i]
    ensures cs[i] < MaxOf(cs, i) ==>
              MaxOf(cs, i + 1) == MaxOf(cs, i) && MaxPositionsOf(cs, i + 1) == MaxPositionsOf(cs, i)
  {
    var m := MaxOf(cs, i);
    if cs[i] > m {
      PositionsAbove(cs, i, cs[i]);
    } else if cs[i] < m {
      PositionsSkip(cs, i + 1, m);
    }
  }

  /** One more entry: the running maximum moves up to it or stays. */
  lemma MaxNext(cs: seq<nat>, i: nat, m: nat)
    requires i < |cs| && m == MaxOf(cs, i)
    ensures MaxOf(cs, i + 1) == if cs[i] > m then cs[i] else m
  {
  }

  /** Entrywise within `c` of another sequence, the maximum is within `c` of the other maximum. */
  lemma MaxWithin(cs: seq<nat>, ds: seq<nat>, k: nat, c: nat)
    requires k <= |cs| && k <= |ds|
    requires forall i | 0 <= i < k :: cs[i] <= ds[i] + c
    ensures MaxOf(cs, k) <= MaxOf(ds, k) + c
  {
    if k > 0 {
      var j :| 0 <= j < k && cs[j] == MaxOf(cs, k);
      assert ds[j] <= MaxOf(ds, k);
    }
  }

  /** Entrywise positive and at most one above `ds`: so is the maximum. */
  lemma MaxBetween(cs: seq<nat>, ds: seq<nat>, k: nat)
    requires 0 < k <= |cs| && k <= |ds|
    requires forall i | 0 <= i < k :: 1 <= cs[i] <= ds[i] + 1
    ensures 1 <= MaxOf(cs, k) <= MaxOf(ds, k) + 1
  {
    assert cs[0] <= MaxOf(cs, k);
    MaxWithin(cs, ds, k, 1);
  }

  /** An entry no smaller than any other is the maximum. */
  lemma MaxAt(cs: seq<nat>, i: nat)
    requires i < |cs| && forall j | 0 <= j < |cs| :: cs[j] <= cs[i]
    ensures MaxOf(cs, |cs|) == cs[i]
  {
  }
}
