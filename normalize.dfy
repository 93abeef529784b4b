/**
  The advantage post-processing step of `_estimate_advantage`. Its comment
  asks for mean/standard-deviation normalisation, but what the loop does is
  divide each terminal-delimited segment of the batch by that segment's
  length; this module models that loop.
*/
module Normalize {
  import opened Segments
  import Discount

  /** Number of timesteps in the segment holding `j` that ends at a terminal. */
  function SegmentLength(t: seq<int>, j: nat): (n: nat)
    requires j < |t|
    ensures n >= 1
  {
    FirstTerminalFrom(t, j) - SegmentStart(t, j) + 1
  }

  /** Reference result, entry by entry: an entry of a segment that is closed
      by a terminal is divided by that segment's length; an entry after the
      last terminal is left as it is. */
  function Normalized(a: seq<real>, t: seq<int>): (out: seq<real>)
    requires |a| == |t|
    ensures |out| == |a|
  {
    seq(|a|, j requires 0 <= j < |a| =>
      if FirstTerminalFrom(t, j) < |t| then a[j] / (SegmentLength(t, j) as real) else a[j])
  }

  /** The loop over `terminals`: `ind` counts the timesteps of the current
      segment and `adv_ind` is where it starts; at each terminal the slice
      `advantages[adv_ind:adv_ind+ind]` is divided by `ind` in place. */
  method NormalizeBySegmentLength(advantages: array<real>, terminals: seq<int>)
    requires advantages.Length == |terminals|
    modifies advantages
    ensures advantages[..] == Normalized(old(advantages[..]), terminals)
  {
    ghost var a0 := advantages[..];
    var n := |terminals|;
    var ind := 1;
    var advInd := 0;
    var p := 0;
    while p < n
      invariant 0 <= advInd <= p <= n
      invariant ind == p - advInd + 1
      invariant advInd == 0 || terminals[advInd - 1] == TERMINAL
      invariant forall m :: advInd <= m < p ==> terminals[m] != TERMINAL
      invariant forall j :: 0 <= j < advInd ==> advantages[j] == Normalized(a0, terminals)[j]
      invariant forall j :: advInd <= j < n ==> advantages[j] == a0[j]
    {
      if terminals[p] == TERMINAL {
        forall j | advInd <= j < advInd + ind {
          advantages[j] := advantages[j] / (ind as real);
        }
        forall j | advInd <= j <= p
          ensures FirstTerminalFrom(terminals, j) == p && SegmentStart(terminals, j) == advInd
        {
          FirstTerminalIs(terminals, j, p);
          SegmentStartIs(terminals, advInd, j);
        }
        advInd := advInd + ind;
        ind := 1;
      } else {
        ind := ind + 1;
      }
      p := p + 1;
    }
    forall j | advInd <= j < n
      ensures FirstTerminalFrom(terminals, j) == n
    {
      FirstTerminalIs(terminals, j, n);
    }
  }

  /** The division leaves the length alone, leaves a one-step segment (a
      terminal right after a terminal, or at index 0) unchanged, leaves every
      entry after the last terminal unchanged, and divides every other entry by
      the length of its segment. */
  lemma NormalizedEntries(a: seq<real>, t: seq<int>, j: nat)
    requires |a| == |t| && j < |t|
    ensures |Normalized(a, t)| == |a|
    ensures t[j] == TERMINAL && (j == 0 || t[j - 1] == TERMINAL) ==> Normalized(a, t)[j] == a[j]
    ensures (forall m :: j <= m < |t| ==> t[m] != TERMINAL) ==> Normalized(a, t)[j] == a[j]
  {
    if t[j] == TERMINAL && (j == 0 || t[j - 1] == TERMINAL) {
      FirstTerminalIs(t, j, j);
      SegmentStartIs(t, j, j);
    }
    if forall m :: j <= m < |t| ==> t[m] != TERMINAL {
      FirstTerminalIs(t, j, |t|);
    }
  }

  /** Inside a segment `s..k` closed by a terminal at `k`, every entry is
      divided by the segment length `k - s + 1`. */
  lemma NormalizedSegment(a: seq<real>, t: seq<int>, s: nat, k: nat, j: nat)
    requires |a| == |t| && s <= j <= k < |t|
    requires s == 0 || t[s - 1] == TERMINAL
    requires t[k] == TERMINAL && forall m :: s <= m < k ==> t[m] != TERMINAL
    ensures Normalized(a, t)[j] == a[j] / ((k - s + 1) as real)
  {
    FirstTerminalIs(t, j, k);
    SegmentStartIs(t, s, j);
  }

  /** Sum of `y` when every entry is the matching entry of `x` divided by `c`. */
  lemma {:induction false} SumDivided(x: seq<real>, y: seq<real>, c: real)
    requires c != 0.0 && |x| == |y|
    requires forall i :: 0 <= i < |x| ==> y[i] == x[i] / c
    ensures Discount.Sum(y) == Discount.Sum(x) / c
  {
    if x != [] {
      SumDivided(x[1..], y[1..], c);
      assert Discount.Sum(y) == x[0] / c + Discount.Sum(x[1..]) / c;
    }
  }

  /** After the division, the entries of a closed segment sum to the mean of
      its original entries. */
  lemma NormalizedSegmentSumsToMean(a: seq<real>, t: seq<int>, s: nat, k: nat)
    requires |a| == |t| && s <= k < |t|
    requires s == 0 || t[s - 1] == TERMINAL
    requires t[k] == TERMINAL && forall m :: s <= m < k ==> t[m] != TERMINAL
    ensures Discount.Sum(Normalized(a, t)[s..k + 1]) == Discount.Sum(a[s..k + 1]) / ((k - s + 1) as real)
  {
    var c := (k - s + 1) as real;
    var x, y := a[s..k + 1], Normalized(a, t)[s..k + 1];
    forall i | 0 <= i < |x|
      ensures y[i] == x[i] / c
    {
      NormalizedSegment(a, t, s, k, s + i);
    }
    SumDivided(x, y, c);
  }
}
