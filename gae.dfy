/**
  Generalized Advantage Estimation (Schulman et al. 2015) as `PGAgent`
  computes it: one backward pass over the whole concatenated batch that
  restarts at every terminal flag.
*/
module Gae {
  import opened Segments
  import opened Outcome
  import Discount

  /** Parallel flat arrays of one batch: rewards, critic values and flags. */
  predicate Aligned(r: seq<real>, v: seq<real>, t: seq<int>)
  {
    |r| == |t| && |v| == |t|
  }

  /** The advantage the backward loop stores at index `i`: at a terminal
      the one-step residual `r[i] - v[i]`; elsewhere the residual with the next
      value plus `gamma * lambda` times the next advantage. */
  function AdvantageAt(g: real, lam: real, r: seq<real>, v: seq<real>, t: seq<int>, i: nat): real
    requires Aligned(r, v, t) && EndsInTerminal(t) && i < |t|
    decreases |t| - i
  {
    if t[i] == TERMINAL then r[i] - v[i]
    else r[i] + g * v[i + 1] - v[i] + g * lam * AdvantageAt(g, lam, r, v, t, i + 1)
  }

  /** The whole advantage array, one entry per timestep of the batch. */
  function Advantages(g: real, lam: real, r: seq<real>, v: seq<real>, t: seq<int>): seq<real>
    requires Aligned(r, v, t) && EndsInTerminal(t)
  {
    seq(|t|, i requires 0 <= i < |t| => AdvantageAt(g, lam, r, v, t, i))
  }

  /** The one-step temporal-difference residual at `i`; the lookahead value is
      dropped at a terminal. */
  function TdResidual(g: real, r: seq<real>, v: seq<real>, t: seq<int>, i: nat): real
    requires Aligned(r, v, t) && EndsInTerminal(t) && i < |t|
  {
    if t[i] == TERMINAL then r[i] - v[i] else r[i] + g * v[i + 1] - v[i]
  }

  /** The GAE loop of `_estimate_advantage`: a zero array one slot longer than
      the batch is filled from the back, then the extra slot is dropped. When
      the last flag is not terminal the first step reads `values[N]`, past the
      end of the batch, and the loop fails. */
  method EstimateGae(g: real, lam: real, rewards: seq<real>, values: seq<real>, terminals: seq<int>)
    returns (res: Result<seq<real>>)
    requires Aligned(rewards, values, terminals)
    ensures res.Err? <==> !EndsInTerminal(terminals)
    ensures res.Err? ==> res.error == LookaheadOutOfRange
    ensures res.Ok? ==> |res.value| == |terminals|
    ensures res.Ok? ==> forall i :: 0 <= i < |terminals| && terminals[i] == TERMINAL ==>
              res.value[i] == rewards[i] - values[i]
    ensures res.Ok? ==> forall i {:trigger terminals[i]} :: 0 <= i < |terminals| && terminals[i] != TERMINAL ==>
              i + 1 < |terminals| &&
              res.value[i] == rewards[i] + g * values[i + 1] - values[i] + g * lam * res.value[i + 1]
    ensures res.Ok? ==> res.value == Advantages(g, lam, rewards, values, terminals)
  {
    var n := |terminals|;
    var advantages := new real[n + 1](_ => 0.0);
    var i := n;
    while i > 0
      invariant 0 <= i <= n
      invariant i < n ==> EndsInTerminal(terminals)
      invariant i < n ==> forall k :: i <= k < n ==>
                  advantages[k] == AdvantageAt(g, lam, rewards, values, terminals, k)
    {
      i := i - 1;
      var delta: real;
      if terminals[i] == TERMINAL {
        delta := rewards[i] - values[i];
        advantages[i] := delta;
      } else {
        if i + 1 >= |values| {
          return Err(LookaheadOutOfRange);
        }
        delta := rewards[i] + g * values[i + 1] - values[i];
        advantages[i] := delta + g * lam * advantages[i + 1];
      }
    }
    var out := advantages[..n];
    assert out == Advantages(g, lam, rewards, values, terminals);
    AdvantagesRecurrence(g, lam, rewards, values, terminals);
    res := Ok(out);
  }

  /** The advantage array has one entry per timestep and satisfies the
      backward recurrence of the loop entry by entry. */
  lemma AdvantagesRecurrence(g: real, lam: real, r: seq<real>, v: seq<real>, t: seq<int>)
    requires Aligned(r, v, t) && EndsInTerminal(t)
    ensures |Advantages(g, lam, r, v, t)| == |t|
    ensures forall i :: 0 <= i < |t| && t[i] == TERMINAL ==> Advantages(g, lam, r, v, t)[i] == r[i] - v[i]
    ensures forall i {:trigger t[i]} :: 0 <= i < |t| && t[i] != TERMINAL ==>
              i + 1 < |t| &&
              Advantages(g, lam, r, v, t)[i]
              == r[i] + g * v[i + 1] - v[i] + g * lam * Advantages(g, lam, r, v, t)[i + 1]
  {
  }

  /** Timesteps before an index never influence its advantage: prefixing the
      batch with any other data leaves every later advantage as it was. */
  lemma {:induction false} DropPrefix(g: real, lam: real, pr: seq<real>, pv: seq<real>, pt: seq<int>,
                                      r: seq<real>, v: seq<real>, t: seq<int>, i: nat)
    requires |pr| == |pt| && |pv| == |pt|
    requires Aligned(r, v, t) && EndsInTerminal(t) && i < |t|
    ensures Aligned(pr + r, pv + v, pt + t) && EndsInTerminal(pt + t)
    ensures AdvantageAt(g, lam, pr + r, pv + v, pt + t, |pt| + i) == AdvantageAt(g, lam, r, v, t, i)
    decreases |t| - i
  {
    var j := |pt| + i;
    assert (pt + t)[j] == t[i] && (pr + r)[j] == r[i] && (pv + v)[j] == v[i];
    if t[i] != TERMINAL {
      assert (pv + v)[j + 1] == v[i + 1];
      DropPrefix(g, lam, pr, pv, pt, r, v, t, i + 1);
    }
  }

  /** Timesteps after a terminal never influence advantages before it:
      appending any batch behind one that ends in a terminal flag leaves the
      advantages of the first part as they were. */
  lemma {:induction false} DropSuffix(g: real, lam: real, r: seq<real>, v: seq<real>, t: seq<int>,
                                      sr: seq<real>, sv: seq<real>, st: seq<int>, i: nat)
    requires Aligned(r, v, t) && EndsInTerminal(t) && i < |t|
    requires Aligned(sr, sv, st) && EndsInTerminal(st)
    ensures Aligned(r + sr, v + sv, t + st) && EndsInTerminal(t + st)
    ensures AdvantageAt(g, lam, r + sr, v + sv, t + st, i) == AdvantageAt(g, lam, r, v, t, i)
    decreases |t| - i
  {
    assert (t + st)[i] == t[i] && (r + sr)[i] == r[i] && (v + sv)[i] == v[i];
    if t[i] != TERMINAL {
      assert (v + sv)[i + 1] == v[i + 1];
      DropSuffix(g, lam, r, v, t, sr, sv, st, i + 1);
    }
  }

  /** Boundary isolation: the advantage at `i` depends only on the rewards,
      values and flags from `i` to the first terminal `k` at or after it. Two
      batches that agree there give the same advantage at `i`, whatever the
      other trajectories of either batch hold. */
  lemma {:induction false} BoundaryIsolation(g: real, lam: real, r: seq<real>, v: seq<real>, t: seq<int>,
                                             r2: seq<real>, v2: seq<real>, t2: seq<int>, i: nat)
    requires Aligned(r, v, t) && EndsInTerminal(t) && i < |t|
    requires Aligned(r2, v2, t2) && EndsInTerminal(t2)
    requires FirstTerminalFrom(t, i) < |t2|
    requires forall j :: i <= j <= FirstTerminalFrom(t, i) ==>
               r[j] == r2[j] && v[j] == v2[j] && t[j] == t2[j]
    ensures AdvantageAt(g, lam, r, v, t, i) == AdvantageAt(g, lam, r2, v2, t2, i)
    decreases |t| - i
  {
    var k := FirstTerminalFrom(t, i);
    if t[i] != TERMINAL {
      assert FirstTerminalFrom(t, i + 1) == k;
      BoundaryIsolation(g, lam, r, v, t, r2, v2, t2, i + 1);
    }
  }

  /** GAE over two batches laid end to end is the two GAE results laid end to
      end, as long as the first one closes its last trajectory. */
  lemma Concatenation(g: real, lam: real, r1: seq<real>, v1: seq<real>, t1: seq<int>,
                      r2: seq<real>, v2: seq<real>, t2: seq<int>)
    requires Aligned(r1, v1, t1) && EndsInTerminal(t1)
    requires Aligned(r2, v2, t2) && EndsInTerminal(t2)
    ensures Aligned(r1 + r2, v1 + v2, t1 + t2) && EndsInTerminal(t1 + t2)
    ensures Advantages(g, lam, r1 + r2, v1 + v2, t1 + t2)
            == Advantages(g, lam, r1, v1, t1) + Advantages(g, lam, r2, v2, t2)
  {
    var whole := Advantages(g, lam, r1 + r2, v1 + v2, t1 + t2);
    var parts := Advantages(g, lam, r1, v1, t1) + Advantages(g, lam, r2, v2, t2);
    forall i | 0 <= i < |t1| + |t2|
      ensures whole[i] == parts[i]
    {
      if i < |t1| {
        DropSuffix(g, lam, r1, v1, t1, r2, v2, t2, i);
      } else {
        DropPrefix(g, lam, r1, v1, t1, r2, v2, t2, i - |t1|);
      }
    }
  }

  /** With `lambda = 0` every advantage is the one-step TD residual. */
  lemma LambdaZeroIsTdResidual(g: real, r: seq<real>, v: seq<real>, t: seq<int>)
    requires Aligned(r, v, t) && EndsInTerminal(t)
    ensures forall i :: 0 <= i < |t| ==>
              Advantages(g, 0.0, r, v, t)[i] == TdResidual(g, r, v, t, i)
  {
  }

  /** With `lambda = 1` the residuals telescope: the advantage at `i` is the
      discounted reward-to-go from `i` to the end of its segment minus `v[i]`. */
  lemma {:induction false} LambdaOneTelescopes(g: real, r: seq<real>, v: seq<real>, t: seq<int>, i: nat)
    requires Aligned(r, v, t) && EndsInTerminal(t) && i < |t|
    ensures FirstTerminalFrom(t, i) < |t|
    ensures AdvantageAt(g, 1.0, r, v, t, i)
            == Discount.Horner(g, r[i..FirstTerminalFrom(t, i) + 1]) - v[i]
    decreases |t| - i
  {
    var k := FirstTerminalFrom(t, i);
    var w := r[i..k + 1];
    if t[i] == TERMINAL {
      assert w[1..] == [];
      assert Discount.Horner(g, w) == w[0] + g * Discount.Horner(g, w[1..]);
    } else {
      LambdaOneTelescopes(g, r, v, t, i + 1);
      assert FirstTerminalFrom(t, i + 1) == k;
      assert w[1..] == r[i + 1..k + 1];
      var h := Discount.Horner(g, w[1..]);
      assert AdvantageAt(g, 1.0, r, v, t, i + 1) == h - v[i + 1];
      assert Discount.Horner(g, w) == r[i] + g * h;
      calc {
        AdvantageAt(g, 1.0, r, v, t, i);
        r[i] + g * v[i + 1] - v[i] + g * 1.0 * (h - v[i + 1]);
        r[i] + g * h - v[i];
      }
    }
  }
}
