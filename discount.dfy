/**
  Monte-Carlo return estimates for one trajectory, over exact reals: the two
  helpers PGAgent uses to turn a reward list into per-timestep Q targets
  (`_discounted_return` and `_discounted_reward_to_go`).
*/
module Discount {

  /** `gamma ** i` for a natural exponent. */
  function Pow(g: real, i: nat): real
  {
    if i == 0 then 1.0 else g * Pow(g, i - 1)
  }

  /** Python's `sum` over a list of reals. */
  function Sum(s: seq<real>): real
  {
    if s == [] then 0.0 else s[0] + Sum(s[1..])
  }

  /** The list `_discounted_return` builds first: entry i is g^i * r[i]. */
  function DiscountedTerms(g: real, r: seq<real>): seq<real>
  {
    seq(|r|, i requires 0 <= i < |r| => Pow(g, i) * r[i])
  }

  /** Total discounted return of a trajectory: the sum of g^i * r[i] over all i. */
  function DiscountedReturnValue(g: real, r: seq<real>): real
  {
    Sum(DiscountedTerms(g, r))
  }

  /** The discounted sum in nested form r[0] + g * (r[1] + g * (...)): the value
      the reward-to-go accumulator holds after reading `r` from its back end. */
  function Horner(g: real, r: seq<real>): real
  {
    if r == [] then 0.0 else r[0] + g * Horner(g, r[1..])
  }

  /** Reference reward-to-go: entry t is the discounted sum of the rewards from t on. */
  function RewardToGo(g: real, r: seq<real>): seq<real>
  {
    seq(|r|, t requires 0 <= t < |r| => Horner(g, r[t..]))
  }

  /** A reward list holding `c` at each of `n` steps. */
  function Constant(c: real, n: nat): seq<real>
  {
    seq(n, _ => c)
  }

  /** Terms g^(p+i) * r[i]: the discounted terms of a suffix that starts at offset p. */
  function PoweredFrom(g: real, r: seq<real>, p: nat): seq<real>
  {
    seq(|r|, i requires 0 <= i < |r| => Pow(g, p + i) * r[i])
  }

  /** The reward-to-go list has the input's length, ends in the last reward and
      satisfies the backward recursion out[i] = r[i] + g * out[i+1]; a
      one-step trajectory gets its own reward back. */
  lemma RewardToGoRecurrence(g: real, r: seq<real>)
    ensures |RewardToGo(g, r)| == |r|
    ensures |r| > 0 ==> RewardToGo(g, r)[|r| - 1] == r[|r| - 1]
    ensures forall i :: 0 <= i < |r| - 1 ==> RewardToGo(g, r)[i] == r[i] + g * RewardToGo(g, r)[i + 1]
    ensures |r| == 1 ==> RewardToGo(g, r) == r
  {
    if |r| > 0 {
      var last := r[|r| - 1..];
      assert last[1..] == [];
      assert Horner(g, last) == last[0] + g * Horner(g, last[1..]);
    }
    forall i | 0 <= i < |r| - 1
      ensures RewardToGo(g, r)[i] == r[i] + g * RewardToGo(g, r)[i + 1]
    {
      assert r[i..][1..] == r[i + 1..];
    }
  }

  /** The offset terms of a non-empty list: g^p * r[0], then the offset terms
      of its tail, one power further on. */
  lemma PoweredFromTail(g: real, r: seq<real>, p: nat)
    requires r != []
    ensures PoweredFrom(g, r, p)[0] == Pow(g, p) * r[0]
    ensures PoweredFrom(g, r, p)[1..] == PoweredFrom(g, r[1..], p + 1)
  {
    var s := PoweredFrom(g, r, p);
    forall i | 0 <= i < |r| - 1
      ensures s[1..][i] == PoweredFrom(g, r[1..], p + 1)[i]
    {
      assert p + (i + 1) == (p + 1) + i;
    }
  }

  /** Factoring `q` out of `q * a + (g * q) * h`. */
  lemma FactorOut(q: real, g: real, a: real, h: real)
    ensures q * a + (g * q) * h == q * (a + g * h)
  {
  }

  /** Summing the offset terms gives g^p times the nested discounted sum. */
  lemma {:induction false} SumPoweredFrom(g: real, r: seq<real>, p: nat)
    ensures Sum(PoweredFrom(g, r, p)) == Pow(g, p) * Horner(g, r)
    decreases |r|
  {
    if r != [] {
      var s := PoweredFrom(g, r, p);
      var q, h := Pow(g, p), Horner(g, r[1..]);
      PoweredFromTail(g, r, p);
      SumPoweredFrom(g, r[1..], p + 1);
      assert Pow(g, p + 1) == g * q;
      calc {
        Sum(s);
        s[0] + Sum(s[1..]);
        q * r[0] + (g * q) * h;
        { FactorOut(q, g, r[0], h); }
        q * (r[0] + g * h);
        q * Horner(g, r);
      }
    }
  }

  /** The power-weighted sum equals the nested (backward) form. */
  lemma DiscountedReturnIsHorner(g: real, r: seq<real>)
    ensures DiscountedReturnValue(g, r) == Horner(g, r)
  {
    assert DiscountedTerms(g, r) == PoweredFrom(g, r, 0);
    SumPoweredFrom(g, r, 0);
  }

  /** The total discounted return is the reward-to-go at the first timestep. */
  lemma ReturnIsRewardToGoAtStart(g: real, r: seq<real>)
    requires |r| > 0
    ensures DiscountedReturnValue(g, r) == RewardToGo(g, r)[0]
  {
    DiscountedReturnIsHorner(g, r);
    assert r[0..] == r;
  }

  /** Geometric series for a constant reward c over n steps, without division. */
  lemma {:induction false} ConstantRewardHorner(g: real, c: real, n: nat)
    ensures (1.0 - g) * Horner(g, Constant(c, n)) == c * (1.0 - Pow(g, n))
  {
    if n > 0 {
      var s := Constant(c, n);
      assert s[1..] == Constant(c, n - 1);
      ConstantRewardHorner(g, c, n - 1);
      var h := Horner(g, Constant(c, n - 1));
      var q := Pow(g, n - 1);
      assert Horner(g, s) == c + g * h;
      assert Pow(g, n) == g * q;
      calc {
        (1.0 - g) * (c + g * h);
        (1.0 - g) * c + g * ((1.0 - g) * h);
        (1.0 - g) * c + g * (c * (1.0 - q));
        c * (1.0 - g * q);
      }
    }
  }

  /** A constant reward c over n steps has total discounted return
      c * (1 - g^n) / (1 - g) when g is not 1; stated multiplied out, so that
      it also covers g = 1, where both sides are 0. */
  lemma ConstantRewardReturn(g: real, c: real, n: nat)
    ensures (1.0 - g) * DiscountedReturnValue(g, Constant(c, n)) == c * (1.0 - Pow(g, n))
  {
    DiscountedReturnIsHorner(g, Constant(c, n));
    ConstantRewardHorner(g, c, n);
  }

  /** `_discounted_return`: first collects g^i * r[i], sums it, then repeats the
      sum once per timestep. */
  method DiscountedReturn(g: real, rewards: seq<real>) returns (out: seq<real>)
    ensures |out| == |rewards|
    ensures forall t :: 0 <= t < |out| ==> out[t] == DiscountedReturnValue(g, rewards)
  {
    var discountRewards: seq<real> := [];
    var i := 0;
    while i < |rewards|
      invariant 0 <= i <= |rewards|
      invariant discountRewards == DiscountedTerms(g, rewards[..i])
    {
      ghost var prev := discountRewards;
      discountRewards := discountRewards + [Pow(g, i) * rewards[i]];
      forall k | 0 <= k < i + 1
        ensures discountRewards[k] == DiscountedTerms(g, rewards[..i + 1])[k]
      {
        if k < i {
          assert discountRewards[k] == prev[k];
        }
      }
      i := i + 1;
    }
    assert rewards[..i] == rewards;
    var total := Sum(discountRewards);
    out := [];
    i := 0;
    while i < |rewards|
      invariant 0 <= i <= |rewards|
      invariant |out| == i
      invariant forall t :: 0 <= t < i ==> out[t] == total
    {
      out := out + [total];
      i := i + 1;
    }
  }

  /** `_discounted_reward_to_go`: a zero list filled from the back with the
      running value `cumulative := r[i] + g * cumulative`, seeded at 0. */
  method DiscountedRewardToGo(g: real, rewards: seq<real>) returns (out: seq<real>)
    ensures out == RewardToGo(g, rewards)
  {
    var n := |rewards|;
    var toGo := new real[n](_ => 0.0);
    var cumulative := 0.0;
    var i := n;
    while i > 0
      invariant 0 <= i <= n
      invariant cumulative == Horner(g, rewards[i..])
      invariant toGo[i..] == RewardToGo(g, rewards)[i..]
    {
      i := i - 1;
      assert rewards[i..][1..] == rewards[i + 1..];
      cumulative := rewards[i] + g * cumulative;
      toGo[i] := cumulative;
    }
    out := toGo[..];
  }
}
