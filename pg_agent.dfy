/**
  `PGAgent`: from a batch of sampled trajectories to the per-timestep
  advantages that weight the policy-gradient step. The actor and the critic
  are networks outside this model; the critic only contributes its values on
  the flattened observations, passed in as `values`.
*/
module PgAgent {
  import opened Outcome
  import opened Segments
  import Discount
  import Batching
  import Gae
  import Normalize

  datatype Option<T> = None | Some(value: T)

  /** Whether a critic is present and, if so, whether GAE is used with it.
      Without a critic `gae_lambda` is never read, so it only exists here. */
  datatype Baseline = NoBaseline | Critic(gaeLambda: Option<real>)

  /** The settings `update` reads. */
  datatype Agent = Agent(gamma: real, useRewardToGo: bool, baseline: Baseline, normalizeAdvantages: bool)

  /** Q targets of one trajectory: the reward-to-go, or the total discounted
      return repeated once per timestep. */
  function TrajectoryQValues(gamma: real, useRewardToGo: bool, rewards: seq<real>): seq<real>
  {
    if useRewardToGo then Discount.RewardToGo(gamma, rewards)
    else Discount.Constant(Discount.DiscountedReturnValue(gamma, rewards), |rewards|)
  }

  /** Q targets of every trajectory, in order (the corrected reading of
      `_calculate_q_vals`; see `QValuesModeAAsWritten`). */
  function QValues(gamma: real, useRewardToGo: bool, rewards: seq<seq<real>>): (q: seq<seq<real>>)
    ensures |q| == |rewards|
    ensures forall k :: 0 <= k < |q| ==> |q[k]| == |rewards[k]|
  {
    seq(|rewards|, k requires 0 <= k < |rewards| => TrajectoryQValues(gamma, useRewardToGo, rewards[k]))
  }

  /** `_calculate_q_vals`: one helper call per trajectory, appended in order.
      In the total-return mode the helper's list is appended as it is. */
  method CalculateQVals(agent: Agent, rewards: seq<seq<real>>) returns (qValues: seq<seq<real>>)
    ensures qValues == QValues(agent.gamma, agent.useRewardToGo, rewards)
  {
    qValues := [];
    var k := 0;
    while k < |rewards|
      invariant 0 <= k <= |rewards|
      invariant qValues == QValues(agent.gamma, agent.useRewardToGo, rewards[..k])
    {
      var q: seq<real>;
      if !agent.useRewardToGo {
        q := Discount.DiscountedReturn(agent.gamma, rewards[k]);
        assert q == Discount.Constant(Discount.DiscountedReturnValue(agent.gamma, rewards[k]), |rewards[k]|);
      } else {
        q := Discount.DiscountedRewardToGo(agent.gamma, rewards[k]);
      }
      qValues := qValues + [q];
      assert rewards[..k + 1][k] == rewards[k];
      k := k + 1;
    }
    assert rewards[..k] == rewards;
  }

  /** The total-return branch as written: `_discounted_return` already repeats
      the return once per timestep, and line 102 wraps that list once more
      (`[total_discounted_return] * len(reward)`), so each timestep receives a
      whole list of length T instead of one number. */
  function QValuesModeAAsWritten(gamma: real, rewards: seq<seq<real>>): (w: seq<seq<seq<real>>>)
    ensures |w| == |rewards|
    ensures forall k :: 0 <= k < |w| ==> |w[k]| == |rewards[k]|
    ensures forall k, t :: 0 <= k < |w| && 0 <= t < |w[k]| ==>
              w[k][t] == QValues(gamma, false, rewards)[k]
  {
    seq(|rewards|, k requires 0 <= k < |rewards| =>
      var perStep := Discount.Constant(Discount.DiscountedReturnValue(gamma, rewards[k]), |rewards[k]|);
      seq(|rewards[k]|, _ => perStep))
  }

  /** Rewards `[[1, 1]]` with discount 0.9: as written, the trajectory's Q
      targets form a 2 x 2 nesting, while the intended targets are `[1.9, 1.9]`. */
  lemma ModeANestsTrajectoryTargets()
    ensures QValuesModeAAsWritten(0.9, [[1.0, 1.0]]) == [[[1.9, 1.9], [1.9, 1.9]]]
    ensures QValues(0.9, false, [[1.0, 1.0]]) == [[1.9, 1.9]]
  {
    DiscountedReturnOfTwo(0.9, 1.0, 1.0);
    assert Discount.Constant(1.9, 2) == [1.9, 1.9];
    assert [[1.0, 1.0]][0] == [1.0, 1.0];
    assert TrajectoryQValues(0.9, false, [1.0, 1.0]) == [1.9, 1.9];
    assert QValues(0.9, false, [[1.0, 1.0]])[0] == [1.9, 1.9];
    var w := QValuesModeAAsWritten(0.9, [[1.0, 1.0]]);
    assert w[0] == [[1.9, 1.9], [1.9, 1.9]];
  }

  /** The discounted return of a two-step trajectory. */
  lemma DiscountedReturnOfTwo(g: real, r0: real, r1: real)
    ensures Discount.DiscountedReturnValue(g, [r0, r1]) == r0 + g * r1
  {
    Discount.DiscountedReturnIsHorner(g, [r0, r1]);
    assert [r0, r1][1..] == [r1];
    assert [r1][1..] == [];
    assert Discount.Horner(g, [r1]) == r1 + g * Discount.Horner(g, []);
    assert Discount.Horner(g, [r0, r1]) == r0 + g * Discount.Horner(g, [r1]);
  }

  /** `q_values - values`, elementwise. */
  function Subtract(q: seq<real>, v: seq<real>): (d: seq<real>)
    requires |v| == |q|
    ensures |d| == |q|
  {
    seq(|q|, i requires 0 <= i < |q| => q[i] - v[i])
  }

  /** The advantages of `_estimate_advantage` before the optional
      normalisation, in each of its three cases. */
  function RawAdvantages(agent: Agent, rewards: seq<real>, qValues: seq<real>, terminals: seq<int>,
                         values: seq<real>): (res: Result<seq<real>>)
    requires |rewards| == |terminals| && |qValues| == |terminals|
    ensures res.Ok? ==> |res.value| == |terminals|
  {
    match agent.baseline
    case NoBaseline => Ok(qValues)
    case Critic(lam) =>
      if |values| != |qValues| then Err(ValuesShapeMismatch)
      else match lam
        case None => Ok(Subtract(qValues, values))
        case Some(l) =>
          if EndsInTerminal(terminals) then Ok(Gae.Advantages(agent.gamma, l, rewards, values, terminals))
          else Err(LookaheadOutOfRange)
  }

  /** What `_estimate_advantage` returns for the flat arrays of one batch. */
  function Advantages(agent: Agent, rewards: seq<real>, qValues: seq<real>, terminals: seq<int>,
                      values: seq<real>): Result<seq<real>>
    requires |rewards| == |terminals| && |qValues| == |terminals|
  {
    match RawAdvantages(agent, rewards, qValues, terminals, values)
    case Ok(a) => if agent.normalizeAdvantages then Ok(Normalize.Normalized(a, terminals)) else Ok(a)
    case Err(e) => Err(e)
  }

  /** `_estimate_advantage`: copy the Q values (no critic), subtract the
      critic's values (no GAE), or run the GAE loop; then, if asked, divide
      each segment by its length in place. */
  method EstimateAdvantage(agent: Agent, rewards: seq<real>, qValues: seq<real>, terminals: seq<int>,
                           values: seq<real>) returns (res: Result<seq<real>>)
    requires |rewards| == |terminals| && |qValues| == |terminals|
    ensures res.Ok? ==> |res.value| == |qValues|
    ensures agent.baseline == NoBaseline && !agent.normalizeAdvantages ==> res == Ok(qValues)
    ensures agent.baseline.Critic? ==> (|values| != |qValues| ==> res == Err(ValuesShapeMismatch))
    ensures agent.baseline == Critic(None) && |values| == |qValues| && !agent.normalizeAdvantages ==>
              res.Ok? && forall i :: 0 <= i < |qValues| ==> res.value[i] == qValues[i] - values[i]
    ensures agent.baseline.Critic? && agent.baseline.gaeLambda.Some? && |values| == |qValues| ==>
              (res.Err? <==> !EndsInTerminal(terminals))
    ensures res == Advantages(agent, rewards, qValues, terminals, values)
  {
    var n := |qValues|;
    var advantages: array<real>;
    match agent.baseline {
      case NoBaseline =>
        advantages := new real[n](i requires 0 <= i < n => qValues[i]);
        assert advantages[..] == qValues;
      case Critic(lam) =>
        if |values| != n {
          return Err(ValuesShapeMismatch);
        }
        match lam {
          case None =>
            advantages := new real[n](i requires 0 <= i < n => qValues[i] - values[i]);
            assert advantages[..] == Subtract(qValues, values);
          case Some(l) =>
            var gae := Gae.EstimateGae(agent.gamma, l, rewards, values, terminals);
            if gae.Err? {
              return Err(gae.error);
            }
            var a := gae.value;
            advantages := new real[n](i requires 0 <= i < n => a[i]);
            assert advantages[..] == a;
        }
    }
    assert RawAdvantages(agent, rewards, qValues, terminals, values) == Ok(advantages[..]);
    if agent.normalizeAdvantages {
      Normalize.NormalizeBySegmentLength(advantages, terminals);
    }
    res := Ok(advantages[..]);
  }

  /** Per-trajectory arrays of equal leading length flatten to equal lengths. */
  lemma {:induction false} TotalLengthsAgree<S, T>(xss: seq<seq<S>>, yss: seq<seq<T>>)
    requires |xss| == |yss| && forall k :: 0 <= k < |xss| ==> |xss[k]| == |yss[k]|
    ensures Batching.TotalLength(xss) == Batching.TotalLength(yss)
  {
    if xss != [] {
      TotalLengthsAgree(xss[1..], yss[1..]);
    }
  }

  /** The shape `update` expects: one array per trajectory in each list, and
      for each trajectory the same number of observations, actions, rewards
      and flags. */
  predicate Consistent(obs: seq<seq<Batching.Vector>>, actions: seq<seq<Batching.Vector>>,
                       rewards: seq<seq<real>>, terminals: seq<seq<int>>)
  {
    |obs| == |rewards| && |actions| == |rewards| && |terminals| == |rewards| &&
    forall k :: 0 <= k < |rewards| ==>
      |obs[k]| == |rewards[k]| && |actions[k]| == |rewards[k]| && |terminals[k]| == |rewards[k]|
  }

  /** Steps 1 and 2 of `update`: Q values per trajectory, the five flat arrays,
      and the advantages the actor is then updated with. */
  method Update(agent: Agent, obs: seq<seq<Batching.Vector>>, actions: seq<seq<Batching.Vector>>,
                rewards: seq<seq<real>>, terminals: seq<seq<int>>, values: seq<real>)
    returns (batch: Batching.Batch, advantages: Result<seq<real>>)
    requires Consistent(obs, actions, rewards, terminals)
    ensures batch == Batching.FlattenBatch(obs, actions, rewards, terminals,
                                           QValues(agent.gamma, agent.useRewardToGo, rewards))
    ensures |batch.obs| == |batch.actions| == |batch.rewards| == |batch.terminals| == |batch.qValues|
            == Batching.TotalLength(rewards)
    ensures advantages == Advantages(agent, batch.rewards, batch.qValues, batch.terminals, values)
  {
    var qValues := CalculateQVals(agent, rewards);
    batch := Batching.FlattenBatch(obs, actions, rewards, terminals, qValues);
    Batching.FlattenLength(obs);
    Batching.FlattenLength(actions);
    Batching.FlattenLength(rewards);
    Batching.FlattenLength(terminals);
    Batching.FlattenLength(qValues);
    TotalLengthsAgree(obs, rewards);
    TotalLengthsAgree(actions, rewards);
    TotalLengthsAgree(terminals, rewards);
    TotalLengthsAgree(qValues, rewards);
    advantages := EstimateAdvantage(agent, batch.rewards, batch.qValues, batch.terminals, values);
  }

  /** Flags of a batch whose every trajectory ends in exactly one terminal. */
  predicate WellMarked(rewards: seq<seq<real>>, terminals: seq<seq<int>>)
  {
    |terminals| == |rewards| &&
    forall k :: 0 <= k < |rewards| ==> |terminals[k]| == |rewards[k]| && MarksOneTrajectory(terminals[k])
  }

  /** When every trajectory closes with a terminal flag, so does the flattened
      batch: the GAE loop never reads past its end. */
  lemma {:induction false} FlattenEndsInTerminal(terminals: seq<seq<int>>)
    requires forall k :: 0 <= k < |terminals| ==> MarksOneTrajectory(terminals[k])
    ensures EndsInTerminal(Batching.Flatten(terminals))
  {
    if terminals != [] {
      var rest := Batching.Flatten(terminals[1..]);
      FlattenEndsInTerminal(terminals[1..]);
      if rest == [] {
        assert Batching.Flatten(terminals) == terminals[0];
      } else {
        assert Batching.Flatten(terminals)[|terminals[0]| + |rest| - 1] == rest[|rest| - 1];
      }
    }
  }

  /** On a well-formed batch, with critic values for every timestep when a
      critic is used, `update` never fails and yields one advantage per
      timestep. */
  lemma WellFormedBatchSucceeds(agent: Agent, rewards: seq<seq<real>>, terminals: seq<seq<int>>,
                                values: seq<real>)
    requires WellMarked(rewards, terminals)
    requires agent.baseline.Critic? ==> |values| == Batching.TotalLength(rewards)
    ensures var q := Batching.Flatten(QValues(agent.gamma, agent.useRewardToGo, rewards));
            var r, t := Batching.Flatten(rewards), Batching.Flatten(terminals);
            |r| == |t| && |q| == |t| &&
            Advantages(agent, r, q, t, values).Ok? &&
            |Advantages(agent, r, q, t, values).value| == Batching.TotalLength(rewards)
  {
    FlatLengths(agent.gamma, agent.useRewardToGo, rewards, terminals);
  }

  /** Within one trajectory, GAE with `lambda = 1` gives the reward-to-go minus
      the critic's values, whatever those values are. */
  lemma LambdaOneOnTrajectory(g: real, r: seq<real>, v: seq<real>, t: seq<int>)
    requires Gae.Aligned(r, v, t) && MarksOneTrajectory(t)
    ensures Gae.Advantages(g, 1.0, r, v, t) == Subtract(Discount.RewardToGo(g, r), v)
  {
    forall j | 0 <= j < |t|
      ensures Gae.Advantages(g, 1.0, r, v, t)[j] == Subtract(Discount.RewardToGo(g, r), v)[j]
    {
      FirstTerminalIs(t, j, |t| - 1);
      Gae.LambdaOneTelescopes(g, r, v, t, j);
      assert r[j..|t|] == r[j..];
    }
  }

  /** GAE with `lambda = 1` over a whole well-formed batch equals the flattened
      reward-to-go Q values minus the critic's values, elementwise and exactly. */
  lemma {:induction false} LambdaOneIsRewardToGoMinusValues(g: real, rewards: seq<seq<real>>,
                                                           terminals: seq<seq<int>>, v: seq<real>)
    requires WellMarked(rewards, terminals)
    requires |v| == Batching.TotalLength(rewards)
    ensures var r, t := Batching.Flatten(rewards), Batching.Flatten(terminals);
            Gae.Aligned(r, v, t) && EndsInTerminal(t) &&
            |Batching.Flatten(QValues(g, true, rewards))| == |v| &&
            Gae.Advantages(g, 1.0, r, v, t) == Subtract(Batching.Flatten(QValues(g, true, rewards)), v)
    decreases |rewards|
  {
    FlatLengths(g, true, rewards, terminals);
    if rewards != [] {
      var q := QValues(g, true, rewards);
      var r0, t0 := rewards[0], terminals[0];
      var v0, vs := v[..|r0|], v[|r0|..];
      var rr, tr := Batching.Flatten(rewards[1..]), Batching.Flatten(terminals[1..]);
      var qr := Batching.Flatten(q[1..]);
      assert q[1..] == QValues(g, true, rewards[1..]);
      LambdaOneIsRewardToGoMinusValues(g, rewards[1..], terminals[1..], vs);
      LambdaOneOnTrajectory(g, r0, v0, t0);
      Gae.Concatenation(g, 1.0, r0, v0, t0, rr, vs, tr);
      assert v == v0 + vs;
      assert Subtract(q[0] + qr, v0 + vs) == Subtract(q[0], v0) + Subtract(qr, vs);
    }
  }

  /** The flat rewards, flags and Q targets of a well-formed batch all have
      one entry per timestep, and the flags end in a terminal. */
  lemma FlatLengths(g: real, useRewardToGo: bool, rewards: seq<seq<real>>, terminals: seq<seq<int>>)
    requires WellMarked(rewards, terminals)
    ensures |Batching.Flatten(rewards)| == Batching.TotalLength(rewards)
    ensures |Batching.Flatten(terminals)| == Batching.TotalLength(rewards)
    ensures |Batching.Flatten(QValues(g, useRewardToGo, rewards))| == Batching.TotalLength(rewards)
    ensures EndsInTerminal(Batching.Flatten(terminals))
  {
    var q := QValues(g, useRewardToGo, rewards);
    Batching.FlattenLength(rewards);
    Batching.FlattenLength(terminals);
    Batching.FlattenLength(q);
    TotalLengthsAgree(terminals, rewards);
    TotalLengthsAgree(q, rewards);
    FlattenEndsInTerminal(terminals);
  }

  /** On a well-formed batch with reward-to-go targets, the GAE case with
      `lambda = 1` and the plain-baseline case give the same advantages. */
  lemma LambdaOneMatchesPlainBaseline(agent: Agent, rewards: seq<seq<real>>, terminals: seq<seq<int>>,
                                      values: seq<real>)
    requires agent.useRewardToGo && agent.baseline == Critic(Some(1.0))
    requires WellMarked(rewards, terminals)
    requires |values| == Batching.TotalLength(rewards)
    ensures var q := Batching.Flatten(QValues(agent.gamma, true, rewards));
            var r, t := Batching.Flatten(rewards), Batching.Flatten(terminals);
            |r| == |t| && |q| == |t| &&
            Advantages(agent, r, q, t, values) == Advantages(agent.(baseline := Critic(None)), r, q, t, values)
  {
    WellFormedBatchSucceeds(agent, rewards, terminals, values);
    LambdaOneIsRewardToGoMinusValues(agent.gamma, rewards, terminals, values);
  }

  /** Trajectories with rewards `[1, 1]` and `[2]`, discount 0.9, reward-to-go
      targets and no critic: the advantages are exactly `[1.9, 1.0, 2.0]`. */
  lemma TwoTrajectoryExample()
    ensures var agent := Agent(0.9, true, NoBaseline, false);
            var rewards := [[1.0, 1.0], [2.0]];
            var q := Batching.Flatten(QValues(0.9, true, rewards));
            var r, t := Batching.Flatten(rewards), Batching.Flatten([[0, 1], [1]]);
            |r| == |t| && |q| == |t| &&
            Advantages(agent, r, q, t, []) == Ok([1.9, 1.0, 2.0])
  {
    var rewards: seq<seq<real>> := [[1.0, 1.0], [2.0]];
    var q := QValues(0.9, true, rewards);
    assert [1.0, 1.0][1..] == [1.0] && [1.0][1..] == [] && [2.0][1..] == [];
    assert Discount.Horner(0.9, [1.0]) == 1.0 + 0.9 * Discount.Horner(0.9, []);
    assert Discount.Horner(0.9, [1.0, 1.0]) == 1.0 + 0.9 * Discount.Horner(0.9, [1.0]);
    assert Discount.Horner(0.9, [2.0]) == 2.0 + 0.9 * Discount.Horner(0.9, []);
    assert rewards[0] == [1.0, 1.0] && rewards[1] == [2.0];
    assert q[0] == [1.9, 1.0] by {
      assert rewards[0][0..] == [1.0, 1.0] && rewards[0][1..] == [1.0];
    }
    assert q[1] == [2.0] by {
      assert rewards[1][0..] == [2.0];
    }
    assert |q[1..][1..]| == 0 && |rewards[1..][1..]| == 0;
    assert Batching.Flatten(q[1..]) == q[1..][0] + Batching.Flatten(q[1..][1..]);
    assert Batching.Flatten(q) == [1.9, 1.0, 2.0];
    assert Batching.Flatten(rewards) == [1.0, 1.0, 2.0];
    var tt: seq<seq<int>> := [[0, 1], [1]];
    assert |tt[1..][1..]| == 0;
    assert Batching.Flatten(tt) == [0, 1, 1];
  }
}
