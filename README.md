# Policy-gradient advantage computation (`PGAgent`), modelled in Dafny

`hw2/cs285/agents/pg_agent.py` defines `PGAgent`, which turns a batch of
sampled episodes into per-timestep weights for a policy-gradient step:

1. Monte-Carlo Q targets per trajectory, either the total discounted return
   repeated once per timestep or the discounted reward-to-go
   (`_calculate_q_vals`, `_discounted_return`, `_discounted_reward_to_go`);
2. flattening of the per-trajectory lists of obs, actions, rewards, terminal
   flags and Q targets into flat arrays (`update`, lines 70-74);
3. advantages (`_estimate_advantage`): the Q targets as they are without a
   critic, Q minus the critic's values without GAE, or Generalized Advantage
   Estimation, which is one backward pass over the whole batch restarting at
   each terminal flag;
4. optional post-processing that divides every terminal-delimited segment of
   the advantages by its length.

Floats are exact `real`s. Terminal flags are integers, and a flag ends a
trajectory exactly when it equals 1. The critic network only supplies the
vector of its values on the flattened observations. That vector is a
parameter named `values`.

Files:
- `discount.dfy` (module `Discount`): the two per-trajectory helpers as
  methods. They are proved against the reference functions `RewardToGo` and
  `DiscountedReturnValue`, and there are lemmas relating the two.
- `batching.dfy` (module `Batching`): flattening and where each element lands.
- `segments.dfy` (module `Segments`): terminal flags and the segments they
  delimit.
- `gae.dfy` (module `Gae`): the GAE loop as an array method, proved against
  the recursive `AdvantageAt`. Lemmas cover boundary isolation, concatenation,
  λ = 0 and λ = 1.
- `normalize.dfy` (module `Normalize`): the in-place per-segment division,
  proved against the entry-wise `Normalized`.
- `pg_agent.dfy` (module `PgAgent`): the settings, the Q-value loop, the three
  advantage cases, `update`'s computation, and the results that span all of
  these.
- `outcome.dfy` (module `Outcome`): the two ways the computation can fail.

The source and its own comments disagree in three places. In the first two the
model follows the code; in the third it follows the comment:
- The padding comment at line 140 suggests that the lookahead past the end of
  the batch reads a 0. The loop reads the unpadded `values` (line 152), and
  the padded `values_gae` (line 141) is never used. So when the last flag of
  the batch is not terminal, the first step of the loop reads past the end and
  fails. `Gae.EstimateGae` returns `Err(LookaheadOutOfRange)` exactly then.
- The comment at line 159 asks for normalisation to zero mean and unit
  standard deviation over the batch. The loop at lines 160-170 divides each
  segment closed by a terminal by that segment's length. Entries after the
  last terminal are left alone. `Normalize` models that loop.
- The doc comment of `_discounted_return` (lines 174-179) promises one number
  per timestep, and the helper returns that. Line 102 then wraps the
  helper's list once more, so in the total-return mode each timestep gets a
  list of T numbers (see "## Findings"). `PgAgent.QValuesModeAAsWritten`
  models line 102 as written. Everything downstream (`CalculateQVals`,
  `Update`, and the lemmas about whole batches) uses the corrected targets,
  one number per timestep.

## Model

| member | source | states |
|---|---|---|
| `Discount.DiscountedRewardToGo` | hw2/cs285/agents/pg_agent.py:190-197 | the backward loop `cumulative = r[i] + gamma * cumulative`, seeded at 0, fills its list with exactly the reference reward-to-go (entry t is the discounted sum of the rewards from t on) |
| `Discount.RewardToGoRecurrence` | hw2/cs285/agents/pg_agent.py:190-197 | the reward-to-go has the input's length; its last entry is the last reward; `out[i] = r[i] + gamma * out[i+1]` for every earlier i; a one-step trajectory gets its own reward back |
| `Discount.DiscountedReturn` | hw2/cs285/agents/pg_agent.py:173-188 | returns `len(rewards)` entries, each equal to the sum of `gamma^i * r[i]` over the whole trajectory |
| `Discount.SumPoweredFrom` | hw2/cs285/agents/pg_agent.py:181-184 | the sum of the terms `gamma^(p+i) * r[i]` is `gamma^p` times the nested sum `r[0] + gamma*(r[1] + ...)` |
| `Discount.DiscountedReturnIsHorner` | hw2/cs285/agents/pg_agent.py:181-184 | the power-weighted sum built by `_discounted_return` equals the nested form accumulated by `_discounted_reward_to_go` |
| `Discount.ReturnIsRewardToGoAtStart` | hw2/cs285/agents/pg_agent.py:173-197 | for a non-empty trajectory, the total discounted return equals the reward-to-go at its first timestep |
| `Discount.ConstantRewardHorner` | hw2/cs285/agents/pg_agent.py:181-184 | for constant reward c over n steps, `(1 - gamma)` times the return equals `c * (1 - gamma^n)` |
| `Discount.ConstantRewardReturn` | hw2/cs285/agents/pg_agent.py:181-184 | a constant reward c over n steps has return G with `(1 - gamma) * G == c * (1 - gamma^n)`, i.e. `c * (1 - gamma^n) / (1 - gamma)` for gamma other than 1 |
| `Batching.FlattenLength` | hw2/cs285/agents/pg_agent.py:70-74 | flattening yields as many entries as all trajectories together |
| `Batching.FlattenAt` | hw2/cs285/agents/pg_agent.py:70-74 | element j of trajectory k lands at position (sum of the lengths of trajectories before k) + j |
| `Batching.FlattenAppend` | hw2/cs285/agents/pg_agent.py:70-74 | flattening two lists of trajectories laid end to end gives the two flat arrays laid end to end |
| `Segments.FirstTerminalFrom` | hw2/cs285/agents/pg_agent.py:144-153 | the end of the segment holding i: a terminal index at or after i (or the batch size when there is none) with no terminal between |
| `Segments.SegmentStart` | hw2/cs285/agents/pg_agent.py:162-170 | the start of the segment holding j: 0 or just after a terminal, with no terminal between it and j |
| `Segments.FirstTerminalIs` | hw2/cs285/agents/pg_agent.py:144-153 | any terminal index (or the end) with no terminal in between is the segment end |
| `Segments.SegmentStartIs` | hw2/cs285/agents/pg_agent.py:162-170 | any index following a terminal (or 0) with no terminal in between is the segment start |
| `Gae.EstimateGae` | hw2/cs285/agents/pg_agent.py:136-157 | fails exactly when the last flag is not terminal (the read `values[i+1]` past the end); otherwise returns N entries; at a terminal index the entry is `r[i] - V[i]`, elsewhere `r[i] + gamma*V[i+1] - V[i] + gamma*lambda*A[i+1]`; the entries are the reference `AdvantageAt` |
| `Gae.AdvantagesRecurrence` | hw2/cs285/agents/pg_agent.py:142-153 | the reference advantages have one entry per timestep; at a terminal the entry is `r[i] - V[i]`, elsewhere `r[i] + gamma*V[i+1] - V[i] + gamma*lambda*A[i+1]` with `i+1` inside the batch |
| `Gae.DropPrefix` | hw2/cs285/agents/pg_agent.py:144-153 | data before an index never affects its advantage: prefixing the batch leaves every later advantage unchanged |
| `Gae.DropSuffix` | hw2/cs285/agents/pg_agent.py:144-153 | data after a terminal never affects earlier advantages: appending a batch behind one that ends in a terminal leaves the first part's advantages unchanged |
| `Gae.BoundaryIsolation` | hw2/cs285/agents/pg_agent.py:144-153 | two batches that agree on r, V and the flags from i to the first terminal at or after i give the same advantage at i, whatever the other trajectories hold |
| `Gae.Concatenation` | hw2/cs285/agents/pg_agent.py:144-153 | GAE over two batches laid end to end is the two GAE results laid end to end, when the first batch closes its last trajectory |
| `Gae.LambdaZeroIsTdResidual` | hw2/cs285/agents/pg_agent.py:148-153 | with lambda = 0 every advantage is the one-step TD residual (the lookahead value dropped at a terminal) |
| `Gae.LambdaOneTelescopes` | hw2/cs285/agents/pg_agent.py:148-153 | with lambda = 1 the advantage at i is the discounted reward-to-go from i to the end of its segment minus `V[i]` |
| `Normalize.SegmentLength` | hw2/cs285/agents/pg_agent.py:162-170 | a segment closed by a terminal has at least one timestep, so the division is defined |
| `Normalize.Normalized` | hw2/cs285/agents/pg_agent.py:160-170 | the entry-wise reference result keeps the length |
| `Normalize.NormalizeBySegmentLength` | hw2/cs285/agents/pg_agent.py:160-170 | the loop with the counters `ind` and `adv_ind` leaves the array equal to `Normalized` of its old contents |
| `Normalize.NormalizedEntries` | hw2/cs285/agents/pg_agent.py:160-170 | the length is kept; one-step segments are unchanged; entries after the last terminal are unchanged |
| `Normalize.NormalizedSegment` | hw2/cs285/agents/pg_agent.py:164-168 | every entry of a segment `s..k` closed by a terminal is divided by `k - s + 1` |
| `Normalize.NormalizedSegmentSumsToMean` | hw2/cs285/agents/pg_agent.py:164-168 | after the division, the entries of a closed segment sum to the mean of its original entries |
| `PgAgent.QValues` | hw2/cs285/agents/pg_agent.py:93-108 | one list of Q targets per trajectory, each as long as that trajectory's rewards |
| `PgAgent.CalculateQVals` | hw2/cs285/agents/pg_agent.py:93-108 | the loop over trajectories appends, in order, the reward-to-go or the repeated total return of each |
| `PgAgent.QValuesModeAAsWritten` | hw2/cs285/agents/pg_agent.py:97-102 | as written, the total-return branch gives each trajectory one entry per timestep, and each of those entries is the whole corrected target list of that trajectory (T numbers instead of one) |
| `PgAgent.ModeANestsTrajectoryTargets` | hw2/cs285/agents/pg_agent.py:97-102 | for rewards `[[1, 1]]` and gamma 0.9, the total-return branch as written gives `[[1.9, 1.9], [1.9, 1.9]]` for the trajectory; the corrected branch gives `[1.9, 1.9]` |
| `PgAgent.RawAdvantages` | hw2/cs285/agents/pg_agent.py:122-157 | each of the three cases, when it succeeds, yields one advantage per timestep |
| `PgAgent.EstimateAdvantage` | hw2/cs285/agents/pg_agent.py:110-171 | without a critic and without normalisation the result is the Q values; a critic whose output length differs from Q's fails the shape assertion; with a critic and no GAE, entry i is `q[i] - V[i]`; with GAE it fails exactly when the last flag is not terminal; the result equals `Advantages` |
| `PgAgent.TotalLengthsAgree` | hw2/cs285/agents/pg_agent.py:70-74 | per-trajectory arrays of equal lengths flatten to arrays of equal length |
| `PgAgent.Update` | hw2/cs285/agents/pg_agent.py:50-78 | the five flat arrays are the flattened inputs and the corrected Q targets, all of length N (the total number of timesteps), and the advantages are those of `_estimate_advantage` on them |
| `PgAgent.FlattenEndsInTerminal` | hw2/cs285/agents/pg_agent.py:73 | when every trajectory ends in a terminal flag, so does the flattened flag array |
| `PgAgent.WellFormedBatchSucceeds` | hw2/cs285/agents/pg_agent.py:65-78 | on a batch whose trajectories each end in one terminal flag, and with a critic value per timestep when a critic is used, the advantages computed from the corrected Q targets never fail and have length N |
| `PgAgent.LambdaOneOnTrajectory` | hw2/cs285/agents/pg_agent.py:144-153 | within one trajectory, GAE with lambda = 1 equals its reward-to-go minus V, whatever V is |
| `PgAgent.LambdaOneIsRewardToGoMinusValues` | hw2/cs285/agents/pg_agent.py:144-153 | over a whole well-formed batch, GAE with lambda = 1 equals the flattened reward-to-go Q values minus V, elementwise and exactly |
| `PgAgent.LambdaOneMatchesPlainBaseline` | hw2/cs285/agents/pg_agent.py:131-153 | with reward-to-go targets on a well-formed batch, the GAE case with lambda = 1 and the plain-baseline case give the same advantages |
| `PgAgent.TwoTrajectoryExample` | hw2/cs285/agents/pg_agent.py:65-124 | rewards `[[1, 1], [2]]`, gamma 0.9, reward-to-go, no critic: the advantages are exactly `[1.9, 1.0, 2.0]` |

## Left out

- Network construction in `PGAgent.__init__` (lines 28-42), the actor `MLPPolicyPG` and the critic `ValueCritic` are left out. The critic's forward pass (line 128) becomes the input `values`. The `Baseline` datatype records whether a critic exists and whether GAE is used, so GAE without a critic cannot be expressed.
- The actor update (line 82) and the critic's gradient-step loop (lines 84-89) are calls into optimiser code that is not part of this model. The same goes for the metrics dictionary they return. Inside that loop, with `baseline_gradient_steps == 0`, `critic_info` is never bound and line 89 would raise; this is not modelled.
- Conversions between torch and numpy, dtypes, and array shapes beyond their length are left out. In the same way, the failure of `advantages[...] /= ind` on an integer-typed Q array is left out.
- PgAgent.EstimateAdvantage: the assertion `values.shape == q_values.shape` (line 129) is modelled as a comparison of lengths. So the failure that `.squeeze()` causes on a one-timestep batch (shape `()` against `(1,)`) is not captured.
- IEEE floating-point rounding, and overflow of `gamma ** i` on long trajectories, are left out. All arithmetic is on exact reals.
- No mean/standard-deviation normalisation is modelled. The source does not implement it (only its comment at line 159 mentions it). It would also need a square root, which exact real arithmetic does not provide.
- PgAgent.QValuesModeAAsWritten models the doubly nested targets of line 102 per trajectory. What numpy then makes of the ragged nesting after flattening (a 2-D array or an error) is not modelled.
- PgAgent.Update: in the total-return mode it uses the corrected Q targets (one number per timestep), not those of line 102. As written, line 74 flattens each trajectory's targets into T lists of T numbers. With trajectories of equal length T, q_values becomes an N x T array, and with a critic the shape assertion at line 129 then fails ((N,) against (N, T)). With trajectories of different lengths, `np.array` at line 74 builds no float array. So `Update`'s promise that the flat Q targets have length N holds for the program only in the reward-to-go mode.
- PgAgent.WellFormedBatchSucceeds: in the total-return mode it is stated over the corrected Q targets. The program as written fails there whenever a critic is used (the assertion at line 129), or builds no float array at line 74 when trajectory lengths differ, so "never fails" holds for the program only in the reward-to-go mode and, with a critic, only for batches of more than one timestep (the `.squeeze()` failure noted for `PgAgent.EstimateAdvantage`).
- PgAgent.Update: the model takes the five lists already grouped by trajectory, with matching lengths. It does not model what numpy does with inconsistent inputs.

## Findings

| source | as written | input that shows it | evidently intended | confidence | as-written member | corrected member |
|---|---|---|---|---|---|---|
| hw2/cs285/agents/pg_agent.py:102 | in the total-return branch, the list from `_discounted_return`, which already holds one copy of the return per timestep, is wrapped again with `[...] * len(reward)`. Each timestep therefore receives a list of T values. | one trajectory with rewards `[1, 1]` and gamma 0.9 gives `[[1.9, 1.9], [1.9, 1.9]]` | append the helper's list as it is, giving `[1.9, 1.9]`: one number per timestep, as the helper's doc comment (lines 174-179) describes | high (not executed) | `PgAgent.QValuesModeAAsWritten`, `PgAgent.ModeANestsTrajectoryTargets` | `PgAgent.CalculateQVals` |
