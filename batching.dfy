/**
  The flattening step of `PGAgent.update`: each of obs, actions, rewards,
  terminals and q_values arrives as a list with one array per trajectory and
  is concatenated, in order, into one array indexed by batch position.
*/
module Batching {

  /** `[item for sublist in xss for item in sublist]`. */
  function Flatten<T>(xss: seq<seq<T>>): seq<T>
  {
    if xss == [] then [] else xss[0] + Flatten(xss[1..])
  }

  /** Total number of timesteps: the batch size. */
  function TotalLength<T>(xss: seq<seq<T>>): nat
  {
    if xss == [] then 0 else |xss[0]| + TotalLength(xss[1..])
  }

  /** Batch position of the first timestep of trajectory `k`: the lengths of
      the trajectories before it, added up. */
  function Offset<T>(xss: seq<seq<T>>, k: nat): nat
    requires k <= |xss|
  {
    TotalLength(xss[..k])
  }

  /** Flattening yields as many entries as all the trajectories together. */
  lemma {:induction false} FlattenLength<T>(xss: seq<seq<T>>)
    ensures |Flatten(xss)| == TotalLength(xss)
  {
    if xss != [] {
      FlattenLength(xss[1..]);
    }
  }

  /** Element `j` of trajectory `k` lands at batch position `Offset(xss, k) + j`,
      so trajectories keep their order and their contents. */
  lemma {:induction false} FlattenAt<T>(xss: seq<seq<T>>, k: nat, j: nat)
    requires k < |xss| && j < |xss[k]|
    ensures Offset(xss, k) + j < |Flatten(xss)|
    ensures Flatten(xss)[Offset(xss, k) + j] == xss[k][j]
  {
    FlattenLength(xss);
    if k > 0 {
      FlattenAt(xss[1..], k - 1, j);
      assert xss[..k][1..] == xss[1..][..k - 1];
    }
  }

  /** Flattening two lists of trajectories laid end to end. */
  lemma {:induction false} FlattenAppend<T>(xss: seq<seq<T>>, yss: seq<seq<T>>)
    ensures Flatten(xss + yss) == Flatten(xss) + Flatten(yss)
  {
    if xss != [] {
      assert (xss + yss)[1..] == xss[1..] + yss;
      FlattenAppend(xss[1..], yss);
    } else {
      assert xss + yss == yss;
    }
  }

  /** An observation or an action: a vector of reals. */
  type Vector = seq<real>

  /** The five flat arrays `update` builds, all indexed by batch position. */
  datatype Batch = Batch(
    obs: seq<Vector>,
    actions: seq<Vector>,
    rewards: seq<real>,
    terminals: seq<int>,
    qValues: seq<real>)

  /** Lines 70-74 of `update`. */
  function FlattenBatch(obs: seq<seq<Vector>>, actions: seq<seq<Vector>>, rewards: seq<seq<real>>,
                        terminals: seq<seq<int>>, qValues: seq<seq<real>>): Batch
  {
    Batch(Flatten(obs), Flatten(actions), Flatten(rewards), Flatten(terminals), Flatten(qValues))
  }
}
