/**
  Terminal flags and the trajectory segments they delimit in a flattened batch.
  A flag marks the last timestep of a trajectory exactly when it equals 1
  (the Python code tests `terminals[i] == 1` and `terminal == 1`).
*/
module Segments {

  /** The flag value that ends a trajectory. */
  const TERMINAL: int := 1

  /** Either empty, or the last flag closes a trajectory: the condition under
      which the backward GAE loop never looks past the end of the batch. */
  predicate EndsInTerminal(t: seq<int>)
  {
    |t| == 0 || t[|t| - 1] == TERMINAL
  }

  /** The first index at or after `i` whose flag is terminal, or `|t|` when
      there is none: the last timestep of the segment holding `i`. */
  function FirstTerminalFrom(t: seq<int>, i: nat): (k: nat)
    requires i <= |t|
    ensures i <= k <= |t|
    ensures k < |t| ==> t[k] == TERMINAL
    ensures forall j :: i <= j < k ==> t[j] != TERMINAL
    decreases |t| - i
  {
    if i == |t| then |t|
    else if t[i] == TERMINAL then i
    else FirstTerminalFrom(t, i + 1)
  }

  /** The first index of the segment holding `j`: just after the last terminal
      flag strictly before `j`, or 0 when there is none. */
  function SegmentStart(t: seq<int>, j: nat): (s: nat)
    requires j <= |t|
    ensures s <= j
    ensures s == 0 || t[s - 1] == TERMINAL
    ensures forall m :: s <= m < j ==> t[m] != TERMINAL
  {
    if j == 0 then 0
    else if t[j - 1] == TERMINAL then j
    else SegmentStart(t, j - 1)
  }

  /** The flags of one trajectory: only its last timestep is terminal. */
  predicate MarksOneTrajectory(t: seq<int>)
  {
    |t| > 0 && t[|t| - 1] == TERMINAL && forall j :: 0 <= j < |t| - 1 ==> t[j] != TERMINAL
  }

  /** The first terminal at or after `i` is determined by the flags between:
      any `k` that is terminal (or the end) with no terminal in `[i, k)` is it. */
  lemma {:induction false} FirstTerminalIs(t: seq<int>, i: nat, k: nat)
    requires i <= k <= |t|
    requires k < |t| ==> t[k] == TERMINAL
    requires forall j :: i <= j < k ==> t[j] != TERMINAL
    ensures FirstTerminalFrom(t, i) == k
    decreases k - i
  {
    if i < k {
      FirstTerminalIs(t, i + 1, k);
    }
  }

  /** Likewise the segment start of `j` is any `s` that follows a terminal (or
      is 0) with no terminal in `[s, j)`. */
  lemma {:induction false} SegmentStartIs(t: seq<int>, s: nat, j: nat)
    requires s <= j <= |t|
    requires s == 0 || t[s - 1] == TERMINAL
    requires forall m :: s <= m < j ==> t[m] != TERMINAL
    ensures SegmentStart(t, j) == s
    decreases j - s
  {
    if s < j {
      SegmentStartIs(t, s, j - 1);
    }
  }
}
