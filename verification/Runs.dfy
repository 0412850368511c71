/**
 Runs of a labelled transition system, given by an initial predicate and a
 step relation. Every protocol of this project is stated over these runs.
 */
module Runs {

  /** `states` is a path of the system: `steps[k]` leads from `states[k]` to `states[k + 1]`. */
  ghost predicate IsPath<S(!new), L(!new)>(next: (S, L, S) -> bool, states: seq<S>, steps: seq<L>) {
    && |states| == |steps| + 1
    && forall k :: 0 <= k < |steps| ==> next(states[k], steps[k], states[k + 1])
  }

  /** A path that begins in an initial state. */
  ghost predicate IsRun<S(!new), L(!new)>(init: S -> bool, next: (S, L, S) -> bool, states: seq<S>, steps: seq<L>) {
    IsPath(next, states, steps) && init(states[0])
  }

  /** What holds at the start of a path and is kept by each of its steps holds along all of it. */
  lemma {:induction false} Invariance<S(!new), L(!new)>(
      inv: S -> bool, next: (S, L, S) -> bool, states: seq<S>, steps: seq<L>, n: nat)
    requires IsPath(next, states, steps) && n < |states|
    requires inv(states[0])
    requires forall s, l, s' :: inv(s) && next(s, l, s') ==> inv(s')
    ensures inv(states[n])
  {
    if n > 0 {
      Invariance(inv, next, states, steps, n - 1);
      assert next(states[n - 1], steps[n - 1], states[n]);
    }
  }

  /** A path may be prolonged by a step from its last state. */
  lemma Extend<S(!new), L(!new)>(next: (S, L, S) -> bool, states: seq<S>, steps: seq<L>, step: L, s': S)
    requires IsPath(next, states, steps)
    requires next(states[|states| - 1], step, s')
    ensures IsPath(next, states + [s'], steps + [step])
  {
  }
}
