/** Induction over the states of a run. */
module Runs {

  /** Consecutive states are related by a step. */
  ghost predicate IsRun<S(!new)>(run: seq<S>, step: (S, S) -> bool) {
    run != [] && forall i :: 0 <= i < |run| - 1 ==> step(run[i], run[i + 1])
  }

  /** What the first state has and every step keeps, every state has. */
  lemma {:induction false} Everywhere<S(!new)>(run: seq<S>, step: (S, S) -> bool, inv: S -> bool, i: nat)
    requires IsRun(run, step) && inv(run[0]) && i < |run|
    requires forall s, s' :: inv(s) && step(s, s') ==> inv(s')
    ensures inv(run[i])
  {
    if i > 0 {
      Everywhere(run, step, inv, i - 1);
    }
  }

  lemma Extended<S(!new)>(run: seq<S>, s: S, step: (S, S) -> bool) returns (longer: seq<S>)
    requires IsRun(run, step) && step(run[|run| - 1], s)
    ensures longer == run + [s] && IsRun(longer, step)
  {
    longer := run + [s];
    assert forall i :: 0 <= i < |run| ==> longer[i] == run[i];
  }
}
