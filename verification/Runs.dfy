/** Runs of a protocol given by its moves: which step leads from which state to which. */
module Runs {

  predicate Run<State, Step>(moves: (State, Step, State) -> bool, states: seq<State>, steps: seq<Step>) {
    |states| == |steps| + 1 && forall i | 0 <= i < |steps| :: moves(states[i], steps[i], states[i + 1])
  }

  lemma RunExtended<State, Step>(
    moves: (State, Step, State) -> bool, s: State, step: Step, states: seq<State>, steps: seq<Step>)
    requires Run(moves, states, steps) && moves(s, step, states[0])
    ensures Run(moves, [s] + states, [step] + steps)
  {
    forall i | 0 <= i < |steps| + 1 ensures moves(([s] + states)[i], ([step] + steps)[i], ([s] + states)[i + 1]) {
      if i > 0 {
        assert moves(states[i - 1], steps[i - 1], states[i]);
      }
    }
  }

  /** What every move keeps holds all along a run that starts with it. */
  lemma {:induction false} KeptAlongRun<State, Step>(
    moves: (State, Step, State) -> bool, inv: State -> bool, states: seq<State>, steps: seq<Step>, n: nat)
    requires Run(moves, states, steps) && n <= |steps|
    requires forall s, step, s' :: moves(s, step, s') && inv(s) ==> inv(s')
    requires inv(states[0])
    ensures inv(states[n])
  {
    if n > 0 {
      KeptAlongRun(moves, inv, states, steps, n - 1);
      assert moves(states[n - 1], steps[n - 1], states[n]);
    }
  }

  /** If every step of a run uses up work, `n` steps use up at least `n` units of it. */
  lemma {:induction false} WorkAlongRun<State>(work: State -> nat, states: seq<State>, n: nat)
    requires n < |states| && forall i | 0 <= i < n :: work(states[i + 1]) < work(states[i])
    ensures n + work(states[n]) <= work(states[0])
  {
    if n > 0 {
      WorkAlongRun(work, states, n - 1);
      assert work(states[n - 1 + 1]) < work(states[n - 1]);
    }
  }

  /** A good move that keeps the invariant and uses up work. */
  ghost predicate Advances<State, Step>(
    moves: (State, Step, State) -> bool, good: Step -> bool, inv: State -> bool, work: State -> nat,
    s: State, step: Step, s': State)
  {
    moves(s, step, s') && good(step) && inv(s') && work(s') < work(s)
  }

  /** If there is such a move until the work is done, a run of good steps finishes it. */
  lemma {:induction false} Completes<State, Step>(
    moves: (State, Step, State) -> bool, good: Step -> bool, inv: State -> bool, work: State -> nat,
    done: State -> bool, s: State) returns (states: seq<State>, steps: seq<Step>)
    requires inv(s)
    requires forall t :: inv(t) && !done(t) ==> exists step, t' :: Advances(moves, good, inv, work, t, step, t')
    ensures Run(moves, states, steps) && states[0] == s && done(states[|steps|])
    ensures forall i | 0 <= i < |steps| :: good(steps[i])
    decreases work(s)
  {
    if done(s) {
      states, steps := [s], [];
    } else {
      var step, next :| Advances(moves, good, inv, work, s, step, next);
      states, steps := Completes(moves, good, inv, work, done, next);
      RunExtended(moves, s, step, states, steps);
      states, steps := [s] + states, [step] + steps;
    }
  }
}
