/** Finite runs of a transition system, and the two induction principles that
    every protocol in this project uses: an inductive invariant holds in every
    state of every run, and a measure that every step lowers bounds every run. */
module Runs {

  /** Consecutive states of `run` are related by `step`. */
  ghost predicate Follows<S(!new)>(step: (S, S) -> bool, run: seq<S>) {
    forall i, j :: 0 <= i && j == i + 1 < |run| ==> step(run[i], run[j])
  }

  /** `run` starts in an initial state and follows `step`. */
  ghost predicate IsRun<S(!new)>(init: S -> bool, step: (S, S) -> bool, run: seq<S>) {
    |run| > 0 && init(run[0]) && Follows(step, run)
  }

  /** What holds initially and is kept by every step holds everywhere on every run. */
  lemma {:induction false} Invariance<S(!new)>(init: S -> bool, step: (S, S) -> bool, inv: S -> bool, run: seq<S>)
    requires forall s :: init(s) ==> inv(s)
    requires forall s, t :: inv(s) && step(s, t) ==> inv(t)
    requires IsRun(init, step, run)
    ensures forall i :: 0 <= i < |run| ==> inv(run[i])
  {
    if |run| <= 1 {
    } else {
      var k := |run| - 1;
      Invariance(init, step, inv, run[..k]);
      assert inv(run[..k][k - 1]) && step(run[k - 1], run[k]);
      forall i | 0 <= i < |run| ensures inv(run[i]) {
        assert i < k ==> run[i] == run[..k][i];
      }
    }
  }

  /** If every step from a good state lowers a natural-number measure, no run
      has more steps than the measure of its first state. */
  lemma {:induction false} Bounded<S(!new)>(step: (S, S) -> bool, inv: S -> bool, measure: S -> nat, run: seq<S>)
    requires forall s, t :: inv(s) && step(s, t) ==> inv(t) && measure(t) < measure(s)
    requires |run| > 0 && inv(run[0]) && Follows(step, run)
    ensures |run| - 1 + measure(run[|run| - 1]) <= measure(run[0])
  {
    if |run| <= 1 {
    } else {
      var rest := run[1..];
      assert step(run[0], run[1]);
      assert Follows(step, rest) by {
        forall i, j | 0 <= i && j == i + 1 < |rest| ensures step(rest[i], rest[j]) {
          assert rest[i] == run[i + 1] && rest[j] == run[j + 1];
        }
      }
      Bounded(step, inv, measure, rest);
    }
  }

  /** Some run leads from `s` to `t`. */
  ghost predicate Reaches<S(!new)>(step: (S, S) -> bool, s: S, t: S) {
    exists run :: Leads(step, s, t, run)
  }

  ghost predicate Leads<S(!new)>(step: (S, S) -> bool, s: S, t: S, run: seq<S>) {
    |run| > 0 && run[0] == s && run[|run| - 1] == t && Follows(step, run)
  }

  lemma {:induction false} ReachesSelf<S(!new)>(step: (S, S) -> bool, s: S)
    ensures Reaches(step, s, s)
  {
    assert Leads(step, s, s, [s]);
  }

  /** A run can be extended by one step. */
  lemma {:induction false} ReachesStep<S(!new)>(step: (S, S) -> bool, s: S, t: S, u: S)
    requires Reaches(step, s, t) && step(t, u)
    ensures Reaches(step, s, u)
  {
    var run :| Leads(step, s, t, run);
    assert Leads(step, s, u, run + [u]);
  }

  /** Runs compose. */
  lemma {:induction false} ReachesTrans<S(!new)>(step: (S, S) -> bool, s: S, t: S, u: S)
    requires Reaches(step, s, t) && Reaches(step, t, u)
    ensures Reaches(step, s, u)
  {
    var run :| Leads(step, t, u, run);
    ReachesAlong(step, s, t, run, |run| - 1);
  }

  lemma {:induction false} ReachesAlong<S(!new)>(step: (S, S) -> bool, s: S, t: S, run: seq<S>, i: nat)
    requires Reaches(step, s, t) && i < |run| && run[0] == t && Follows(step, run)
    ensures Reaches(step, s, run[i])
  {
    if i == 0 {
    } else {
      ReachesAlong(step, s, t, run, i - 1);
      assert step(run[i - 1], run[i]);
      ReachesStep(step, s, run[i - 1], run[i]);
    }
  }

  /** Stages that each equal the one before or are a step further. */
  lemma {:induction false} ReachesLast<S(!new)>(step: (S, S) -> bool, stages: seq<S>)
    requires |stages| > 0
    requires forall i, j :: 0 <= i && j == i + 1 < |stages| ==> stages[i] == stages[j] || step(stages[i], stages[j])
    ensures Reaches(step, stages[0], stages[|stages| - 1])
  {
    var k := |stages| - 1;
    if k == 0 {
      ReachesSelf(step, stages[0]);
    } else {
      ReachesLast(step, stages[..k]);
      assert stages[k - 1] == stages[k] || step(stages[k - 1], stages[k]);
      if stages[k - 1] != stages[k] {
        ReachesStep(step, stages[0], stages[k - 1], stages[k]);
      }
    }
  }
}
