/** Runs together with the actions that make them: what a state keeps count or a
    record of is what the actions of the run were. */
module Actions {
  import opened Runs
  import opened Sums

  /** `acts` leads through the states of `run`. */
  ghost predicate Performs<S(!new), A(!new)>(via: (S, A, S) -> bool, acts: seq<A>, run: seq<S>) {
    && |run| == |acts| + 1
    && forall i, j :: 0 <= i && j == i + 1 < |run| ==> via(run[i], acts[i], run[j])
  }

  lemma {:induction false} PerformsFirst<S(!new), A(!new)>(via: (S, A, S) -> bool, acts: seq<A>, run: seq<S>)
    requires Performs(via, acts, run) && acts != []
    ensures Performs(via, acts[..|acts| - 1], run[..|acts|])
    ensures via(run[|acts| - 1], acts[|acts| - 1], run[|acts|])
  {
  }

  /** Every run is made by some actions. */
  lemma {:induction false} SomeActions<S(!new), A(!new)>(step: (S, S) -> bool, via: (S, A, S) -> bool, run: seq<S>) returns (acts: seq<A>)
    requires forall s, t :: step(s, t) ==> exists a :: via(s, a, t)
    requires |run| > 0 && Follows(step, run)
    ensures Performs(via, acts, run)
  {
    var k := |run| - 1;
    if k == 0 {
      acts := [];
    } else {
      var init := SomeActions(step, via, run[..k]);
      assert step(run[k - 1], run[k]);
      var a :| via(run[k - 1], a, run[k]);
      acts := init + [a];
      forall i, j | 0 <= i && j == i + 1 < |run| ensures via(run[i], acts[i], run[j]) {
        if j < k {
          assert via(run[..k][i], init[i], run[..k][j]);
        }
      }
    }
  }

  /** A count that every action raises by so much is the sum over the actions. */
  lemma {:induction false} Counted<S(!new), A(!new)>(via: (S, A, S) -> bool, acts: seq<A>, run: seq<S>, count: S -> int, raise: A -> nat)
    requires Performs(via, acts, run)
    requires forall s, a, t :: via(s, a, t) ==> count(t) == count(s) + raise(a)
    ensures count(run[|acts|]) == count(run[0]) + Sum(raise, acts)
  {
    if acts == [] {
    } else {
      PerformsFirst(via, acts, run);
      Counted(via, acts[..|acts| - 1], run[..|acts|], count, raise);
    }
  }

  /** What the actions contribute, one after the other. */
  function Collected<A, M>(entry: A -> seq<M>, acts: seq<A>): seq<M> {
    if acts == [] then [] else Collected(entry, acts[..|acts| - 1]) + entry(acts[|acts| - 1])
  }

  /** A record to which every action adds so much is what the actions contribute. */
  lemma {:induction false} Recorded<S(!new), A(!new), M>(via: (S, A, S) -> bool, acts: seq<A>, run: seq<S>, record: S -> seq<M>, entry: A -> seq<M>)
    requires Performs(via, acts, run)
    requires forall s, a, t :: via(s, a, t) ==> record(t) == record(s) + entry(a)
    ensures record(run[|acts|]) == record(run[0]) + Collected(entry, acts)
  {
    if acts == [] {
    } else {
      var k := |acts| - 1;
      PerformsFirst(via, acts, run);
      Recorded(via, acts[..k], run[..|acts|], record, entry);
      Joined(record(run[0]), Collected(entry, acts[..k]), entry(acts[k]));
    }
  }

  lemma {:induction false} Joined<M>(a: seq<M>, b: seq<M>, c: seq<M>)
    ensures (a + b) + c == a + (b + c)
  {
  }
}
