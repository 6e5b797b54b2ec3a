/** sig_speed_sigsuspend.c: parent and child alternately send one signal, which
    each keeps blocked except inside sigsuspend, so a signal that arrives early
    waits in a single pending bit and a second one would be lost. */
module PingPong {
  import opened Runs
  import opened Sums

  datatype Pc = Sending | Waiting | Exited

  /** One process: where it is, how many rounds it has finished (scnt), and
      whether the signal is pending for it. */
  datatype Process = Process(pc: Pc, scnt: nat, pending: bool)

  datatype State = State(n: nat, child: Process, parent: Process)

  datatype Action = ChildKill | ChildWake | ParentKill | ParentWake

  ghost predicate Init(s: State) {
    && s.n > 0
    && s == State(s.n, Process(Sending, 0, false), Process(Waiting, 0, false))
  }

  predicate Enabled(s: State, a: Action) {
    match a
    case ChildKill => s.child.pc == Sending
    case ChildWake => s.child.pc == Waiting && s.child.pending
    case ParentKill => s.parent.pc == Sending
    case ParentWake => s.parent.pc == Waiting && s.parent.pending
  }

  /** The end of a loop body: next round, or exit. */
  function NextRound(p: Process, n: nat, again: Pc): Process {
    p.(scnt := p.scnt + 1, pc := if p.scnt + 1 < n then again else Exited)
  }

  function Apply(s: State, a: Action): State
    requires Enabled(s, a)
  {
    match a
    case ChildKill =>
      s.(child := s.child.(pc := Waiting), parent := s.parent.(pending := true))
    case ChildWake =>
      s.(child := NextRound(s.child.(pending := false), s.n, Sending))
    case ParentWake =>
      s.(parent := s.parent.(pending := false, pc := Sending))
    case ParentKill =>
      s.(parent := NextRound(s.parent, s.n, Waiting), child := s.child.(pending := true))
  }

  ghost predicate Step(s: State, t: State) {
    exists a :: Enabled(s, a) && t == Apply(s, a)
  }

  ghost predicate Stuck(s: State) {
    forall a :: !Enabled(s, a)
  }

  /** How many of the four places hold the right to act. */
  function Tokens(s: State): nat {
    Bit(s.child.pc == Sending) + Bit(s.parent.pending) + Bit(s.parent.pc == Sending) + Bit(s.child.pending)
  }

  predicate Finished(s: State) {
    s.child.pc == Exited && s.parent.pc == Exited
  }

  /** Steps taken so far, read off the state. */
  function Elapsed(s: State): nat {
    4 * s.child.scnt
    + (if s.child.pc != Waiting then 0
       else if s.parent.pending then 1
       else if s.parent.pc == Sending then 2
       else 3)
  }

  ghost predicate Inv(s: State) {
    && s.n > 0
    && Tokens(s) == Bit(!Finished(s))
    && (s.child.pc == Exited <==> s.child.scnt == s.n) && s.child.scnt <= s.n
    && (s.parent.pc == Exited <==> s.parent.scnt == s.n) && s.parent.scnt <= s.n
    && (s.child.pc == Sending ==> s.parent.pc == Waiting)
    && (s.parent.pending ==> s.parent.pc == Waiting && s.child.pc == Waiting)
    && (s.parent.pc == Sending ==> s.child.pc == Waiting)
    && (s.child.pending ==> s.child.pc == Waiting)
    && s.parent.scnt == s.child.scnt + Bit(s.child.pending)
  }

  lemma {:induction false} StepKeepsInv(s: State, a: Action)
    requires Inv(s) && Enabled(s, a)
    ensures Inv(Apply(s, a))
    ensures Elapsed(Apply(s, a)) == Elapsed(s) + 1
    ensures Apply(s, a).n == s.n
  {
  }

  /** Exactly one of the two processes can move, until both have finished. */
  lemma {:induction false} OneMover(s: State, a: Action, b: Action)
    requires Inv(s)
    ensures Enabled(s, a) && Enabled(s, b) ==> a == b
    ensures Stuck(s) <==> Finished(s)
  {
    assert !Finished(s) ==> Enabled(s, ChildKill) || Enabled(s, ChildWake) || Enabled(s, ParentKill) || Enabled(s, ParentWake);
  }

  /** No signal is merged with another or sent to a process that has gone: the one it is
      sent to has none pending and is in sigsuspend, so that the signal wakes it. */
  ghost predicate SignalsArrive(s: State) {
    && (Enabled(s, ChildKill) ==> !s.parent.pending && s.parent.pc == Waiting && Enabled(Apply(s, ChildKill), ParentWake))
    && (Enabled(s, ParentKill) ==> !s.child.pending && s.child.pc == Waiting && Enabled(Apply(s, ParentKill), ChildWake))
  }

  /** On every run: one token, no signal merged with another or sent to a
      process that has gone, and the i-th state is exactly i steps in. */
  lemma {:induction false} EveryRunSafe(run: seq<State>, i: nat)
    requires IsRun(Init, Step, run) && i < |run|
    ensures Inv(run[i]) && run[i].n == run[0].n
    ensures Elapsed(run[i]) == i
    ensures SignalsArrive(run[i])
    ensures Tokens(run[i]) == Bit(!Finished(run[i]))
  {
    if i == 0 {
    } else {
      EveryRunSafe(run, i - 1);
      assert Step(run[i - 1], run[i]);
      var a :| Enabled(run[i - 1], a) && run[i] == Apply(run[i - 1], a);
      StepKeepsInv(run[i - 1], a);
    }
  }

  /** No run deadlocks: every run has at most 4 * numSigs steps, and it cannot be
      extended exactly when it has that many, with both loops finished after
      exactly numSigs rounds. */
  lemma {:induction false} EveryRunFinishes(run: seq<State>)
    requires IsRun(Init, Step, run)
    ensures |run| - 1 <= 4 * run[0].n
    ensures Stuck(run[|run| - 1]) <==> |run| - 1 == 4 * run[0].n
    ensures Stuck(run[|run| - 1]) ==>
              Finished(run[|run| - 1]) && run[|run| - 1].child.scnt == run[|run| - 1].parent.scnt == run[0].n
  {
    var last := |run| - 1;
    EveryRunSafe(run, last);
    OneMover(run[last], ChildKill, ChildKill);
  }

  /** The schedule leaves no choice: two runs for the same numSigs agree. */
  lemma {:induction false} RunsAreEqual(run: seq<State>, other: seq<State>, i: nat)
    requires IsRun(Init, Step, run) && IsRun(Init, Step, other) && run[0].n == other[0].n
    requires i < |run| && i < |other|
    ensures run[i] == other[i]
  {
    if i == 0 {
    } else {
      RunsAreEqual(run, other, i - 1);
      EveryRunSafe(run, i - 1);
      assert Step(run[i - 1], run[i]) && Step(other[i - 1], other[i]);
      var a :| Enabled(run[i - 1], a) && run[i] == Apply(run[i - 1], a);
      var b :| Enabled(other[i - 1], b) && other[i] == Apply(other[i - 1], b);
      OneMover(run[i - 1], a, b);
    }
  }
}
