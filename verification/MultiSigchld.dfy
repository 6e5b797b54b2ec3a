/** multi_SIGCHLD.c: a parent forks N children with SIGCHLD blocked and reaps
    them from the handler, although SIGCHLD is not queued: any number of
    deaths while the signal is blocked leave a single pending bit.

    The kernel's part (POSIX.1-2008, section 2.4 "Signal Concepts", and the
    sigsuspend and waitpid pages) is explicit state: the pending bit, the
    processes that have died and not been waited for, and the fact that the
    signal is deliverable only inside sigsuspend and stays blocked while its
    handler runs. */
module MultiSigchld {
  import opened Runs
  import opened Sums
  import opened Actions

  /** Where the parent is. `Handler` is the waitpid loop, `Tail` the rest of the
      handler, `Counting` the instant after sigsuspend has returned. */
  datatype Pc = Forking | Testing | Suspended | Handler | Tail | Counting | Done

  /** A child process, as the kernel sees it. `Zombie`: dead, not yet waited for. */
  datatype Life = Running | Zombie | Reaped

  datatype State = State(
    n: nat,                // number of children asked for
    children: seq<Life>,   // the children created so far
    pending: bool,         // SIGCHLD pending for the parent
    live: int,             // numLiveChildren
    sigCnt: nat,
    pc: Pc)

  datatype Action =
    | Fork
    | ForksDone
    | Die(child: nat)
    | Test
    | Deliver
    | Reap(child: nat, clears: bool)     // waitpid may clear the pending signal if no other child is dead
    | NoMoreDead
    | Return
    | Count

  ghost predicate Init(s: State) {
    s.n >= 1 && s == State(s.n, [], false, s.n, 0, Forking)
  }

  predicate OnlyDead(children: seq<Life>, c: nat) {
    forall d :: 0 <= d < |children| && d != c ==> children[d] != Zombie
  }

  predicate Enabled(s: State, a: Action) {
    match a
    case Fork => s.pc == Forking && |s.children| < s.n
    case ForksDone => s.pc == Forking && |s.children| == s.n
    case Die(c) => c < |s.children| && s.children[c] == Running
    case Test => s.pc == Testing
    case Deliver => s.pc == Suspended && s.pending
    case Reap(c, clears) =>
      s.pc == Handler && c < |s.children| && s.children[c] == Zombie && (clears ==> OnlyDead(s.children, c))
    case NoMoreDead => s.pc == Handler && Zombie !in s.children
    case Return => s.pc == Tail
    case Count => s.pc == Counting
  }

  function Apply(s: State, a: Action): State
    requires Enabled(s, a)
  {
    match a
    case Fork => s.(children := s.children + [Running])
    case ForksDone => s.(pc := Testing)
    case Die(c) => s.(children := s.children[c := Zombie], pending := true)
    case Test => s.(pc := if s.live > 0 then Suspended else Done)
    case Deliver => s.(pending := false, pc := Handler)
    case Reap(c, clears) => s.(children := s.children[c := Reaped], live := s.live - 1, pending := s.pending && !clears)
    case NoMoreDead => s.(pc := Tail)
    case Return => s.(pc := Counting)
    case Count => s.(sigCnt := s.sigCnt + 1, pc := Testing)
  }

  ghost predicate Step(s: State, t: State) {
    exists a :: Enabled(s, a) && t == Apply(s, a)
  }

  ghost predicate By(s: State, a: Action, t: State) {
    Enabled(s, a) && t == Apply(s, a)
  }

  /** No action is possible. */
  ghost predicate Stuck(s: State) {
    forall a :: !Enabled(s, a)
  }

  function Is(life: Life): Life -> nat {
    l => Bit(l == life)
  }

  /** How many children are in a given stage of life. */
  function Number(cs: seq<Life>, life: Life): nat {
    Sum(Is(life), cs)
  }

  lemma {:induction false} NumberPositive(cs: seq<Life>, life: Life)
    ensures Number(cs, life) > 0 <==> life in cs
  {
    if cs == [] {
    } else {
      assert cs == cs[..|cs| - 1] + [cs[|cs| - 1]];
      NumberPositive(cs[..|cs| - 1], life);
    }
  }

  /** Each child is in exactly one stage. */
  lemma {:induction false} NumbersAddUp(cs: seq<Life>)
    ensures Number(cs, Running) + Number(cs, Zombie) + Number(cs, Reaped) == |cs|
  {
    if cs == [] {
    } else {
      NumbersAddUp(cs[..|cs| - 1]);
    }
  }

  /** How the head counts change, for every action. */
  lemma {:induction false} NumbersAfter(s: State, a: Action, life: Life)
    requires Enabled(s, a)
    ensures Number(Apply(s, a).children, life) == Number(s.children, life) + match a
              case Fork => Bit(life == Running)
              case Die(_) => Bit(life == Zombie) - Bit(life == Running)
              case Reap(_, _) => Bit(life == Reaped) - Bit(life == Zombie)
              case _ => 0
  {
    match a
    case Fork => SumAppend(Is(life), s.children, Running);
    case Die(c) => SumUpdate(Is(life), s.children, c, Zombie);
    case Reap(c, _) => SumUpdate(Is(life), s.children, c, Reaped);
    case _ =>
  }

  /** 1 while a delivered signal has not been counted in sigCnt yet. */
  function Uncounted(s: State): nat {
    Bit(s.pc in {Handler, Tail, Counting})
  }

  ghost predicate Inv(s: State) {
    && s.n >= 1
    && |s.children| <= s.n
    && (s.pc != Forking ==> |s.children| == s.n)
    && s.live == s.n - Number(s.children, Reaped)
    // the heart of the protocol: a death is never forgotten
    && (Number(s.children, Zombie) > 0 && s.pc != Handler ==> s.pending)
    // each delivery consumed a pending bit that some death had set
    && s.sigCnt + Uncounted(s) + Bit(s.pending) <= |s.children| - Number(s.children, Running)
    && (Number(s.children, Reaped) > 0 ==> s.sigCnt + Uncounted(s) >= 1)
    && (s.pc == Suspended ==> s.live > 0)
    && (s.pc == Done ==> s.live <= 0)
  }

  lemma {:induction false} StepKeepsInv(s: State, a: Action)
    requires Inv(s) && Enabled(s, a)
    ensures Inv(Apply(s, a))
  {
    NumbersAfter(s, a, Running);
    NumbersAfter(s, a, Zombie);
    NumbersAfter(s, a, Reaped);
    if a.NoMoreDead? {
      NumberPositive(s.children, Zombie);
    }
  }

  /** An upper bound on the number of steps still possible. */
  function Measure(s: State): nat {
    21 * (if s.n >= |s.children| then s.n - |s.children| else 0)
    + 20 * Number(s.children, Running) + Number(s.children, Zombie) + 8 * Bit(s.pending)
    + match s.pc
      case Forking => 5
      case Testing => 1
      case Suspended => 0
      case Handler => 4
      case Tail => 3
      case Counting => 2
      case Done => 0
  }

  lemma {:induction false} StepLowersMeasure(s: State, a: Action)
    requires Inv(s) && Enabled(s, a)
    ensures Measure(Apply(s, a)) < Measure(s)
  {
    NumbersAfter(s, a, Running);
    NumbersAfter(s, a, Zombie);
  }

  lemma {:induction false} InvIsInductive()
    ensures forall s, t :: Inv(s) && Step(s, t) ==> Inv(t) && Measure(t) < Measure(s) && t.n == s.n
  {
    forall s, t | Inv(s) && Step(s, t) ensures Inv(t) && Measure(t) < Measure(s) && t.n == s.n {
      var a :| Enabled(s, a) && t == Apply(s, a);
      StepKeepsInv(s, a);
      StepLowersMeasure(s, a);
    }
  }

  /** The loop has ended exactly as it should: every child has been reaped. */
  ghost predicate AllReaped(s: State) {
    && |s.children| == s.n
    && (forall c :: 0 <= c < s.n ==> s.children[c] == Reaped)
    && s.live == 0
    && 1 <= s.sigCnt <= s.n
  }

  lemma {:induction false} DoneMeansAllReaped(s: State)
    requires Inv(s) && s.pc == Done
    ensures AllReaped(s)
  {
    NumbersAddUp(s.children);
    NumberPositive(s.children, Running);
    NumberPositive(s.children, Zombie);
  }

  /** Safety on every run, for every N and every interleaving. */
  lemma {:induction false} EveryRunSafe(run: seq<State>, i: nat)
    requires IsRun(Init, Step, run) && i < |run|
    ensures run[i].live == run[i].n - Number(run[i].children, Reaped)
    ensures Zombie in run[i].children && run[i].pc != Handler ==> run[i].pending
    ensures run[i].sigCnt <= run[i].n
    ensures run[i].pc == Done ==> AllReaped(run[i])
    ensures Inv(run[i])
  {
    InvIsInductive();
    Invariance(Init, Step, Inv, run);
    NumberPositive(run[i].children, Zombie);
    if run[i].pc == Done {
      DoneMeansAllReaped(run[i]);
    }
  }

  /** The parent never suspends forever: a good state that is not finished always
      has a step, and one suspended with nothing pending still has a child to die. */
  lemma {:induction false} NeverStuck(s: State) returns (a: Action)
    requires Inv(s) && s.pc != Done
    ensures Enabled(s, a)
    ensures s.pc == Suspended && !s.pending <==> a.Die?
  {
    match s.pc
    case Forking => a := if |s.children| < s.n then Fork else ForksDone;
    case Testing => a := Test;
    case Suspended =>
      if s.pending {
        a := Deliver;
      } else {
        NumbersAddUp(s.children);
        NumberPositive(s.children, Running);
        NumberPositive(s.children, Zombie);
        var c :| 0 <= c < |s.children| && s.children[c] == Running;
        a := Die(c);
      }
    case Handler =>
      if Zombie !in s.children {
        a := NoMoreDead;
      } else {
        var c :| 0 <= c < |s.children| && s.children[c] == Zombie;
        a := Reap(c, false);
      }
    case Tail => a := Return;
    case Counting => a := Count;
  }

  lemma {:induction false} StuckMeansDone(s: State)
    requires Inv(s) && Stuck(s)
    ensures s.pc == Done
  {
    if s.pc != Done {
      var a := NeverStuck(s);
    }
  }

  /** Total correctness under every scheduler: no run is longer than 21N + 5
      steps, and a run that cannot be extended has ended the loop with all N
      children reaped after between 1 and N signals. */
  lemma {:induction false} EveryRunEndsReaped(run: seq<State>)
    requires IsRun(Init, Step, run)
    ensures |run| - 1 <= 21 * run[0].n + 5
    ensures Stuck(run[|run| - 1]) ==> run[|run| - 1].pc == Done && AllReaped(run[|run| - 1])
  {
    InvIsInductive();
    Bounded(Step, Inv, Measure, run);
    var last := run[|run| - 1];
    EveryRunSafe(run, |run| - 1);
    if Stuck(last) {
      StuckMeansDone(last);
    }
  }

  function Delivery(a: Action): nat {
    Bit(a.Deliver?)
  }

  /** sigCnt counts signals: it is the number of deliveries on the run, less one while
      the last is being handled. */
  lemma {:induction false} CountsDeliveries(run: seq<State>, acts: seq<Action>)
    requires Performs(By, acts, run) && Init(run[0])
    ensures run[|acts|].sigCnt + Uncounted(run[|acts|]) == Sum(Delivery, acts)
  {
    Counted(By, acts, run, (s: State) => s.sigCnt + Uncounted(s), Delivery);
  }

  /** The pending signal is gone after this action: delivered, or cleared by waitpid. */
  predicate Clears(a: Action) {
    a.Deliver? || (a.Reap? && a.clears)
  }

  /** Action `j` was a death, and nothing has cleared the signal since. */
  predicate Announced(acts: seq<Action>, j: int, k: int) {
    0 <= j < k <= |acts| && acts[j].Die? && forall m :: j < m < k ==> !Clears(acts[m])
  }

  /** SIGCHLD is pending exactly if some child has died since it was last cleared. */
  lemma {:induction false} PendingExactly(run: seq<State>, acts: seq<Action>, k: nat)
    requires Performs(By, acts, run) && Init(run[0]) && k <= |acts|
    ensures run[k].pending <==> exists j :: Announced(acts, j, k)
  {
    if k == 0 {
    } else {
      var h := k - 1;
      PendingExactly(run, acts, h);
      assert By(run[h], acts[h], run[k]);
      if acts[h].Die? {
        assert Announced(acts, h, k);
      } else {
        if j :| Announced(acts, j, k) {
          assert Announced(acts, j, h) && !Clears(acts[h]);
        }
        if j :| Announced(acts, j, h) {
          assert !Clears(acts[h]) ==> Announced(acts, j, k);
        }
      }
    }
  }

  /** The parent waits for a child to die exactly when it has finished or is in
      sigsuspend with nothing pending, and a running child can die at any time. */
  lemma {:induction false} ParentWaitsExactly(s: State)
    requires Inv(s)
    ensures (forall a :: Enabled(s, a) ==> a.Die?) <==> s.pc == Done || (s.pc == Suspended && !s.pending)
    ensures forall c: nat :: c < |s.children| && s.children[c] == Running ==> Enabled(s, Die(c))
  {
    if s.pc != Done && !(s.pc == Suspended && !s.pending) {
      var a := NeverStuck(s);
    }
  }

  // ----- why the handler loops

  /** The same program with one waitpid call in the handler instead of the loop. */
  function ApplyOnce(s: State, a: Action): State
    requires Enabled(s, a)
  {
    if a.Reap? then Apply(s, a).(pc := Tail) else Apply(s, a)
  }

  ghost predicate StepOnce(s: State, t: State) {
    exists a :: Enabled(s, a) && t == ApplyOnce(s, a)
  }

  /** The parent before anything is delivered: `forked` children, the first `dead` of
      which have died. */
  function Before(n: nat, forked: nat, dead: nat, pc: Pc): State {
    State(n, seq(forked, i => if 0 <= i < dead then Zombie else Running), dead > 0, n, 0, pc)
  }

  /** Both programs do the same where waitpid is not called. */
  ghost predicate SameOutside(step: (State, State) -> bool) {
    forall s, a :: Enabled(s, a) && !a.Reap? ==> step(s, Apply(s, a))
  }

  lemma {:induction false} OneMore(step: (State, State) -> bool, s: State, t: State, a: Action)
    requires SameOutside(step) && Reaches(step, s, t) && Enabled(t, a) && !a.Reap?
    ensures Reaches(step, s, Apply(t, a))
  {
    ReachesStep(step, s, t, Apply(t, a));
  }

  lemma {:induction false} ForkAll(step: (State, State) -> bool, n: nat, k: nat)
    requires SameOutside(step) && k <= n
    ensures Reaches(step, Before(n, 0, 0, Forking), Before(n, k, 0, Forking))
  {
    if k == 0 {
      ReachesSelf(step, Before(n, 0, 0, Forking));
    } else {
      ForkAll(step, n, k - 1);
      var t := Before(n, k - 1, 0, Forking);
      OneMore(step, Before(n, 0, 0, Forking), t, Fork);
      assert Apply(t, Fork) == Before(n, k, 0, Forking);
    }
  }

  lemma {:induction false} SomeDie(step: (State, State) -> bool, n: nat, k: nat)
    requires SameOutside(step) && k <= n && n > 0
    ensures Reaches(step, Before(n, 0, 0, Forking), Before(n, n, k, Suspended))
  {
    var s := Before(n, 0, 0, Forking);
    if k == 0 {
      ForkAll(step, n, n);
      OneMore(step, s, Before(n, n, 0, Forking), ForksDone);
      OneMore(step, s, Before(n, n, 0, Testing), Test);
    } else {
      SomeDie(step, n, k - 1);
      var t := Before(n, n, k - 1, Suspended);
      OneMore(step, s, t, Die(k - 1));
      assert Apply(t, Die(k - 1)) == Before(n, n, k, Suspended);
    }
  }

  /** From the handler on: one child is reaped, and the parent suspends again. */
  lemma {:induction false} OneIsReaped(s: State) returns (t: State)
    requires s.pc == Handler && |s.children| > 0 && s.children[0] == Zombie && s.live > 1
    ensures Reaches(StepOnce, s, t)
    ensures t == s.(children := s.children[0 := Reaped], live := s.live - 1, sigCnt := s.sigCnt + 1, pc := Suspended)
  {
    ReachesSelf(StepOnce, s);
    var t1 := ApplyOnce(s, Reap(0, false));
    assert StepOnce(s, t1);
    ReachesStep(StepOnce, s, s, t1);
    OneMore(StepOnce, s, t1, Return);
    OneMore(StepOnce, s, Apply(t1, Return), Count);
    OneMore(StepOnce, s, Apply(Apply(t1, Return), Count), Test);
    t := Apply(Apply(Apply(t1, Return), Count), Test);
  }

  /** With a single waitpid, for every N of at least 2, some run leaves the parent
      suspended forever with N - 1 children not reaped. */
  lemma {:induction false} OneWaitGetsStuck(n: nat) returns (s: State, t: State)
    requires n >= 2
    ensures Init(s) && s.n == n && Reaches(StepOnce, s, t)
    ensures Stuck(t) && t.pc == Suspended && t.live == n - 1 && Number(t.children, Zombie) == n - 1
  {
    s := Before(n, 0, 0, Forking);
    assert s == State(n, [], false, n, 0, Forking);
    SomeDie(StepOnce, n, n);
    var dead := Before(n, n, n, Suspended);
    OneMore(StepOnce, s, dead, Deliver);
    t := OneIsReaped(Apply(dead, Deliver));
    ReachesTrans(StepOnce, s, Apply(dead, Deliver), t);
    AllOfOneKind(dead.children, Zombie);
    SumUpdate(Is(Zombie), dead.children, 0, Reaped);
  }

  lemma {:induction false} AllOfOneKind(cs: seq<Life>, life: Life)
    requires forall c :: 0 <= c < |cs| ==> cs[c] == life
    ensures Number(cs, life) == |cs|
  {
    if cs == [] {
    } else {
      AllOfOneKind(cs[..|cs| - 1], life);
    }
  }

  // ----- how many signals there can be

  /** All `n` children forked; the first `reaped` have been waited for, and those up to
      `dead` have died. */
  function Stage(n: nat, reaped: nat, dead: nat, pending: bool, sigCnt: nat, pc: Pc): State {
    State(n, seq(n, i => if 0 <= i < reaped then Reaped else if 0 <= i < dead then Zombie else Running), pending, n - reaped,
          sigCnt, pc)
  }

  lemma {:induction false} StepsAreSame()
    ensures SameOutside(Step)
  {
    forall s, a | Enabled(s, a) && !a.Reap? ensures Step(s, Apply(s, a)) {
    }
  }

  /** The handler's loop. */
  lemma {:induction false} ReapAll(n: nat, reaped: nat, dead: nat, sigCnt: nat)
    requires reaped <= dead <= n
    ensures Reaches(Step, Stage(n, reaped, dead, false, sigCnt, Handler), Stage(n, dead, dead, false, sigCnt, Handler))
    decreases dead - reaped
  {
    var s := Stage(n, reaped, dead, false, sigCnt, Handler);
    ReachesSelf(Step, s);
    if reaped < dead {
      var t := Stage(n, reaped + 1, dead, false, sigCnt, Handler);
      assert Enabled(s, Reap(reaped, false));
      assert Apply(s, Reap(reaped, false)).children == t.children;
      assert Step(s, t);
      ReachesStep(Step, s, s, t);
      ReapAll(n, reaped + 1, dead, sigCnt);
      ReachesTrans(Step, s, t, Stage(n, dead, dead, false, sigCnt, Handler));
    }
  }

  /** The rest of the loop body, after the last waitpid call: one more child, if there
      is one, dies then, and its signal stays pending. */
  lemma {:induction false} LateDeath(n: nat, dead: nat, sigCnt: nat)
    requires dead <= n
    ensures Reaches(Step, Stage(n, dead, dead, false, sigCnt, Tail), AfterSignal(n, dead, sigCnt + 1))
  {
    StepsAreSame();
    var s := Stage(n, dead, dead, false, sigCnt, Tail);
    ReachesSelf(Step, s);
    var next := if dead < n then dead + 1 else n;
    if dead < n {
      OneMore(Step, s, s, Die(dead));
      assert Apply(s, Die(dead)).children == Stage(n, dead, next, true, sigCnt, Tail).children;
    }
    OneMore(Step, s, Stage(n, dead, next, dead < n, sigCnt, Tail), Return);
    OneMore(Step, s, Stage(n, dead, next, dead < n, sigCnt, Counting), Count);
    OneMore(Step, s, Stage(n, dead, next, dead < n, sigCnt + 1, Testing), Test);
  }

  function AfterSignal(n: nat, dead: nat, sigCnt: nat): State {
    if dead < n then Stage(n, dead, dead + 1, true, sigCnt, Suspended) else Stage(n, n, n, false, sigCnt, Done)
  }

  /** One signal, which all that are dead are reaped for. */
  lemma {:induction false} OneSignal(n: nat, reaped: nat, dead: nat, sigCnt: nat)
    requires reaped <= dead <= n
    ensures Reaches(Step, Stage(n, reaped, dead, true, sigCnt, Suspended), AfterSignal(n, dead, sigCnt + 1))
  {
    StepsAreSame();
    var s := Stage(n, reaped, dead, true, sigCnt, Suspended);
    ReachesSelf(Step, s);
    OneMore(Step, s, s, Deliver);
    ReapAll(n, reaped, dead, sigCnt);
    var t := Stage(n, dead, dead, false, sigCnt, Handler);
    ReachesTrans(Step, s, Stage(n, reaped, dead, false, sigCnt, Handler), t);
    OneMore(Step, s, t, NoMoreDead);
    LateDeath(n, dead, sigCnt);
    ReachesTrans(Step, s, Stage(n, dead, dead, false, sigCnt, Tail), AfterSignal(n, dead, sigCnt + 1));
  }

  lemma {:induction false} SomeSignals(n: nat, m: nat, k: nat)
    requires 0 < m && m + k <= n
    ensures Reaches(Step, Before(n, 0, 0, Forking), Stage(n, if k == 0 then 0 else m + k - 1, m + k, true, k, Suspended))
  {
    if k == 0 {
      StepsAreSame();
      SomeDie(Step, n, m);
      assert Before(n, n, m, Suspended).children == Stage(n, 0, m, true, 0, Suspended).children;
    } else {
      SomeSignals(n, m, k - 1);
      var reaped := if k == 1 then 0 else m + k - 2;
      OneSignal(n, reaped, m + k - 1, k - 1);
      ReachesTrans(Step, Before(n, 0, 0, Forking), Stage(n, reaped, m + k - 1, true, k - 1, Suspended),
                   Stage(n, m + k - 1, m + k, true, k, Suspended));
    }
  }

  /** N children can be reaped with k signals exactly if k is from 1 to N. */
  lemma {:induction false} SignalsExactly(n: nat, k: nat)
    requires n >= 1
    ensures 1 <= k <= n <==> exists s, t :: Init(s) && s.n == n && Reaches(Step, s, t) && t.pc == Done && t.sigCnt == k
  {
    if 1 <= k <= n {
      var s := Before(n, 0, 0, Forking);
      assert s == State(n, [], false, n, 0, Forking);
      var m := n - k + 1;
      SomeSignals(n, m, k - 1);
      var reaped := if k == 1 then 0 else n - 1;
      OneSignal(n, reaped, n, k - 1);
      ReachesTrans(Step, s, Stage(n, reaped, n, true, k - 1, Suspended), Stage(n, n, n, false, k, Done));
    }
    forall s, t | Init(s) && s.n == n && Reaches(Step, s, t) && t.pc == Done && t.sigCnt == k ensures 1 <= k <= n {
      var run :| Leads(Step, s, t, run);
      EveryRunSafe(run, |run| - 1);
      NumberStays(run, |run| - 1);
    }
  }

  lemma {:induction false} NumberStays(run: seq<State>, i: nat)
    requires IsRun(Init, Step, run) && i < |run|
    ensures run[i].n == run[0].n
  {
    Invariance(s => s == run[0], Step, (s: State) => s.n == run[0].n, run);
  }
}
