/** mq_notify_thread.c: every notification starts a new thread, which registers
    again and then drains the queue, so any number of threads may be draining at
    once. */
module MqNotifyThread {
  import opened Runs
  import opened Sums
  import opened Actions
  import opened MessageQueue

  /** `Starting`: before notifySetup. `Gone`: has seen EAGAIN and exited. */
  datatype Pc = Starting | Draining | Gone

  /** `failed`: some mq_notify found a registration in place (errExit). */
  datatype State = State(mq: Mq, threads: seq<Pc>, failed: bool)

  datatype Action =
    | Arrival(m: Msg)
    | Notify(thread: nat)
    | Take(thread: nat)
    | Eagain(thread: nat)

  /** `main` has just registered on a queue that held `backlog`. */
  ghost predicate Init(s: State, backlog: seq<Msg>) {
    s == State(FirstRegistration(backlog), [], false)
  }

  predicate Enabled(s: State, a: Action) {
    match a
    case Arrival(_) => true
    case Notify(i) => !s.failed && i < |s.threads| && s.threads[i] == Starting
    case Take(i) => !s.failed && i < |s.threads| && s.threads[i] == Draining && s.mq.queue != []
    case Eagain(i) => !s.failed && i < |s.threads| && s.threads[i] == Draining && s.mq.queue == []
  }

  function Apply(s: State, a: Action): State
    requires Enabled(s, a)
  {
    match a
    case Arrival(m) =>
      s.(mq := Arrive(s.mq, m), threads := s.threads + if Notifies(s.mq) && !s.failed then [Starting] else [])
    case Notify(i) =>
      if s.mq.registered then s.(failed := true)
      else s.(mq := s.mq.(registered := true), threads := s.threads[i := Draining])
    case Take(i) => s.(mq := Receive(s.mq))
    case Eagain(i) => s.(threads := s.threads[i := Gone])
  }

  ghost predicate Step(s: State, t: State) {
    exists a :: Enabled(s, a) && t == Apply(s, a)
  }

  ghost predicate OwnStep(s: State, t: State) {
    exists a: Action :: !a.Arrival? && Enabled(s, a) && t == Apply(s, a)
  }

  ghost predicate Waiting(s: State) {
    forall a :: Enabled(s, a) ==> a.Arrival?
  }

  /** Thread `i` has not yet seen EAGAIN. */
  predicate Active(s: State, i: nat) {
    i < |s.threads| && s.threads[i] != Gone
  }

  predicate StartingAt(s: State, i: nat) {
    i < |s.threads| && s.threads[i] == Starting
  }

  ghost predicate Inv(s: State) {
    && Conserves(s.mq)
    && !s.failed
    // the registration is a token: held by the slot or by the one thread about to restore it
    && (s.mq.registered <==> !exists i :: StartingAt(s, i))
    && (forall i, j :: StartingAt(s, i) && StartingAt(s, j) ==> i == j)
    && (s.mq.queue != [] ==> exists i :: Active(s, i))
  }

  lemma {:induction false} ArrivalKeepsInv(s: State, m: Msg)
    requires Inv(s)
    ensures Inv(Apply(s, Arrival(m)))
  {
    var t := Apply(s, Arrival(m));
    ArriveConserves(s.mq, m);
    var k := |s.threads|;
    assert forall i: nat :: i < k ==> StartingAt(t, i) == StartingAt(s, i) && Active(t, i) == Active(s, i);
    if Notifies(s.mq) {
      assert StartingAt(t, k) && Active(t, k);
    } else {
      assert t.threads == s.threads;
      if s.mq.queue == [] {
        var i :| StartingAt(s, i);
        assert Active(t, i);
      } else {
        var i :| Active(s, i);
        assert Active(t, i);
      }
    }
  }

  lemma {:induction false} StepKeepsInv(s: State, a: Action)
    requires Inv(s) && Enabled(s, a)
    ensures Inv(Apply(s, a))
  {
    var t := Apply(s, a);
    match a
    case Arrival(m) => ArrivalKeepsInv(s, m);
    case Notify(i) =>
      assert StartingAt(s, i);
      assert forall j :: StartingAt(t, j) ==> StartingAt(s, j) && j != i;
      assert Active(t, i);
    case Take(i) =>
      ReceiveConserves(s.mq);
      assert Active(t, i);
      assert forall j :: StartingAt(t, j) == StartingAt(s, j);
    case Eagain(i) =>
      assert forall j :: StartingAt(t, j) == StartingAt(s, j);
  }

  /** For any number of threads and any interleaving, from an empty queue: a
      message in the queue always has a thread that will still look at it,
      mq_notify is never called on a live registration, and when no thread can
      move every message has been received, in order within each priority, and the
      slot is armed. */
  lemma {:induction false} EveryRunSafe(run: seq<State>, k: nat)
    requires IsRun(s => Init(s, []), Step, run) && k < |run|
    ensures run[k].mq.queue != [] ==> exists i :: Active(run[k], i)
    ensures forall i :: StartingAt(run[k], i) ==> !run[k].mq.registered
    ensures !run[k].failed
    ensures Waiting(run[k]) ==> AllReceived(run[k].mq) && run[k].mq.registered
    ensures Inv(run[k])
  {
    forall s, t | Inv(s) && Step(s, t) ensures Inv(t) {
      var a :| Enabled(s, a) && t == Apply(s, a);
      StepKeepsInv(s, a);
    }
    Invariance(s => Init(s, []), Step, Inv, run);
    if Waiting(run[k]) {
      WaitingIsDrained(run[k]);
    }
  }

  lemma {:induction false} WaitingIsDrained(s: State)
    requires Inv(s) && Waiting(s)
    ensures AllReceived(s.mq) && s.mq.registered
  {
    forall i: nat ensures !Active(s, i) {
      assert Active(s, i) <==> Enabled(s, Notify(i)) || Enabled(s, Take(i)) || Enabled(s, Eagain(i));
    }
    assert forall i :: StartingAt(s, i) ==> Active(s, i);
    EmptyMeansAllReceived(s.mq);
  }

  /** Two steps for a thread that has not registered, one for a draining one. */
  function Steps(pc: Pc): nat {
    match pc case Starting => 2 case Draining => 1 case Gone => 0
  }

  function Measure(s: State): nat { |s.mq.queue| + Sum(Steps, s.threads) }

  lemma {:induction false} OwnStepLowers(s: State, a: Action)
    requires Inv(s) && Enabled(s, a) && !a.Arrival?
    ensures Inv(Apply(s, a)) && Measure(Apply(s, a)) < Measure(s)
  {
    StepKeepsInv(s, a);
    match a
    case Notify(i) => assert StartingAt(s, i); SumUpdate(Steps, s.threads, i, Draining);
    case Take(i) =>
    case Eagain(i) => SumUpdate(Steps, s.threads, i, Gone);
  }

  /** Between arrivals all threads together take at most one step per queued
      message plus two per thread, so the queue is always drained. */
  lemma {:induction false} DrainsInBoundedTime(run: seq<State>)
    requires |run| > 0 && Inv(run[0]) && Follows(OwnStep, run)
    ensures |run| - 1 <= |run[0].mq.queue| + Sum(Steps, run[0].threads)
  {
    forall s, t | Inv(s) && OwnStep(s, t) ensures Inv(t) && Measure(t) < Measure(s) {
      var a: Action :| !a.Arrival? && Enabled(s, a) && t == Apply(s, a);
      OwnStepLowers(s, a);
    }
    Bounded(OwnStep, Inv, Measure, run);
  }

  ghost predicate By(s: State, a: Action, t: State) {
    Enabled(s, a) && t == Apply(s, a)
  }

  function Messages(a: Action): seq<Msg> {
    if a.Arrival? then [a.m] else []
  }

  function Takes(a: Action): nat {
    Bit(a.Take?)
  }

  /** What was sent is what arrived on the run, and as many messages were received as
      mq_receive returned, in all threads together. */
  lemma {:induction false} SentIsArrivals(run: seq<State>, acts: seq<Action>)
    requires Performs(By, acts, run)
    ensures run[|acts|].mq.sent == run[0].mq.sent + Collected(Messages, acts)
    ensures |run[|acts|].mq.received| == |run[0].mq.received| + Sum(Takes, acts)
  {
    Recorded(By, acts, run, (s: State) => s.mq.sent, Messages);
    Counted(By, acts, run, (s: State) => |s.mq.received|, Takes);
  }

  /** Every message received, by whatever thread, was at that moment the oldest of the
      highest priority. */
  lemma {:induction false} EachIsNext(run: seq<State>, i: nat)
    requires |run| > 0 && Follows(Step, run) && i + 1 < |run|
    ensures run[i + 1].mq.received == run[i].mq.received || Delivers(run[i].mq, run[i + 1].mq)
  {
    var s, t := run[i], run[i + 1];
    assert Step(s, t);
    var a :| Enabled(s, a) && t == Apply(s, a);
    if a.Take? {
      ReceiveDelivers(s.mq);
    }
  }

  lemma {:induction false} OneMore(s: State, t: State, a: Action)
    requires Reaches(Step, s, t) && Enabled(t, a)
    ensures Reaches(Step, s, Apply(t, a))
  {
    ReachesStep(Step, s, t, Apply(t, a));
  }

  lemma {:induction false} OneArrives(s: State, t: State, m: Msg) returns (u: State)
    requires Inv(t) && Reaches(Step, s, t)
    ensures Inv(u) && Reaches(Step, s, u) && u.mq.sent == t.mq.sent + [m]
  {
    u := Apply(t, Arrival(m));
    OneMore(s, t, Arrival(m));
    ArrivalKeepsInv(t, m);
  }

  /** The messages `ms` arrive, one after the other. */
  lemma {:induction false} AllArrive(s: State, ms: seq<Msg>) returns (t: State)
    requires Inv(s)
    ensures Inv(t) && Reaches(Step, s, t) && t.mq.sent == s.mq.sent + ms
  {
    if ms == [] {
      t := s;
      ReachesSelf(Step, s);
    } else {
      var k := |ms| - 1;
      var u := AllArrive(s, ms[..k]);
      t := OneArrives(s, u, ms[k]);
    }
  }

  /** The threads go on alone until none can move. */
  lemma {:induction false} Settles(s: State) returns (t: State)
    requires Inv(s)
    ensures Inv(t) && Reaches(Step, s, t) && Waiting(t) && t.mq.sent == s.mq.sent
    decreases Measure(s)
  {
    ReachesSelf(Step, s);
    if a: Action :| !a.Arrival? && Enabled(s, a) {
      OneMore(s, s, a);
      OwnStepLowers(s, a);
      t := Settles(Apply(s, a));
      ReachesTrans(Step, s, Apply(s, a), t);
    } else {
      t := s;
    }
  }

  /** Whatever the threads are doing when messages arrive, they can all be received. */
  lemma {:induction false} CatchesUp(run: seq<State>, ms: seq<Msg>) returns (t: State)
    requires IsRun(s => Init(s, []), Step, run)
    ensures Reaches(Step, run[|run| - 1], t) && Waiting(t)
    ensures t.mq.sent == run[|run| - 1].mq.sent + ms && AllReceived(t.mq)
  {
    var s := run[|run| - 1];
    EveryRunSafe(run, |run| - 1);
    var u := AllArrive(s, ms);
    t := Settles(u);
    ReachesTrans(Step, s, u, t);
    WaitingIsDrained(t);
  }

  /** The empty queue at first registration is necessary: with a backlog no
      thread is ever started and nothing is ever received, on any run. */
  lemma {:induction false} BacklogIsNeverRead(backlog: seq<Msg>, run: seq<State>, k: nat)
    requires backlog != []
    requires IsRun(s => Init(s, backlog), Step, run) && k < |run|
    ensures run[k].threads == [] && run[k].mq.received == [] && backlog <= run[k].mq.queue
  {
    var kept := (s: State) => s.threads == [] && s.mq.received == [] && backlog <= s.mq.queue && s.mq.registered;
    Invariance(s => Init(s, backlog), Step, kept, run);
  }
}
