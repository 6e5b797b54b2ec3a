/** mq_notify_sig.c: wait for the notification signal in sigsuspend, register
    again, then drain the queue. `order` selects the program as written or the
    same program with the drain moved in front of the registration. */
module MqNotifySig {
  import opened Runs
  import opened Sums
  import opened Actions
  import opened MessageQueue

  datatype Order = AsWritten | DrainFirst

  /** `Failed`: mq_notify found a registration in place and errExit was called. */
  datatype Pc = Suspended | Reregistering | Draining | Failed

  datatype State = State(order: Order, mq: Mq, pending: bool, pc: Pc)

  datatype Action =
    | Arrival(m: Msg)    // another process sends
    | Wake               // the pending signal is delivered and sigsuspend returns
    | Notify             // mq_notify
    | Take               // mq_receive returns a message
    | Eagain             // mq_receive finds the queue empty

  ghost predicate Init(s: State, order: Order, backlog: seq<Msg>) {
    s == State(order, FirstRegistration(backlog), false, Suspended)
  }

  predicate Enabled(s: State, a: Action) {
    match a
    case Arrival(_) => true
    case Wake => s.pc == Suspended && s.pending
    case Notify => s.pc == Reregistering
    case Take => s.pc == Draining && s.mq.queue != []
    case Eagain => s.pc == Draining && s.mq.queue == []
  }

  function Apply(s: State, a: Action): State
    requires Enabled(s, a)
  {
    match a
    case Arrival(m) => s.(mq := Arrive(s.mq, m), pending := s.pending || Notifies(s.mq))
    case Wake => s.(pending := false, pc := if s.order == AsWritten then Reregistering else Draining)
    case Notify =>
      if s.mq.registered then s.(pc := Failed)
      else s.(mq := s.mq.(registered := true), pc := if s.order == AsWritten then Draining else Suspended)
    case Take => s.(mq := Receive(s.mq))
    case Eagain => s.(pc := if s.order == AsWritten then Suspended else Reregistering)
  }

  ghost predicate Step(s: State, t: State) {
    exists a :: Enabled(s, a) && t == Apply(s, a)
  }

  /** A step of the program itself. */
  ghost predicate OwnStep(s: State, t: State) {
    exists a: Action :: !a.Arrival? && Enabled(s, a) && t == Apply(s, a)
  }

  /** The program cannot move before another message arrives. */
  ghost predicate Waiting(s: State) {
    forall a :: Enabled(s, a) ==> a.Arrival?
  }

  /** Waiting, registered, with messages that no arrival will ever announce. */
  ghost predicate Stranded(s: State) {
    s.pc == Suspended && !s.pending && s.mq.registered && s.mq.queue != []
  }

  ghost predicate Inv(s: State) {
    && s.order == AsWritten
    && Conserves(s.mq)
    && s.pc != Failed
    && (s.pc == Reregistering ==> !s.mq.registered && !s.pending)
    && (s.pc != Reregistering ==> s.mq.registered == !s.pending)
    && (s.pc == Suspended && !s.pending ==> s.mq.queue == [])
  }

  lemma {:induction false} StepKeepsInv(s: State, a: Action)
    requires Inv(s) && Enabled(s, a)
    ensures Inv(Apply(s, a))
  {
    match a
    case Arrival(m) => ArriveConserves(s.mq, m);
    case Take => ReceiveConserves(s.mq);
    case _ =>
  }

  /** On every run that starts with an empty queue: whenever the loop is at
      sigsuspend, either the registration is live and the queue is empty or the
      signal is pending; mq_notify never finds a registration in place; and a
      waiting program has received everything that was ever sent, in order within
      each priority. */
  lemma {:induction false} EveryRunSafe(run: seq<State>, i: nat)
    requires IsRun(s => Init(s, AsWritten, []), Step, run) && i < |run|
    ensures run[i].pc == Suspended ==> (run[i].mq.registered && run[i].mq.queue == []) || run[i].pending
    ensures run[i].pc == Reregistering ==> !run[i].mq.registered
    ensures run[i].pc != Failed && !Stranded(run[i])
    ensures Waiting(run[i]) ==> AllReceived(run[i].mq) && run[i].mq.registered
    ensures Inv(run[i])
  {
    forall s, t | Inv(s) && Step(s, t) ensures Inv(t) {
      var a :| Enabled(s, a) && t == Apply(s, a);
      StepKeepsInv(s, a);
    }
    Invariance(s => Init(s, AsWritten, []), Step, Inv, run);
    var s := run[i];
    if Waiting(s) {
      assert !Enabled(s, Wake) && !Enabled(s, Notify) && !Enabled(s, Take) && !Enabled(s, Eagain);
      EmptyMeansAllReceived(s.mq);
    }
  }

  function Measure(s: State): nat {
    |s.mq.queue| + (if s.pending then 5 else 0)
    + match s.pc case Suspended => 0 case Draining => 1 case Reregistering => 2 case Failed => 0
  }

  /** Between arrivals the program takes only finitely many steps, so it always
      gets back to waiting with nothing unread. */
  lemma {:induction false} DrainsInBoundedTime(run: seq<State>)
    requires |run| > 0 && Inv(run[0]) && Follows(OwnStep, run)
    ensures |run| - 1 <= |run[0].mq.queue| + 7
  {
    forall s, t | Inv(s) && OwnStep(s, t) ensures Inv(t) && Measure(t) < Measure(s) {
      var a: Action :| !a.Arrival? && Enabled(s, a) && t == Apply(s, a);
      StepKeepsInv(s, a);
    }
    Bounded(OwnStep, Inv, Measure, run);
  }

  ghost predicate By(s: State, a: Action, t: State) {
    Enabled(s, a) && t == Apply(s, a)
  }

  function Messages(a: Action): seq<Msg> {
    if a.Arrival? then [a.m] else []
  }

  function Takes(a: Action): nat {
    Bit(a.Take?)
  }

  /** What was sent is what arrived on the run, and as many messages were received as
      mq_receive returned. */
  lemma {:induction false} SentIsArrivals(run: seq<State>, acts: seq<Action>)
    requires Performs(By, acts, run)
    ensures run[|acts|].mq.sent == run[0].mq.sent + Collected(Messages, acts)
    ensures |run[|acts|].mq.received| == |run[0].mq.received| + Sum(Takes, acts)
  {
    Recorded(By, acts, run, (s: State) => s.mq.sent, Messages);
    Counted(By, acts, run, (s: State) => |s.mq.received|, Takes);
  }

  /** Every message received was, at that moment, the oldest of the highest priority. */
  lemma {:induction false} EachIsNext(run: seq<State>, i: nat)
    requires |run| > 0 && Follows(Step, run) && i + 1 < |run|
    ensures run[i + 1].mq.received == run[i].mq.received || Delivers(run[i].mq, run[i + 1].mq)
  {
    var s, t := run[i], run[i + 1];
    assert Step(s, t);
    var a :| Enabled(s, a) && t == Apply(s, a);
    if a.Take? {
      ReceiveDelivers(s.mq);
    }
  }

  /** Between arrivals, messages are received by falling priority. */
  lemma {:induction false} DrainsByPriority(run: seq<State>, i: nat)
    requires |run| > 0 && Follows(OwnStep, run) && i < |run|
    ensures Falling(run[i].mq, |run[0].mq.received|)
  {
    var from := |run[0].mq.received|;
    var falling := (s: State) => Falling(s.mq, from);
    forall s, t | falling(s) && OwnStep(s, t) ensures falling(t) {
      var a: Action :| !a.Arrival? && Enabled(s, a) && t == Apply(s, a);
      if a.Take? {
        ReceiveFalls(s.mq, from);
      }
    }
    Invariance(s => s == run[0], OwnStep, falling, run);
    assert falling(run[i]);
  }

  lemma {:induction false} OneMore(s: State, t: State, a: Action)
    requires Reaches(Step, s, t) && Enabled(t, a)
    ensures Reaches(Step, s, Apply(t, a))
  {
    ReachesStep(Step, s, t, Apply(t, a));
  }

  /** The messages `ms` arrive, one after the other. */
  lemma {:induction false} AllArrive(s: State, ms: seq<Msg>) returns (t: State)
    requires Inv(s)
    ensures Inv(t) && Reaches(Step, s, t) && t.mq.sent == s.mq.sent + ms
  {
    if ms == [] {
      t := s;
      ReachesSelf(Step, s);
    } else {
      var k := |ms| - 1;
      var u := AllArrive(s, ms[..k]);
      assert Enabled(u, Arrival(ms[k]));
      OneMore(s, u, Arrival(ms[k]));
      StepKeepsInv(u, Arrival(ms[k]));
      t := Apply(u, Arrival(ms[k]));
    }
  }

  /** The program goes on alone until it waits. */
  lemma {:induction false} Settles(s: State) returns (t: State)
    requires Inv(s)
    ensures Inv(t) && Reaches(Step, s, t) && Waiting(t) && t.mq.sent == s.mq.sent
    decreases Measure(s)
  {
    ReachesSelf(Step, s);
    if a: Action :| !a.Arrival? && Enabled(s, a) {
      OneMore(s, s, a);
      StepKeepsInv(s, a);
      t := Settles(Apply(s, a));
      ReachesTrans(Step, s, Apply(s, a), t);
    } else {
      t := s;
    }
  }

  /** At whatever point of the loop messages arrive, they can all be received. */
  lemma {:induction false} CatchesUp(run: seq<State>, ms: seq<Msg>) returns (t: State)
    requires IsRun(s => Init(s, AsWritten, []), Step, run)
    ensures Reaches(Step, run[|run| - 1], t) && Waiting(t)
    ensures t.mq.sent == run[|run| - 1].mq.sent + ms && AllReceived(t.mq)
  {
    var s := run[|run| - 1];
    EveryRunSafe(run, |run| - 1);
    var u := AllArrive(s, ms);
    t := Settles(u);
    ReachesTrans(Step, s, u, t);
    assert !Enabled(t, Wake) && !Enabled(t, Notify) && !Enabled(t, Take) && !Enabled(t, Eagain);
    EmptyMeansAllReceived(t.mq);
  }

  lemma {:induction false} StrandedStep(s: State, t: State)
    requires Stranded(s) && Step(s, t)
    ensures Stranded(t) && t.mq.received == s.mq.received && s.mq.queue <= t.mq.queue
  {
  }

  /** Once stranded, whatever arrives, the program never reads again, and all that
      is queued stays queued. */
  lemma {:induction false} StrandedForever(run: seq<State>, i: nat)
    requires |run| > 0 && Stranded(run[0]) && Follows(Step, run) && i < |run|
    ensures Stranded(run[i])
    ensures run[i].mq.received == run[0].mq.received && run[0].mq.queue <= run[i].mq.queue
  {
    var first := run[0];
    var kept := (s: State) => Stranded(s) && s.mq.received == first.mq.received && first.mq.queue <= s.mq.queue;
    forall s, t | kept(s) && Step(s, t) ensures kept(t) {
      StrandedStep(s, t);
    }
    Invariance(s => s == first, Step, kept, run);
  }

  /** The empty queue at first registration is necessary: with a backlog, in
      either order, nothing is ever received on any run. */
  lemma {:induction false} BacklogIsNeverRead(order: Order, backlog: seq<Msg>, run: seq<State>, i: nat)
    requires backlog != []
    requires IsRun(s => Init(s, order, backlog), Step, run) && i < |run|
    ensures Stranded(run[i]) && run[i].mq.received == [] && backlog <= run[i].mq.queue
  {
    StrandedForever(run, i);
  }

  /** A message is in the queue when the reordered program registers, although
      its mq_receive has reported the queue empty. */
  predicate Slips(s: State, t: State) {
    s.pc == Reregistering && t.pc != Reregistering && s.mq.queue != []
  }

  ghost predicate DrainFirstInv(s: State) {
    && s.order == DrainFirst
    && s.pc != Failed
    && (s.pc == Suspended ==> s.mq.registered == !s.pending)
    && (s.pc != Suspended ==> !s.mq.registered && !s.pending)
  }

  lemma {:induction false} DrainFirstStep(s: State, t: State)
    requires DrainFirstInv(s) && Step(s, t)
    ensures DrainFirstInv(t)
    ensures Stranded(t) <==> Stranded(s) || Slips(s, t)
  {
  }

  /** With the drain moved before the registration, a run is stranded exactly
      from the first message that slips in between the two. */
  lemma {:induction false} DrainFirstStrandsExactly(run: seq<State>, i: nat)
    requires IsRun(s => Init(s, DrainFirst, []), Step, run) && i < |run|
    ensures DrainFirstInv(run[i])
    ensures Stranded(run[i]) <==> exists j, k :: 0 <= j && k == j + 1 <= i && Slips(run[j], run[k])
  {
    if i == 0 {
    } else {
      DrainFirstStrandsExactly(run, i - 1);
      DrainFirstStep(run[i - 1], run[i]);
    }
  }

  /** ... and that does happen: a run of the reordered program, started on an
      empty queue, that strands the second message. */
  lemma {:induction false} DrainFirstLosesMessages(first: Msg, second: Msg) returns (run: seq<State>)
    ensures IsRun(s => Init(s, DrainFirst, []), Step, run)
    ensures Stranded(run[|run| - 1]) && run[|run| - 1].mq.queue == [second]
  {
    var s0 := State(DrainFirst, FirstRegistration([]), false, Suspended);
    var s1 := Apply(s0, Arrival(first));
    var s2 := Apply(s1, Wake);
    var s3 := Apply(s2, Take);
    assert s2.mq.queue == [first] && s3.mq.queue == [];
    var s4 := Apply(s3, Eagain);
    var s5 := Apply(s4, Arrival(second));
    var s6 := Apply(s5, Notify);
    run := [s0, s1, s2, s3, s4, s5, s6];
    assert Step(s0, s1) && Step(s1, s2) && Step(s2, s3) && Step(s3, s4) && Step(s4, s5) && Step(s5, s6);
  }
}
