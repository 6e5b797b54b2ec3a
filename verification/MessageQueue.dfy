/** A POSIX message queue with its single one-shot registration slot
    (POSIX.1-2008, mq_notify and mq_receive). One process consumes, through a
    non-blocking descriptor, so an arriving message never meets a waiting
    receiver. `sent` and `received` record the history. */
module MessageQueue {
  import opened Sequences

  datatype Msg = Msg(body: nat, prio: nat)

  /** `queue` in order of arrival. */
  datatype Mq = Mq(queue: seq<Msg>, registered: bool, sent: seq<Msg>, received: seq<Msg>)

  /** A queue that already holds `backlog` at the moment of the first registration. */
  function FirstRegistration(backlog: seq<Msg>): Mq {
    Mq(backlog, true, backlog, [])
  }

  /** Only an arrival on an empty queue uses up the registration. */
  predicate Notifies(q: Mq) {
    q.registered && q.queue == []
  }

  function Arrive(q: Mq, m: Msg): Mq {
    q.(queue := q.queue + [m], sent := q.sent + [m], registered := q.registered && !Notifies(q))
  }

  /** Position of the oldest of the messages with the highest priority. */
  function Next(queue: seq<Msg>): (k: nat)
    requires queue != []
    ensures k < |queue|
    ensures forall j :: 0 <= j < |queue| ==> queue[j].prio <= queue[k].prio
    ensures forall j :: 0 <= j < k ==> queue[j].prio < queue[k].prio
  {
    var last := |queue| - 1;
    if last == 0 then 0
    else
      var k := Next(queue[..last]);
      if queue[last].prio > queue[k].prio then last else k
  }

  /** mq_receive */
  function Receive(q: Mq): Mq
    requires q.queue != []
  {
    var k := Next(q.queue);
    q.(queue := Removed(q.queue, k), received := q.received + [q.queue[k]])
  }

  /** The message at position `k` is the next to go: none has a higher priority, and of
      its own priority it is the oldest. */
  ghost predicate GoesNext(queue: seq<Msg>, k: nat) {
    && k < |queue|
    && (forall j :: 0 <= j < |queue| ==> queue[j].prio <= queue[k].prio)
    && (forall j :: 0 <= j < k ==> queue[j].prio < queue[k].prio)
  }

  /** From `q` to `r` one message, the next to go, has been received and nothing else
      has changed. */
  ghost predicate Delivers(q: Mq, r: Mq) {
    exists k: nat :: GoesNext(q.queue, k) && r == Mq(Removed(q.queue, k), q.registered, q.sent, q.received + [q.queue[k]])
  }

  lemma {:induction false} ReceiveDelivers(q: Mq)
    requires q.queue != []
    ensures Delivers(q, Receive(q))
  {
    assert GoesNext(q.queue, Next(q.queue));
  }

  /** What has been received from number `from` on came by falling priority, and nothing
      queued should have come earlier. */
  ghost predicate Falling(q: Mq, from: nat) {
    && from <= |q.received|
    && (forall i, j :: from <= i < j < |q.received| ==> q.received[i].prio >= q.received[j].prio)
    && (forall i, j :: from <= i < |q.received| && 0 <= j < |q.queue| ==> q.received[i].prio >= q.queue[j].prio)
  }

  lemma {:induction false} ReceiveFalls(q: Mq, from: nat)
    requires q.queue != [] && Falling(q, from)
    ensures Falling(Receive(q), from) && q.received <= Receive(q).received
  {
  }

  /** The messages of priority `p`, in order. */
  function OfPrio(s: seq<Msg>, p: nat): seq<Msg> {
    if s == [] then []
    else OfPrio(s[..|s| - 1], p) + if s[|s| - 1].prio == p then [s[|s| - 1]] else []
  }

  /** Nothing is lost or duplicated, and within each priority nothing is reordered. */
  ghost predicate Conserves(q: Mq) {
    && multiset(q.received) + multiset(q.queue) == multiset(q.sent)
    && forall p :: OfPrio(q.received, p) + OfPrio(q.queue, p) == OfPrio(q.sent, p)
  }

  lemma {:induction false} OfPrioAppend(s: seq<Msg>, m: Msg, p: nat)
    ensures OfPrio(s + [m], p) == OfPrio(s, p) + IfPrio(m, p)
  {
    assert (s + [m])[..|s|] == s;
  }

  lemma {:induction false} NoneOfPrio(s: seq<Msg>, p: nat)
    requires forall j :: 0 <= j < |s| ==> s[j].prio != p
    ensures OfPrio(s, p) == []
  {
    if s == [] {
    } else {
      NoneOfPrio(s[..|s| - 1], p);
    }
  }

  /** The message itself, if it is of priority `p`. */
  function IfPrio(m: Msg, p: nat): seq<Msg> {
    if m.prio == p then [m] else []
  }

  lemma {:induction false} LastRemoved(s: seq<Msg>, p: nat)
    requires s != [] && forall j :: 0 <= j < |s| - 1 ==> s[j].prio != s[|s| - 1].prio
    ensures OfPrio(s, p) == IfPrio(s[|s| - 1], p) + OfPrio(Removed(s, |s| - 1), p)
  {
    var last := |s| - 1;
    assert Removed(s, last) == s[..last];
    if s[last].prio == p {
      NoneOfPrio(s[..last], p);
    }
  }

  lemma {:induction false} Regroup(a: seq<Msg>, b: seq<Msg>, c: seq<Msg>)
    ensures (a + b) + c == a + (b + c)
  {
  }

  /** A message at the end of both sides. */
  lemma {:induction false} BothLonger(init: seq<Msg>, first: seq<Msg>, rest: seq<Msg>, m: Msg, p: nat)
    requires OfPrio(init, p) == first + OfPrio(rest, p)
    ensures OfPrio(init + [m], p) == first + OfPrio(rest + [m], p)
  {
    OfPrioAppend(init, m, p);
    OfPrioAppend(rest, m, p);
    Regroup(first, OfPrio(rest, p), IfPrio(m, p));
  }

  /** Taking out the first message of its priority takes it off the front of that
      priority's messages and leaves the others. */
  lemma {:induction false} OfPrioRemoved(s: seq<Msg>, k: nat, p: nat)
    requires k < |s| && forall j :: 0 <= j < k ==> s[j].prio != s[k].prio
    ensures OfPrio(s, p) == IfPrio(s[k], p) + OfPrio(Removed(s, k), p)
  {
    if k == |s| - 1 {
      LastRemoved(s, p);
    } else {
      var init, m := s[..|s| - 1], s[|s| - 1];
      OfPrioRemoved(init, k, p);
      BothLonger(init, IfPrio(s[k], p), Removed(init, k), m, p);
      RemovedBeforeLast(s, k);
    }
  }

  lemma {:induction false} ArriveConserves(q: Mq, m: Msg)
    requires Conserves(q)
    ensures Conserves(Arrive(q, m))
  {
    forall p ensures OfPrio(q.received, p) + OfPrio(q.queue + [m], p) == OfPrio(q.sent + [m], p) {
      OfPrioAppend(q.queue, m, p);
      OfPrioAppend(q.sent, m, p);
      assert OfPrio(q.received, p) + OfPrio(q.queue, p) == OfPrio(q.sent, p);
    }
  }

  lemma {:induction false} MultisetRemoved(s: seq<Msg>, k: nat)
    requires k < |s|
    ensures multiset(s) == multiset{s[k]} + multiset(Removed(s, k))
  {
    assert s == s[..k] + [s[k]] + s[k + 1..];
  }

  /** Moving message `k` from the queue to the end of what was received. */
  lemma {:induction false} MoveOne(received: seq<Msg>, queue: seq<Msg>, k: nat, p: nat)
    requires k < |queue| && forall j :: 0 <= j < k ==> queue[j].prio != queue[k].prio
    ensures OfPrio(received + [queue[k]], p) + OfPrio(Removed(queue, k), p) == OfPrio(received, p) + OfPrio(queue, p)
  {
    OfPrioAppend(received, queue[k], p);
    OfPrioRemoved(queue, k, p);
  }

  lemma {:induction false} ReceiveConserves(q: Mq)
    requires Conserves(q) && q.queue != []
    ensures Conserves(Receive(q))
  {
    var k := Next(q.queue);
    MultisetRemoved(q.queue, k);
    forall p ensures OfPrio(q.received + [q.queue[k]], p) + OfPrio(Removed(q.queue, k), p) == OfPrio(q.sent, p) {
      MoveOne(q.received, q.queue, k, p);
    }
  }

  /** Everything sent has been received, each priority in its order. */
  ghost predicate AllReceived(q: Mq) {
    && multiset(q.received) == multiset(q.sent)
    && forall p :: OfPrio(q.received, p) == OfPrio(q.sent, p)
  }

  lemma {:induction false} EmptyMeansAllReceived(q: Mq)
    requires Conserves(q) && q.queue == []
    ensures AllReceived(q)
  {
    assert multiset(q.queue) == multiset{};
    forall p ensures OfPrio(q.received, p) == OfPrio(q.sent, p) {
      assert OfPrio(q.received, p) + OfPrio(q.queue, p) == OfPrio(q.sent, p);
    }
  }

  lemma {:induction false} OnlyPrio(s: seq<Msg>, p: nat)
    requires forall j :: 0 <= j < |s| ==> s[j].prio == p
    ensures OfPrio(s, p) == s
  {
    if s == [] {
    } else {
      OnlyPrio(s[..|s| - 1], p);
    }
  }

  /** With one priority only, all messages are received in the order they were sent. */
  lemma {:induction false} OnePriorityInOrder(q: Mq, p: nat)
    requires AllReceived(q) && forall j :: 0 <= j < |q.sent| ==> q.sent[j].prio == p
    ensures q.received == q.sent
  {
    forall j | 0 <= j < |q.received| ensures q.received[j].prio == p {
      assert q.received[j] in multiset(q.sent);
    }
    OnlyPrio(q.received, p);
    OnlyPrio(q.sent, p);
  }
}
