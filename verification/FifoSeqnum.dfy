/** fifo_seqnum_server.c and fifo_seqnum_client.c: an iterative server hands out
    ranges of sequence numbers; requests of all clients share one well-known
    FIFO, each reply goes to a FIFO named after the client's process id.

    A request fits in one atomic write (POSIX.1-2008, write: PIPE_BUF), so the
    well-known FIFO is a sequence of whole requests. Clients are told apart by their
    number in order of start, because a process id is used again once its process is
    gone. Opening a FIFO for writing waits until a process has it open for reading
    (POSIX.1-2008, open), and what a FIFO holds is discarded when the last descriptor
    for it is closed (POSIX.1-2008, close). */
module FifoSeqnum {
  import opened Limits
  import opened Runs
  import opened Ranges
  import opened Sums
  import opened Actions

  /** struct request, and which client wrote it, which the server does not know. */
  datatype Request = Request(pid: int, seqLen: int, client: nat)

  /** `Ready`: has its FIFO. `Sent`: has written its request and opens its FIFO to
      read. `Told(n)`: has read the reply n and exited. `Gone`: ended without one. */
  datatype ClientPc = Ready | Sent | Told(start: int) | Gone

  /** `clean` is history: what Clean said when the client started. */
  datatype Client = Client(pid: int, seqLen: int, pc: ClientPc, clean: bool)

  /** The server loop: before the read, in the open, before the write, after it.
      `current`: the FIFO that is open still has its name, so it is the one that a
      process with this id reads. */
  datatype ServerPc =
    | Reading
    | Opening(req: Request)
    | Writing(req: Request, current: bool)
    | Adding(req: Request, current: bool)

  datatype State = State(
    server: ServerPc,
    seqNum: int,
    requests: seq<Request>,
    clients: seq<Client>,
    fifos: map<int, seq<int>>,    // the client FIFOs that exist, by process id: unread replies
    grants: seq<Range<nat>>)      // history: one entry per handled request, owned by a client

  datatype Action =
    | Start(pid: int, seqLen: int)
    | Send(client: nat)
    | ReadReply(client: nat)
    | Kill(client: nat)                // by a signal: the FIFO stays behind
    | Quit(client: nat)                // by exit on an error: removeFifo runs
    | ReadRequest
    | OpenFails                        // no such FIFO
    | Open
    | Write                            // fails if nobody reads that FIFO any more
    | Add                              // close and add

  ghost predicate Init(s: State) {
    s == State(Reading, 0, [], [], map[], [])
  }

  predicate Live(c: Client) { c.pc == Ready || c.pc == Sent }

  /** Client `c` is a running process with this id. */
  predicate IsProcess(s: State, c: nat, pid: int) {
    c < |s.clients| && s.clients[c].pid == pid && Live(s.clients[c])
  }

  predicate Taken(s: State, pid: int) {
    exists c | 0 <= c < |s.clients| :: IsProcess(s, c, pid)
  }

  /** Some process has the FIFO of this id open for reading. */
  predicate HasReader(s: State, pid: int) {
    exists c | 0 <= c < |s.clients| :: IsProcess(s, c, pid) && s.clients[c].pc == Sent
  }

  /** The server has the FIFO of this id open. */
  predicate Holds(s: State, pid: int) {
    (s.server.Writing? || s.server.Adding?) && s.server.req.pid == pid && s.server.current
  }

  /** The server is about to write to the FIFO of this id. */
  predicate Answering(s: State, pid: int) {
    (s.server.Opening? && s.server.req.pid == pid) || (s.server.Writing? && Holds(s, pid))
  }

  /** Nothing is left over from an earlier process with this id: no request queued
      or being answered by the server, and no reply unread. */
  predicate Clean(s: State, pid: int) {
    && (forall i :: 0 <= i < |s.requests| ==> s.requests[i].pid != pid)
    && !Answering(s, pid)
    && (pid in s.fifos ==> s.fifos[pid] == [])
  }

  /** The server after the FIFO of this id has lost its name. */
  function Unlinked(server: ServerPc, pid: int): ServerPc {
    if (server.Writing? || server.Adding?) && server.req.pid == pid then server.(current := false) else server
  }

  predicate Enabled(s: State, a: Action) {
    match a
    case Start(pid, seqLen) => !Taken(s, pid) && 0 < seqLen <= INT_MAX
    case Send(c) => c < |s.clients| && s.clients[c].pc == Ready
    case ReadReply(c) =>
      c < |s.clients| && s.clients[c].pc == Sent && s.clients[c].pid in s.fifos && s.fifos[s.clients[c].pid] != []
    case Kill(c) => c < |s.clients| && Live(s.clients[c])
    case Quit(c) => c < |s.clients| && Live(s.clients[c])
    case ReadRequest => s.server == Reading && s.requests != []
    case OpenFails => s.server.Opening? && s.server.req.pid !in s.fifos
    case Open => s.server.Opening? && s.server.req.pid in s.fifos && HasReader(s, s.server.req.pid)
    case Write => s.server.Writing?
    case Add => s.server.Adding?
  }

  function WithPc(s: State, c: nat, pc: ClientPc): seq<Client>
    requires c < |s.clients|
  {
    s.clients[c := s.clients[c].(pc := pc)]
  }

  function Emptied(fifos: map<int, seq<int>>, pid: int): map<int, seq<int>> {
    if pid in fifos then fifos[pid := []] else fifos
  }

  /** The write reaches a FIFO that somebody reads. */
  predicate Delivers(s: State)
    requires s.server.Writing?
  {
    s.server.current && s.server.req.pid in s.fifos && HasReader(s, s.server.req.pid)
  }

  function Apply(s: State, a: Action): State
    requires Enabled(s, a)
  {
    match a
    case Start(pid, seqLen) =>      // mkfifo, or EEXIST
      s.(clients := s.clients + [Client(pid, seqLen, Ready, Clean(s, pid))],
      fifos := if pid in s.fifos then s.fifos else s.fifos[pid := []])
    case Send(c) =>
      s.(clients := WithPc(s, c, Sent), requests := s.requests + [Request(s.clients[c].pid, s.clients[c].seqLen, c)])
    case ReadReply(c) =>            // and exit, which removes the FIFO
      var pid := s.clients[c].pid;
      s.(clients := WithPc(s, c, Told(s.fifos[pid][0])), fifos := s.fifos - {pid}, server := Unlinked(s.server, pid))
    case Kill(c) =>
      var pid := s.clients[c].pid;
      s.(clients := WithPc(s, c, Gone), fifos := if Holds(s, pid) then s.fifos else Emptied(s.fifos, pid))
    case Quit(c) =>
      var pid := s.clients[c].pid;
      s.(clients := WithPc(s, c, Gone), fifos := s.fifos - {pid}, server := Unlinked(s.server, pid))
    case ReadRequest => s.(server := Opening(s.requests[0]), requests := s.requests[1..])
    case OpenFails => s.(server := Reading)
    case Open => s.(server := Writing(s.server.req, true))
    case Write =>
      var req := s.server.req;
      s.(server := Adding(req, s.server.current), grants := s.grants + [Range(req.client, s.seqNum, req.seqLen)],
      fifos := if Delivers(s) then s.fifos[req.pid := s.fifos[req.pid] + [s.seqNum]] else s.fifos)
    case Add =>
      var req := s.server.req;
      s.(server := Reading, seqNum := s.seqNum + req.seqLen,
      fifos := if !s.server.current || HasReader(s, req.pid) then s.fifos else Emptied(s.fifos, req.pid))
  }

  ghost predicate Step(s: State, t: State) {
    exists a :: Enabled(s, a) && t == Apply(s, a)
  }

  /** The end of the numbers handed out. */
  function Used(s: State): int {
    s.seqNum + if s.server.Adding? then s.server.req.seqLen else 0
  }

  /** The request was made by a client that exists, for the length it wants. */
  predicate Genuine(s: State, req: Request) {
    && req.client < |s.clients| && s.clients[req.client].pid == req.pid
    && s.clients[req.client].seqLen == req.seqLen && req.seqLen > 0
  }

  /** `n` is the start of a range granted to client `c` for its own length. */
  predicate Granted(s: State, c: nat, n: int) {
    c < |s.clients| && Range(c, n, s.clients[c].seqLen) in s.grants
  }

  /** ... to some client with this process id. */
  ghost predicate GrantedToPid(s: State, pid: int, n: int) {
    exists c: nat :: Granted(s, c, n) && s.clients[c].pid == pid
  }

  ghost predicate RequestsInv(s: State) {
    && (forall c :: 0 <= c < |s.clients| ==> s.clients[c].seqLen > 0)
    && (forall r :: r in s.requests ==> Genuine(s, r))
    && (!s.server.Reading? ==> Genuine(s, s.server.req))
    && (forall g :: g in s.grants ==> g.owner < |s.clients|)
  }

  /** A process id belongs to one running process, whose FIFO exists. */
  ghost predicate PidsInv(s: State) {
    && (forall c, d, pid :: IsProcess(s, c, pid) && IsProcess(s, d, pid) ==> c == d)
    && (forall c, pid :: IsProcess(s, c, pid) ==> pid in s.fifos)
    && (forall pid :: Holds(s, pid) ==> pid in s.fifos)
  }

  /** A FIFO holds data only while some descriptor for it is open: that of a process
      that reads it, or the server's. */
  ghost predicate OpenInv(s: State) {
    forall pid :: pid in s.fifos && s.fifos[pid] != [] ==> HasReader(s, pid) || Holds(s, pid)
  }

  /** Every reply on its way, or read, was granted to the right process id. */
  ghost predicate RepliesInv(s: State) {
    && (forall pid, n :: pid in s.fifos && n in s.fifos[pid] ==> GrantedToPid(s, pid, n))
    && (forall c :: 0 <= c < |s.clients| && s.clients[c].pc.Told? ==> GrantedToPid(s, s.clients[c].pid, s.clients[c].pc.start))
  }

  /** All that is under way for the process id of client `c` is its own. */
  ghost predicate OwnTraffic(s: State, c: nat, pid: int) {
    && (forall r :: r in s.requests && r.pid == pid ==> r.client == c)
    && (Answering(s, pid) ==> s.server.req.client == c)
    && (pid in s.fifos ==> forall n :: n in s.fifos[pid] ==> Granted(s, c, n))
  }

  ghost predicate CleanInv(s: State) {
    && (forall c: nat, pid :: IsProcess(s, c, pid) && s.clients[c].clean ==> OwnTraffic(s, c, pid))
    && (forall c :: 0 <= c < |s.clients| && s.clients[c].clean && s.clients[c].pc.Told? ==>
          Granted(s, c, s.clients[c].pc.start))
  }

  ghost predicate Inv(s: State) {
    && Consecutive(s.grants, 0, Used(s))
    && RequestsInv(s) && PidsInv(s) && OpenInv(s) && RepliesInv(s) && CleanInv(s)
  }

  /** Clients keep their identity, and grants are never taken back. */
  ghost predicate Extends(s: State, t: State) {
    && |s.clients| <= |t.clients| && s.grants <= t.grants
    && forall c :: 0 <= c < |s.clients| ==>
         && t.clients[c].pid == s.clients[c].pid && t.clients[c].seqLen == s.clients[c].seqLen
         && t.clients[c].clean == s.clients[c].clean
         && (Live(t.clients[c]) ==> Live(s.clients[c]))
  }

  lemma {:induction false} StepExtends(s: State, a: Action)
    requires Enabled(s, a)
    ensures Extends(s, Apply(s, a))
  {
  }

  lemma {:induction false} GrantsStay(s: State, t: State, c: nat, n: int)
    requires Extends(s, t) && Granted(s, c, n)
    ensures Granted(t, c, n)
  {
  }

  lemma {:induction false} PidGrantsStay(s: State, t: State, pid: int, n: int)
    requires Extends(s, t) && GrantedToPid(s, pid, n)
    ensures GrantedToPid(t, pid, n)
  {
    var c: nat :| Granted(s, c, n) && s.clients[c].pid == pid;
    GrantsStay(s, t, c, n);
  }

  lemma {:induction false} RequestsKept(s: State, a: Action)
    requires RequestsInv(s) && Enabled(s, a)
    ensures RequestsInv(Apply(s, a))
  {
    var t := Apply(s, a);
    StepExtends(s, a);
    assert forall r :: Genuine(s, r) ==> Genuine(t, r);
    if a.Send? {
      assert Genuine(s, Request(s.clients[a.client].pid, s.clients[a.client].seqLen, a.client));
    }
  }

  lemma {:induction false} PidsKept(s: State, a: Action)
    requires PidsInv(s) && Enabled(s, a)
    ensures PidsInv(Apply(s, a))
  {
    var t := Apply(s, a);
    StepExtends(s, a);
    assert forall c: nat, pid :: c < |s.clients| && IsProcess(t, c, pid) ==> IsProcess(s, c, pid);
    if a.ReadReply? {
      assert IsProcess(s, a.client, s.clients[a.client].pid);
    } else if a.Quit? {
      assert IsProcess(s, a.client, s.clients[a.client].pid);
    }
  }

  /** Reading goes on in other processes. */
  lemma {:induction false} ReaderStays(s: State, a: Action, c: nat, pid: int)
    requires Enabled(s, a) && IsProcess(s, c, pid) && s.clients[c].pc == Sent
    requires (a.ReadReply? || a.Kill? || a.Quit?) ==> a.client != c
    ensures HasReader(Apply(s, a), pid)
  {
    assert IsProcess(Apply(s, a), c, pid);
  }

  lemma {:induction false} OpenKept(s: State, a: Action)
    requires PidsInv(s) && OpenInv(s) && Enabled(s, a)
    ensures OpenInv(Apply(s, a))
  {
    var t := Apply(s, a);
    forall pid | pid in t.fifos && t.fifos[pid] != [] ensures HasReader(t, pid) || Holds(t, pid) {
      if a.Write? && pid == s.server.req.pid {
        if Delivers(s) {
          assert HasReader(s, pid);
        }
      }
      if HasReader(s, pid) {
        var c :| 0 <= c < |s.clients| && IsProcess(s, c, pid) && s.clients[c].pc == Sent;
        if !((a.ReadReply? || a.Kill? || a.Quit?) && a.client == c) {
          ReaderStays(s, a, c, pid);
        }
      }
    }
  }

  /** What a write adds: the number goes to a FIFO of the requesting process id. */
  lemma {:induction false} WriteGrants(s: State)
    requires Enabled(s, Write) && Genuine(s, s.server.req)
    ensures Granted(Apply(s, Write), s.server.req.client, s.seqNum)
    ensures GrantedToPid(Apply(s, Write), s.server.req.pid, s.seqNum)
  {
    var t := Apply(s, Write);
    assert t.grants[|s.grants|] == Range(s.server.req.client, s.seqNum, s.server.req.seqLen);
    assert Granted(t, s.server.req.client, s.seqNum);
  }

  lemma {:induction false} RepliesKept(s: State, a: Action)
    requires RequestsInv(s) && RepliesInv(s) && Enabled(s, a)
    ensures RepliesInv(Apply(s, a))
  {
    var t := Apply(s, a);
    StepExtends(s, a);
    forall pid, n | GrantedToPid(s, pid, n) ensures GrantedToPid(t, pid, n) {
      PidGrantsStay(s, t, pid, n);
    }
    if a.Write? {
      WriteGrants(s);
    }
  }

  /** Traffic for a running client stays its own. */
  lemma {:induction false} TrafficKept(s: State, a: Action, c: nat, pid: int)
    requires RequestsInv(s) && PidsInv(s) && Enabled(s, a)
    requires IsProcess(s, c, pid) && IsProcess(Apply(s, a), c, pid) && OwnTraffic(s, c, pid)
    ensures OwnTraffic(Apply(s, a), c, pid)
  {
    var t := Apply(s, a);
    StepExtends(s, a);
    forall n | Granted(s, c, n) ensures Granted(t, c, n) {
      GrantsStay(s, t, c, n);
    }
    if a.Write? {
      WriteGrants(s);
    } else if a.Send? {
      assert IsProcess(s, a.client, s.clients[a.client].pid);
    }
  }

  lemma {:induction false} CleanKept(s: State, a: Action)
    requires RequestsInv(s) && PidsInv(s) && CleanInv(s) && Enabled(s, a)
    ensures CleanInv(Apply(s, a))
  {
    var t := Apply(s, a);
    StepExtends(s, a);
    forall c: nat, pid | IsProcess(t, c, pid) && t.clients[c].clean ensures OwnTraffic(t, c, pid) {
      if c < |s.clients| {
        assert IsProcess(s, c, pid);
        TrafficKept(s, a, c, pid);
      }
    }
    forall c | 0 <= c < |t.clients| && t.clients[c].clean && t.clients[c].pc.Told?
      ensures Granted(t, c, t.clients[c].pc.start)
    {
      if s.clients[c].pc.Told? {
        GrantsStay(s, t, c, s.clients[c].pc.start);
      } else {
        assert IsProcess(s, c, s.clients[c].pid);
        GrantsStay(s, t, c, t.clients[c].pc.start);
      }
    }
  }

  lemma {:induction false} StepKeepsInv(s: State, a: Action)
    requires Inv(s) && Enabled(s, a)
    ensures Inv(Apply(s, a))
  {
    RequestsKept(s, a);
    PidsKept(s, a);
    OpenKept(s, a);
    RepliesKept(s, a);
    CleanKept(s, a);
    if a.Write? {
      ConsecutiveAppend(s.grants, 0, s.seqNum, Range(s.server.req.client, s.seqNum, s.server.req.seqLen));
    }
  }

  lemma {:induction false} EveryRunInv(run: seq<State>, k: nat)
    requires IsRun(Init, Step, run) && k < |run|
    ensures Inv(run[k])
  {
    forall s, t | Inv(s) && Step(s, t) ensures Inv(t) {
      var a :| Enabled(s, a) && t == Apply(s, a);
      StepKeepsInv(s, a);
    }
    Invariance(Init, Step, Inv, run);
  }

  /** For any number of clients and any interleaving, handled requests own
      pairwise disjoint ranges that together are exactly the numbers used. The
      counter is the sum of the lengths granted, so it is exact as an int as long as
      that sum is. */
  lemma {:induction false} RangesPartition(run: seq<State>, k: nat, x: int)
    requires IsRun(Init, Step, run) && k < |run|
    ensures forall i, j :: 0 <= i < j < |run[k].grants| ==>
              !(Covers(run[k].grants[i], x) && Covers(run[k].grants[j], x))
    ensures 0 <= x < Used(run[k]) <==> exists i :: 0 <= i < |run[k].grants| && Covers(run[k].grants[i], x)
    ensures run[k].seqNum <= Used(run[k]) == Sum(Length, run[k].grants)
  {
    EveryRunInv(run, k);
    var s := run[k];
    forall i, j | 0 <= i < j < |s.grants| ensures !(Covers(s.grants[i], x) && Covers(s.grants[j], x)) {
      Disjoint(s.grants, 0, Used(s), i, j, x);
    }
    Covered(s.grants, 0, Used(s), x);
    LengthsAddUp(s.grants, 0, Used(s));
  }

  /** On every run, what a FIFO holds is discarded with its last descriptor. */
  lemma {:induction false} UnreadIsOpen(run: seq<State>, k: nat, pid: int)
    requires IsRun(Init, Step, run) && k < |run|
    requires pid in run[k].fifos && run[k].fifos[pid] != []
    ensures HasReader(run[k], pid) || Holds(run[k], pid)
  {
    EveryRunInv(run, k);
  }

  /** A client with a clean start is only ever told the start of a range granted to
      its own request; any other client, of a range granted to its process id. */
  lemma {:induction false} ClientsGetTheirOwn(run: seq<State>, k: nat, c: nat)
    requires IsRun(Init, Step, run) && k < |run|
    requires c < |run[k].clients| && run[k].clients[c].pc.Told?
    ensures run[k].clients[c].clean ==> Granted(run[k], c, run[k].clients[c].pc.start)
    ensures GrantedToPid(run[k], run[k].clients[c].pid, run[k].clients[c].pc.start)
  {
    EveryRunInv(run, k);
  }

  /** Number `x` is one of those client `c` believes it was given. */
  predicate Believes(s: State, c: nat, x: int) {
    && c < |s.clients| && s.clients[c].pc.Told?
    && s.clients[c].pc.start <= x < s.clients[c].pc.start + s.clients[c].seqLen
  }

  /** What two clients with a clean start were told never overlaps. */
  lemma {:induction false} ToldAreDisjoint(run: seq<State>, k: nat, c: nat, d: nat, x: int)
    requires IsRun(Init, Step, run) && k < |run| && c != d
    requires Believes(run[k], c, x) && run[k].clients[c].clean
    requires d < |run[k].clients| && run[k].clients[d].clean
    ensures !Believes(run[k], d, x)
  {
    EveryRunInv(run, k);
    var s := run[k];
    if Believes(s, d, x) {
      var i :| 0 <= i < |s.grants| && s.grants[i] == Range(c, s.clients[c].pc.start, s.clients[c].seqLen);
      var j :| 0 <= j < |s.grants| && s.grants[j] == Range(d, s.clients[d].pc.start, s.clients[d].seqLen);
      Disjoint(s.grants, 0, Used(s), if i < j then i else j, if i < j then j else i, x);
    }
  }

  // ----- every request is answered

  function FromClient(c: nat): Request -> nat {
    (r: Request) => Bit(r.client == c)
  }

  function ToClient(c: nat): Range<nat> -> nat {
    (g: Range<nat>) => Bit(g.owner == c)
  }

  /** The server has read a request of client `c` and not yet written the reply. */
  predicate Serves(s: State, c: nat) {
    (s.server.Opening? || s.server.Writing?) && s.server.req.client == c
  }

  /** How often there is a request of client `c`: queued, with the server, or granted. */
  function Asks(s: State, c: nat): nat {
    Sum(FromClient(c), s.requests) + Bit(Serves(s, c)) + Sum(ToClient(c), s.grants)
  }

  predicate HasAsked(s: State, c: nat) {
    c < |s.clients| && s.clients[c].pc != Ready
  }

  predicate IsSent(s: State, c: nat) {
    c < |s.clients| && s.clients[c].pc == Sent
  }

  /** The reply to client `c` is in its FIFO. */
  ghost predicate Replied(s: State, c: nat) {
    c < |s.clients| && s.clients[c].pid in s.fifos && exists n :: n in s.fifos[s.clients[c].pid] && Granted(s, c, n)
  }

  /** The request of a client that waits for the reply is neither lost nor duplicated,
      and neither is the reply. */
  ghost predicate AskInv(s: State, c: nat) {
    && Asks(s, c) <= Bit(HasAsked(s, c))
    && (IsSent(s, c) ==> Asks(s, c) == 1)
    && (IsSent(s, c) && s.server.Writing? && s.server.req.client == c ==> s.server.current)
    && (IsSent(s, c) && Sum(ToClient(c), s.grants) > 0 ==> Replied(s, c))
  }

  lemma {:induction false} SumOfFirst<T>(f: T -> nat, s: seq<T>)
    requires s != []
    ensures Sum(f, s) == f(s[0]) + Sum(f, s[1..])
  {
    if |s| == 1 {
    } else {
      SumOfFirst(f, s[..|s| - 1]);
      assert s[..|s| - 1][1..] == s[1..][..|s| - 2];
    }
  }

  /** How the requests of client `c` change. */
  lemma {:induction false} AsksAfter(s: State, a: Action, c: nat)
    requires Enabled(s, a)
    ensures Asks(Apply(s, a), c) == Asks(s, c) + match a
              case Send(d) => Bit(d == c)
              case OpenFails => 0 - Bit(Serves(s, c))
              case _ => 0
    ensures a.Write? ==>
              Sum(ToClient(c), Apply(s, a).grants) == Sum(ToClient(c), s.grants) + Bit(s.server.req.client == c)
    ensures !a.Write? ==> Apply(s, a).grants == s.grants
  {
    match a
    case Send(d) => SumAppend(FromClient(c), s.requests, Request(s.clients[d].pid, s.clients[d].seqLen, d));
    case ReadRequest => SumOfFirst(FromClient(c), s.requests);
    case Write => SumAppend(ToClient(c), s.grants, Range(s.server.req.client, s.seqNum, s.server.req.seqLen));
    case _ =>
  }

  /** A client that waits for its reply is a process that reads its FIFO. */
  lemma {:induction false} SentReads(s: State, c: nat)
    requires PidsInv(s) && IsSent(s, c)
    ensures IsProcess(s, c, s.clients[c].pid) && HasReader(s, s.clients[c].pid) && s.clients[c].pid in s.fifos
  {
    assert IsProcess(s, c, s.clients[c].pid);
  }

  /** Unread replies for a waiting client stay where they are, in any step but its own
      reading. */
  lemma {:induction false} RepliesStay(s: State, a: Action, c: nat)
    requires PidsInv(s) && Enabled(s, a) && IsSent(s, c) && IsSent(Apply(s, a), c)
    ensures var pid, t := s.clients[c].pid, Apply(s, a); pid in s.fifos && pid in t.fifos && s.fifos[pid] <= t.fifos[pid]
  {
    SentReads(s, c);
    match a
    case ReadReply(d) => assert IsProcess(s, d, s.clients[d].pid);
    case Kill(d) => assert IsProcess(s, d, s.clients[d].pid);
    case Quit(d) => assert IsProcess(s, d, s.clients[d].pid);
    case _ =>
  }

  lemma {:induction false} RepliedStays(s: State, a: Action, c: nat)
    requires PidsInv(s) && Enabled(s, a) && IsSent(s, c) && IsSent(Apply(s, a), c) && Replied(s, c)
    ensures Replied(Apply(s, a), c)
  {
    RepliesStay(s, a, c);
    StepExtends(s, a);
    var n :| n in s.fifos[s.clients[c].pid] && Granted(s, c, n);
    GrantsStay(s, Apply(s, a), c, n);
  }

  /** When the server writes the reply to a waiting client, the start just granted to it
      is in its FIFO. */
  lemma {:induction false} WriteReaches(s: State, c: nat)
    requires RequestsInv(s) && PidsInv(s) && Enabled(s, Write)
    requires s.server.req.client == c && IsSent(s, c) && s.server.current
    ensures var t := Apply(s, Write);
            && t.fifos[s.clients[c].pid] == s.fifos[s.clients[c].pid] + [s.seqNum]
            && Granted(t, c, s.seqNum) && Replied(t, c)
  {
    SentReads(s, c);
    WriteGrants(s);
    var t := Apply(s, Write);
    assert t.fifos[s.clients[c].pid][|s.fifos[s.clients[c].pid]|] == s.seqNum;
  }

  lemma {:induction false} CurrentStays(s: State, a: Action, c: nat)
    requires RequestsInv(s) && PidsInv(s) && Enabled(s, a) && IsSent(s, c) && IsSent(Apply(s, a), c)
    requires s.server.Writing? && s.server.req.client == c && s.server.current && Apply(s, a).server.Writing?
    ensures Apply(s, a).server.current
  {
    SentReads(s, c);
    match a
    case ReadReply(d) => assert IsProcess(s, d, s.clients[d].pid);
    case Quit(d) => assert IsProcess(s, d, s.clients[d].pid);
    case _ =>
  }

  lemma {:induction false} AskKept(s: State, a: Action, c: nat)
    requires RequestsInv(s) && PidsInv(s) && Enabled(s, a) && AskInv(s, c)
    ensures AskInv(Apply(s, a), c)
  {
    var t := Apply(s, a);
    AsksAfter(s, a, c);
    if IsSent(t, c) && IsSent(s, c) {
      SentReads(s, c);
      assert a.OpenFails? ==> !Serves(s, c);
      if t.server.Writing? && t.server.req.client == c && s.server.Writing? {
        CurrentStays(s, a, c);
      }
      if a.Write? && s.server.req.client == c {
        WriteReaches(s, c);
      } else if Sum(ToClient(c), t.grants) > 0 {
        RepliedStays(s, a, c);
      }
    }
  }

  ghost predicate FullInv(s: State) {
    Inv(s) && forall c :: AskInv(s, c)
  }

  lemma {:induction false} EveryRunAnswers(run: seq<State>, k: nat)
    requires IsRun(Init, Step, run) && k < |run|
    ensures FullInv(run[k])
  {
    forall s, t | FullInv(s) && Step(s, t) ensures FullInv(t) {
      var a :| Enabled(s, a) && t == Apply(s, a);
      StepKeepsFull(s, a);
    }
    Invariance(Init, Step, FullInv, run);
  }

  /** No client is granted more than one range. */
  lemma {:induction false} OneGrantEach(run: seq<State>, k: nat, i: nat, j: nat)
    requires IsRun(Init, Step, run) && k < |run|
    requires i < j < |run[k].grants|
    ensures run[k].grants[i].owner != run[k].grants[j].owner
  {
    EveryRunAnswers(run, k);
    if run[k].grants[i].owner == run[k].grants[j].owner {
      var c := run[k].grants[i].owner;
      assert AskInv(run[k], c);
      SumOfTwo(ToClient(c), run[k].grants, i, j);
    }
  }

  lemma {:induction false} SumOfTwo<T>(f: T -> nat, s: seq<T>, i: nat, j: nat)
    requires i < j < |s|
    ensures f(s[i]) + f(s[j]) <= Sum(f, s)
  {
    var k := |s| - 1;
    if j == k {
      SumAtLeast(f, s[..k], i);
    } else {
      SumOfTwo(f, s[..k], i, j);
    }
  }

  /** With a clean start, what is in the FIFO of a waiting client is its own reply. */
  lemma {:induction false} OwnReply(s: State, c: nat)
    requires FullInv(s) && IsSent(s, c) && s.clients[c].clean
    ensures s.clients[c].pid in s.fifos
    ensures forall n :: n in s.fifos[s.clients[c].pid] ==> Granted(s, c, n)
    ensures Sum(ToClient(c), s.grants) == 0 ==> s.fifos[s.clients[c].pid] == []
  {
    var pid := s.clients[c].pid;
    assert AskInv(s, c);
    SentReads(s, c);
    if s.fifos[pid] != [] {
      var n := s.fifos[pid][0];
      assert n in s.fifos[pid] && Granted(s, c, n);
      var i :| 0 <= i < |s.grants| && s.grants[i] == Range(c, n, s.clients[c].seqLen);
      SumAtLeast(ToClient(c), s.grants, i);
    }
  }

  /** The answer arrives. On every run, when the server writes for a client that waits,
      the start just granted to it goes into the FIFO it reads; and with a clean start
      the client can then read, and is told that start. */
  lemma {:induction false} AnswerArrives(run: seq<State>, k: nat, c: nat)
    requires IsRun(Init, Step, run) && k < |run|
    requires Enabled(run[k], Write) && run[k].server.req.client == c && IsSent(run[k], c)
    ensures var s, t := run[k], Apply(run[k], Write);
            var pid := s.clients[c].pid;
            && pid in s.fifos && pid in t.fifos && t.fifos[pid] == s.fifos[pid] + [s.seqNum] && Granted(t, c, s.seqNum)
            && Enabled(t, ReadReply(c))
            && (s.clients[c].clean ==> Apply(t, ReadReply(c)).clients[c].pc == Told(s.seqNum))
  {
    EveryRunAnswers(run, k);
    var s := run[k];
    assert AskInv(s, c);
    WriteReaches(s, c);
    SentReads(s, c);
    if s.clients[c].clean {
      OwnReply(s, c);
    }
  }

  /** `n` is the next to be read from the FIFO of this id. */
  predicate Unread(s: State, pid: int, n: int) {
    pid in s.fifos && s.fifos[pid] != [] && s.fifos[pid][0] == n
  }

  /** Client `c` waits with `n` the next for it to read, or has read `n`, or is gone. */
  predicate WillRead(s: State, c: nat, n: int) {
    && c < |s.clients| && s.clients[c].pc != Ready
    && (s.clients[c].pc == Sent ==> Unread(s, s.clients[c].pid, n))
    && (s.clients[c].pc.Told? ==> s.clients[c].pc.start == n)
  }

  lemma {:induction false} WillReadStays(s: State, a: Action, c: nat, n: int)
    requires PidsInv(s) && Enabled(s, a) && WillRead(s, c, n)
    ensures WillRead(Apply(s, a), c, n)
  {
    StepExtends(s, a);
    if IsSent(Apply(s, a), c) {
      RepliesStay(s, a, c);
    }
  }

  /** The first reply that is there is what a waiting client is told, if it is told
      anything, whatever is written to its FIFO later. */
  lemma {:induction false} FirstReplyCounts(run: seq<State>, c: nat, n: int, t: State)
    requires IsRun(Init, Step, run) && Reaches(Step, run[|run| - 1], t)
    requires IsSent(run[|run| - 1], c) && Unread(run[|run| - 1], run[|run| - 1].clients[c].pid, n)
    ensures WillRead(t, c, n)
  {
    var s := run[|run| - 1];
    EveryRunInv(run, |run| - 1);
    var more :| Leads(Step, s, t, more);
    var kept := (x: State) => Inv(x) && WillRead(x, c, n);
    forall x, y | kept(x) && Step(x, y) ensures kept(y) {
      var a :| Enabled(x, a) && y == Apply(x, a);
      StepKeepsInv(x, a);
      WillReadStays(x, a, c, n);
    }
    Invariance(x => x == s, Step, kept, more);
    assert kept(more[|more| - 1]);
  }

  /** Position of the first request of client `c`. */
  function Position(requests: seq<Request>, c: nat): (p: nat)
    ensures p <= |requests|
    ensures p < |requests| ==> requests[p].client == c
  {
    if requests == [] || requests[0].client == c then 0 else 1 + Position(requests[1..], c)
  }

  lemma {:induction false} PositionFound(requests: seq<Request>, c: nat)
    requires Sum(FromClient(c), requests) > 0
    ensures Position(requests, c) < |requests|
  {
    SumOfFirst(FromClient(c), requests);
    if requests[0].client != c {
      PositionFound(requests[1..], c);
    }
  }

  lemma {:induction false} PositionStays(requests: seq<Request>, c: nat, r: Request)
    requires Position(requests, c) < |requests|
    ensures Position(requests + [r], c) == Position(requests, c)
  {
    if requests[0].client != c {
      assert (requests + [r])[1..] == requests[1..] + [r];
      PositionStays(requests[1..], c, r);
    }
  }

  /** Steps to the end of the present request. */
  function Left(server: ServerPc): nat {
    match server
    case Reading => 0
    case Opening(_) => 3
    case Writing(_, _) => 2
    case Adding(_, _) => 1
  }

  /** At most so many steps of the server are left before the reply to client `c` has
      been written. */
  function Ahead(s: State, c: nat): nat {
    if Sum(ToClient(c), s.grants) > 0 then 0
    else if Serves(s, c) then Left(s.server) - 1
    else 4 * Position(s.requests, c) + Left(s.server) + 3
  }

  /** What clients do does not set a waiting client back. */
  lemma {:induction false} ClientsKeepAhead(s: State, a: Action, c: nat)
    requires AskInv(s, c) && Enabled(s, a) && IsSent(s, c) && !IsServers(a)
    ensures Ahead(Apply(s, a), c) == Ahead(s, c)
  {
    var t := Apply(s, a);
    assert t.grants == s.grants && Left(t.server) == Left(s.server) && Serves(t, c) == Serves(s, c);
    if !Serves(s, c) && Sum(ToClient(c), s.grants) == 0 {
      PositionFound(s.requests, c);
      if a.Send? {
        PositionStays(s.requests, c, Request(s.clients[a.client].pid, s.clients[a.client].seqLen, a.client));
      }
    }
  }

  /** Every step of the server brings its reply closer. */
  lemma {:induction false} ServerLowersAhead(s: State, a: Action, c: nat)
    requires AskInv(s, c) && RequestsInv(s) && PidsInv(s) && Enabled(s, a) && IsSent(s, c) && IsServers(a) && Ahead(s, c) > 0
    ensures Ahead(Apply(s, a), c) < Ahead(s, c)
  {
    var t := Apply(s, a);
    AsksAfter(s, a, c);
    SentReads(s, c);
    if !Serves(s, c) {
      PositionFound(s.requests, c);
    }
  }

  lemma {:induction false} AheadStep(s: State, a: Action, c: nat)
    requires AskInv(s, c) && RequestsInv(s) && PidsInv(s) && Enabled(s, a) && IsSent(s, c)
    ensures Ahead(s, c) == 0 || Ahead(Apply(s, a), c) + Bit(IsServers(a)) <= Ahead(s, c)
    ensures Ahead(s, c) == 0 ==> Ahead(Apply(s, a), c) == 0
  {
    AsksAfter(s, a, c);
    if !IsServers(a) {
      ClientsKeepAhead(s, a, c);
    } else if Ahead(s, c) > 0 {
      ServerLowersAhead(s, a, c);
    }
  }

  function ServerStep(a: Action): nat {
    Bit(IsServers(a))
  }

  lemma {:induction false} StepKeepsFull(s: State, a: Action)
    requires FullInv(s) && Enabled(s, a)
    ensures FullInv(Apply(s, a))
  {
    StepKeepsInv(s, a);
    forall c ensures AskInv(Apply(s, a), c) {
      AskKept(s, a, c);
    }
  }

  ghost predicate By(s: State, a: Action, t: State) {
    Enabled(s, a) && t == Apply(s, a)
  }

  lemma {:induction false} ProgressStep(s: State, t: State, a: Action, c: nat, bound: nat, taken: nat)
    requires FullInv(s) && By(s, a, t) && HasAsked(s, c)
    requires IsSent(s, c) ==> Ahead(s, c) == 0 || Ahead(s, c) + taken <= bound
    ensures FullInv(t) && HasAsked(t, c)
    ensures IsSent(t, c) ==> Ahead(t, c) == 0 || Ahead(t, c) + taken + Bit(IsServers(a)) <= bound
  {
    StepKeepsFull(s, a);
    if IsSent(t, c) {
      assert AskInv(s, c);
      AheadStep(s, a, c);
    }
  }

  lemma {:induction false} Progress(run: seq<State>, acts: seq<Action>, c: nat)
    requires Performs(By, acts, run) && FullInv(run[0]) && IsSent(run[0], c)
    ensures FullInv(run[|acts|]) && HasAsked(run[|acts|], c)
    ensures IsSent(run[|acts|], c) ==>
              Ahead(run[|acts|], c) == 0 || Ahead(run[|acts|], c) + Sum(ServerStep, acts) <= Ahead(run[0], c)
  {
    if acts == [] {
    } else {
      var k := |acts| - 1;
      PerformsFirst(By, acts, run);
      Progress(run[..|acts|], acts[..k], c);
      ProgressStep(run[k], run[|acts|], acts[k], c, Ahead(run[0], c), Sum(ServerStep, acts[..k]));
    }
  }

  /** The server answers in the order of the requests: from any moment of any run, on
      every continuation on which a client goes on waiting, its reply is in its FIFO
      once the server has taken 4 steps for each request then queued, and 3 more.
      Unless it is blocked, the server always has a step. */
  lemma {:induction false} AnsweredInTime(before: seq<State>, run: seq<State>, acts: seq<Action>, c: nat)
    requires IsRun(Init, Step, before) && Performs(By, acts, run) && run[0] == before[|before| - 1]
    requires IsSent(run[0], c) && IsSent(run[|acts|], c)
    ensures Sum(ServerStep, acts) >= 4 * |run[0].requests| + 3 ==> Replied(run[|acts|], c)
    ensures !Replied(run[|acts|], c) ==> Blocked(run[|acts|]) || exists a :: IsServers(a) && Enabled(run[|acts|], a)
  {
    EveryRunAnswers(before, |before| - 1);
    Progress(run, acts, c);
    var s, t := run[0], run[|acts|];
    assert AskInv(s, c) && AskInv(t, c);
    if Sum(FromClient(c), s.requests) > 0 {
      PositionFound(s.requests, c);
    }
    if !Replied(t, c) && !Blocked(t) {
      var a := ServerMoves(t, c);
    }
  }

  lemma {:induction false} NotGranted(s: State, c: nat)
    requires FullInv(s) && IsSent(s, c) && Sum(ToClient(c), s.grants) == 0
    ensures Waits(s, c)
  {
    SentReads(s, c);
    forall g | g in s.grants ensures g.owner != c {
      var i :| 0 <= i < |s.grants| && s.grants[i] == g;
      SumAtLeast(ToClient(c), s.grants, i);
    }
  }

  lemma {:induction false} NoneGranted(grants: seq<Range<nat>>, c: nat)
    requires forall g :: g in grants ==> g.owner != c
    ensures Sum(ToClient(c), grants) == 0
  {
    if grants == [] {
    } else {
      NoneGranted(grants[..|grants| - 1], c);
    }
  }

  lemma {:induction false} FullAlong(s: State, t: State)
    requires FullInv(s) && Reaches(Step, s, t)
    ensures FullInv(t)
  {
    var run :| Leads(Step, s, t, run);
    forall x, y | FullInv(x) && Step(x, y) ensures FullInv(y) {
      var a :| Enabled(x, a) && y == Apply(x, a);
      StepKeepsFull(x, a);
    }
    Invariance(x => x == s, Step, FullInv, run);
  }

  lemma {:induction false} ServerCloser(s: State, u: State, a: Action, c: nat) returns (t: State)
    requires FullInv(s) && Reaches(Step, s, u) && IsSent(u, c) && IsServers(a) && Enabled(u, a) && Ahead(u, c) > 0
    ensures FullInv(t) && Reaches(Step, s, t) && IsSent(t, c) && t.clients[c] == u.clients[c] && Ahead(t, c) < Ahead(u, c)
  {
    FullAlong(s, u);
    OneMore(s, u, a);
    StepKeepsFull(u, a);
    t := Apply(u, a);
    AheadStep(u, a, c);
  }

  /** The FIFO that the server waits for goes. */
  lemma {:induction false} Unblocked(s: State, c: nat) returns (u: State)
    requires FullInv(s) && IsSent(s, c) && Ahead(s, c) > 0 && Blocked(s)
    ensures Reaches(Step, s, u) && IsSent(u, c) && u.clients[c] == s.clients[c] && Ahead(u, c) == Ahead(s, c)
    ensures Enabled(u, OpenFails)
  {
    NotGranted(s, c);
    SentReads(s, c);
    u := FifoGoes(s, c, s.server.req.pid);
    NoneGranted(u.grants, c);
  }

  lemma {:induction false} ServerMoves(s: State, c: nat) returns (a: Action)
    requires FullInv(s) && IsSent(s, c) && Ahead(s, c) > 0 && !Blocked(s)
    ensures IsServers(a) && Enabled(s, a)
  {
    assert AskInv(s, c);
    ServerWaitsExactly(s);
    if Sum(FromClient(c), s.requests) > 0 {
      PositionFound(s.requests, c);
    }
    a :| IsServers(a) && Enabled(s, a);
  }

  /** Some run brings the reply closer: the server takes a step, if need be after the
      FIFO it waits for has been removed. */
  lemma {:induction false} Closer(s: State, c: nat) returns (t: State)
    requires FullInv(s) && IsSent(s, c) && Ahead(s, c) > 0
    ensures FullInv(t) && Reaches(Step, s, t) && IsSent(t, c) && t.clients[c] == s.clients[c] && Ahead(t, c) < Ahead(s, c)
  {
    if Blocked(s) {
      var u := Unblocked(s, c);
      t := ServerCloser(s, u, OpenFails, c);
    } else {
      ReachesSelf(Step, s);
      var a := ServerMoves(s, c);
      t := ServerCloser(s, s, a, c);
    }
  }

  lemma {:induction false} GetsReply(s: State, c: nat) returns (t: State)
    requires FullInv(s) && IsSent(s, c)
    ensures FullInv(t) && Reaches(Step, s, t) && IsSent(t, c) && t.clients[c] == s.clients[c] && Ahead(t, c) == 0
    decreases Ahead(s, c)
  {
    if Ahead(s, c) == 0 {
      t := s;
      ReachesSelf(Step, s);
    } else {
      var u := Closer(s, c);
      t := GetsReply(u, c);
      ReachesTrans(Step, s, u, t);
    }
  }

  /** No client with a clean start is ever lost: at any moment of any run at which it
      waits, some continuation tells it the start of its own range. */
  lemma {:induction false} CanBeTold(run: seq<State>, c: nat) returns (u: State)
    requires IsRun(Init, Step, run)
    requires IsSent(run[|run| - 1], c) && run[|run| - 1].clients[c].clean
    ensures Reaches(Step, run[|run| - 1], u)
    ensures c < |u.clients| && u.clients[c].pc.Told? && Granted(u, c, u.clients[c].pc.start)
  {
    var s := run[|run| - 1];
    EveryRunAnswers(run, |run| - 1);
    var t := GetsReply(s, c);
    assert AskInv(t, c);
    OwnReply(t, c);
    OneMore(s, t, ReadReply(c));
    u := Apply(t, ReadReply(c));
    StepExtends(t, ReadReply(c));
    GrantsStay(t, u, c, u.clients[c].pc.start);
  }

  // ----- a process id used again

  /** Whatever happens from `t` on, client `c` is told nothing but a start granted to
      its own request. */
  ghost predicate AlwaysItsOwn(t: State, c: nat) {
    forall u :: Reaches(Step, t, u) ==> TellsOwn(u, c)
  }

  predicate TellsOwn(u: State, c: nat) {
    c < |u.clients| && u.clients[c].pc.Told? ==> Granted(u, c, u.clients[c].pc.start)
  }

  lemma {:induction false} CleanIsEnough(t: State, c: nat, u: State)
    requires Inv(t) && c < |t.clients| && t.clients[c].clean && Reaches(Step, t, u)
    ensures TellsOwn(u, c)
  {
    var run :| Leads(Step, t, u, run);
    var kept := (x: State) => Inv(x) && c < |x.clients| && x.clients[c].clean;
    forall x, y | kept(x) && Step(x, y) ensures kept(y) {
      var a :| Enabled(x, a) && y == Apply(x, a);
      StepKeepsInv(x, a);
      StepExtends(x, a);
    }
    Invariance(x => x == t, Step, kept, run);
    assert kept(run[|run| - 1]);
  }

  lemma {:induction false} OneMore(s: State, t: State, a: Action)
    requires Reaches(Step, s, t) && Enabled(t, a)
    ensures Reaches(Step, s, Apply(t, a))
  {
    ReachesStep(Step, s, t, Apply(t, a));
  }

  /** Client `c` waits for its reply, and none of the ranges granted is its. */
  ghost predicate Waits(s: State, c: nat) {
    && c < |s.clients| && s.clients[c].pc == Sent && s.clients[c].pid in s.fifos
    && forall g :: g in s.grants ==> g.owner != c
  }

  /** An unread reply is what the client reads. */
  lemma {:induction false} ReadsUnread(s: State, c: nat) returns (u: State)
    requires Waits(s, c) && s.fifos[s.clients[c].pid] != []
    ensures Reaches(Step, s, u) && !TellsOwn(u, c)
  {
    ReachesSelf(Step, s);
    OneMore(s, s, ReadReply(c));
    u := Apply(s, ReadReply(c));
  }

  /** A write to the FIFO of the waiting client, for another client's request. */
  lemma {:induction false} ReadsWritten(s: State, c: nat) returns (u: State)
    requires Waits(s, c) && s.server.Writing? && Holds(s, s.clients[c].pid) && s.server.req.client != c
    ensures Reaches(Step, s, u) && !TellsOwn(u, c)
  {
    assert IsProcess(s, c, s.clients[c].pid) && HasReader(s, s.clients[c].pid);
    ReachesSelf(Step, s);
    OneMore(s, s, Write);
    var t := Apply(s, Write);
    u := ReadsUnread(t, c);
    ReachesTrans(Step, s, t, u);
  }

  /** A request of an earlier process that the server holds is answered into the
      FIFO of the later one. */
  lemma {:induction false} ReadsReplyToHeld(s: State, c: nat) returns (u: State)
    requires Waits(s, c) && Answering(s, s.clients[c].pid) && s.server.req.client != c
    ensures Reaches(Step, s, u) && !TellsOwn(u, c)
  {
    if s.server.Writing? {
      u := ReadsWritten(s, c);
    } else {
      assert IsProcess(s, c, s.clients[c].pid) && HasReader(s, s.clients[c].pid);
      ReachesSelf(Step, s);
      OneMore(s, s, Open);
      var t := Apply(s, Open);
      u := ReadsWritten(t, c);
      ReachesTrans(Step, s, t, u);
    }
  }

  /** What is going on for process id `pid` is untouched, apart from the server. */
  ghost predicate Aside(s: State, t: State, c: nat) {
    && c < |s.clients| && Waits(t, c) && t.clients[c] == s.clients[c] && t.requests == s.requests
  }

  /** Some run removes the FIFO of another process id: its process ends, or one starts
      and ends. */
  lemma {:induction false} FifoGoes(s: State, c: nat, pid: int) returns (t: State)
    requires Waits(s, c) && s.clients[c].pid != pid
    ensures Reaches(Step, s, t) && Aside(s, t, c) && pid !in t.fifos
    ensures t.server == s.server || (Holds(s, pid) && t.server == Unlinked(s.server, pid))
  {
    ReachesSelf(Step, s);
    if Taken(s, pid) {
      var d :| 0 <= d < |s.clients| && IsProcess(s, d, pid);
      OneMore(s, s, Quit(d));
      t := Apply(s, Quit(d));
    } else {
      OneMore(s, s, Start(pid, 1));
      var u := Apply(s, Start(pid, 1));
      OneMore(s, u, Quit(|s.clients|));
      t := Apply(u, Quit(|s.clients|));
    }
  }

  /** Some run brings the server back to reading from its present request, which is of
      another process id. */
  lemma {:induction false} ServerGoesOn(s: State, c: nat) returns (t: State)
    requires Waits(s, c) && !Answering(s, s.clients[c].pid)
    requires s.server.Writing? ==> s.server.req.client != c
    ensures Reaches(Step, s, t) && Aside(s, t, c) && t.server == Reading
  {
    ReachesSelf(Step, s);
    match s.server
    case Reading => t := s;
    case Opening(req) =>
      var u := FifoGoes(s, c, req.pid);
      OneMore(s, u, OpenFails);
      t := Apply(u, OpenFails);
    case Writing(_, _) =>
      OneMore(s, s, Write);
      var u := Apply(s, Write);
      OneMore(s, u, Add);
      t := Apply(u, Add);
    case Adding(_, _) =>
      OneMore(s, s, Add);
      t := Apply(s, Add);
  }

  /** A request of an earlier process that is still queued, the first of its id, is
      answered as well. */
  lemma {:induction false} ReadsReplyToQueued(s: State, c: nat, i: nat) returns (u: State)
    requires Waits(s, c) && s.server == Reading && i < |s.requests|
    requires s.requests[i].pid == s.clients[c].pid && s.requests[i].client != c
    requires forall j :: 0 <= j < i ==> s.requests[j].pid != s.clients[c].pid
    ensures Reaches(Step, s, u) && !TellsOwn(u, c)
    decreases i
  {
    ReachesSelf(Step, s);
    OneMore(s, s, ReadRequest);
    var t := Apply(s, ReadRequest);
    if i == 0 {
      u := ReadsReplyToHeld(t, c);
      ReachesTrans(Step, s, t, u);
    } else {
      var t' := ServerGoesOn(t, c);
      u := ReadsReplyToQueued(t', c, i - 1);
      ReachesTrans(Step, t, t', u);
      ReachesTrans(Step, s, t, u);
    }
  }

  /** The client that starts with process id `pid` after `s`, about to read. */
  lemma {:induction false} StartAndSend(s: State, pid: int, seqLen: int) returns (w: State)
    requires Inv(s) && Enabled(s, Start(pid, seqLen))
    ensures var t := Apply(s, Start(pid, seqLen)); Reaches(Step, t, w)
    ensures var c := |s.clients|;
            && Waits(w, c) && w.clients[c].pid == pid && w.server == s.server && s.requests <= w.requests
            && w.fifos[pid] == if pid in s.fifos then s.fifos[pid] else []
  {
    var c := |s.clients|;
    var t := Apply(s, Start(pid, seqLen));
    ReachesSelf(Step, t);
    OneMore(t, t, Send(c));
    w := Apply(t, Send(c));
  }

  lemma {:induction false} FirstOfPid(requests: seq<Request>, pid: int, n: nat) returns (i: nat)
    requires n < |requests| && requests[n].pid == pid
    ensures i <= n && requests[i].pid == pid && forall j :: 0 <= j < i ==> requests[j].pid != pid
  {
    if j :| 0 <= j < n && requests[j].pid == pid {
      i := FirstOfPid(requests, pid, j);
    } else {
      i := n;
    }
  }

  lemma {:induction false} UncleanIsUnsafe(s: State, pid: int, seqLen: int) returns (u: State)
    requires Inv(s) && Enabled(s, Start(pid, seqLen)) && !Clean(s, pid)
    ensures Reaches(Step, Apply(s, Start(pid, seqLen)), u) && !TellsOwn(u, |s.clients|)
  {
    var c := |s.clients|;
    var w := StartAndSend(s, pid, seqLen);
    assert !s.server.Reading? ==> Genuine(s, s.server.req);
    if pid in s.fifos && s.fifos[pid] != [] {
      u := ReadsUnread(w, c);
    } else if Answering(s, pid) {
      u := ReadsReplyToHeld(w, c);
    } else {
      var n :| 0 <= n < |s.requests| && s.requests[n].pid == pid;
      var i := FirstOfPid(s.requests, pid, n);
      assert Genuine(s, s.requests[i]);
      var w' := ServerGoesOn(w, c);
      assert forall j :: 0 <= j <= i ==> w'.requests[j] == s.requests[j];
      u := ReadsReplyToQueued(w', c, i);
      ReachesTrans(Step, w, w', u);
    }
    ReachesTrans(Step, Apply(s, Start(pid, seqLen)), w, u);
  }

  /** A client that starts at the end of any run, with a process id new or used
      before, is sure to be told only the start of its own range if and only if
      nothing is left over from an earlier process with its id. */
  lemma {:induction false} ItsOwnExactly(run: seq<State>, pid: int, seqLen: int)
    requires IsRun(Init, Step, run) && Enabled(run[|run| - 1], Start(pid, seqLen))
    ensures var s := run[|run| - 1];
            AlwaysItsOwn(Apply(s, Start(pid, seqLen)), |s.clients|) <==> Clean(s, pid)
  {
    var s := run[|run| - 1];
    var t := Apply(s, Start(pid, seqLen));
    EveryRunInv(run, |run| - 1);
    if Clean(s, pid) {
      StepKeepsInv(s, Start(pid, seqLen));
      forall u | Reaches(Step, t, u) ensures TellsOwn(u, |s.clients|) {
        CleanIsEnough(t, |s.clients|, u);
      }
    } else {
      var u := UncleanIsUnsafe(s, pid, seqLen);
    }
  }

  /** A client that was killed after it had sent its request. */
  function KilledAfterSending(pid: int, seqLen: int): State {
    State(Reading, 0, [Request(pid, seqLen, 0)], [Client(pid, seqLen, Gone, true)], map[pid := []], [])
  }

  lemma {:induction false} KilledIsReached(pid: int, seqLen: int) returns (s: State)
    requires 0 < seqLen <= INT_MAX
    ensures Init(s) && Reaches(Step, s, KilledAfterSending(pid, seqLen))
  {
    s := State(Reading, 0, [], [], map[], []);
    ReachesSelf(Step, s);
    OneMore(s, s, Start(pid, seqLen));
    var t := Apply(s, Start(pid, seqLen));
    OneMore(s, t, Send(0));
    var u := Apply(t, Send(0));
    OneMore(s, u, Kill(0));
    assert Apply(u, Kill(0)) == KilledAfterSending(pid, seqLen);
  }

  /** The left-over does happen: a client is killed after sending its request, a new
      client gets its process id, and is told the start of the dead client's range. */
  lemma {:induction false} StaleRequestIsAnswered(pid: int, short: int, long: int) returns (s: State, u: State)
    requires 0 < short < long <= INT_MAX
    ensures Init(s) && Reaches(Step, s, u)
    ensures |u.clients| == 2 && u.clients[1] == Client(pid, long, Told(0), false)
    ensures u.grants == [Range(0, 0, short)]
  {
    s := KilledIsReached(pid, short);
    var t := KilledAfterSending(pid, short);
    OneMore(s, t, Start(pid, long));
    t := Apply(t, Start(pid, long));
    OneMore(s, t, Send(1));
    t := Apply(t, Send(1));
    OneMore(s, t, ReadRequest);
    t := Apply(t, ReadRequest);
    assert IsProcess(t, 1, pid) && HasReader(t, pid);
    OneMore(s, t, Open);
    t := Apply(t, Open);
    assert IsProcess(t, 1, pid) && HasReader(t, pid);
    OneMore(s, t, Write);
    t := Apply(t, Write);
    OneMore(s, t, ReadReply(1));
    u := Apply(t, ReadReply(1));
  }

  // ----- the server can hang

  /** A step of the server. */
  predicate IsServers(a: Action) {
    a.ReadRequest? || a.OpenFails? || a.Open? || a.Write? || a.Add?
  }

  /** In the open of a FIFO that exists and that nobody reads. */
  predicate Blocked(s: State) {
    s.server.Opening? && s.server.req.pid in s.fifos && !HasReader(s, s.server.req.pid)
  }

  /** The server has no step exactly if it waits for a request or is blocked. */
  lemma {:induction false} ServerWaitsExactly(s: State)
    ensures (forall a :: IsServers(a) ==> !Enabled(s, a)) <==> (s.server == Reading && s.requests == []) || Blocked(s)
  {
    assert IsServers(ReadRequest) && IsServers(OpenFails) && IsServers(Open) && IsServers(Write) && IsServers(Add);
  }

  /** What stays as it was in `s` while the server is blocked. */
  ghost predicate Hangs(s: State, t: State) {
    && Blocked(t) && t.server == s.server && t.seqNum == s.seqNum && t.grants == s.grants
    && s.requests <= t.requests && |s.clients| <= |t.clients|
    && (forall pid :: pid in t.fifos ==> t.fifos[pid] == [])
    && (forall c :: 0 <= c < |t.clients| && t.clients[c].pc.Told? ==> c < |s.clients| && s.clients[c] == t.clients[c])
  }

  lemma {:induction false} HangStep(s: State, t: State, u: State)
    requires Hangs(s, t) && Step(t, u) && !Taken(t, s.server.req.pid) && !Taken(u, s.server.req.pid)
    ensures Hangs(s, u)
  {
    var a :| Enabled(t, a) && u == Apply(t, a);
    var pid := s.server.req.pid;
    match a
    case Kill(c) => assert t.clients[c].pid == pid ==> IsProcess(t, c, pid);
    case Quit(c) => assert t.clients[c].pid == pid ==> IsProcess(t, c, pid);
    case _ =>
  }

  /** Blocked with no reply on its way, the server stays blocked, and no client is ever
      told anything again, for as long as no process has the id it waits for. */
  lemma {:induction false} HangsForEverybody(run: seq<State>, i: nat)
    requires |run| > 0 && Follows(Step, run) && i < |run|
    requires Blocked(run[0]) && forall pid :: pid in run[0].fifos ==> run[0].fifos[pid] == []
    requires forall k :: 0 <= k < |run| ==> !Taken(run[k], run[0].server.req.pid)
    ensures Hangs(run[0], run[i])
  {
    if i == 0 {
    } else {
      HangsForEverybody(run, i - 1);
      HangStep(run[0], run[i - 1], run[i]);
    }
  }

  /** One client killed after sending its request is enough. */
  lemma {:induction false} OneKillBlocks(pid: int, seqLen: int) returns (s: State, t: State)
    requires 0 < seqLen <= INT_MAX
    ensures Init(s) && Reaches(Step, s, t)
    ensures Blocked(t) && !Taken(t, pid) && t.server.req.pid == pid && t.fifos == map[pid := []]
  {
    s := KilledIsReached(pid, seqLen);
    var u := KilledAfterSending(pid, seqLen);
    OneMore(s, u, ReadRequest);
    t := Apply(u, ReadRequest);
  }
}
