/** is_seqnum_sv.c: the same service over sockets, one connection at a time, with
    a counter that is a uint32_t and so wraps around. */
module IsSeqnum {
  import opened Limits
  import opened Sums

  /** What one connection brings: readLine fails or finds nothing, or a line
      whose atoi value is `reqLen`. */
  datatype Connection = NoLine | Line(reqLen: int)

  datatype Reply = Skipped | Number(printed: int)

  ghost predicate IsInt(c: Connection) {
    c.Line? ==> -INT_MAX - 1 <= c.reqLen <= INT_MAX
  }

  /** "%d" applied to the unsigned counter: the int with the same residue. */
  function Printed(w: nat): (d: int)
    requires w < WORD
    ensures -INT_MAX - 1 <= d <= INT_MAX && d % WORD == w
  {
    if w <= INT_MAX then w else w - WORD
  }

  /** A request that is answered. */
  predicate Good(c: Connection) {
    c.Line? && c.reqLen > 0
  }

  /** Numbers a connection asks for; a bad request is skipped and uses none. */
  function Wanted(c: Connection): (n: nat)
    ensures Good(c) ==> n == c.reqLen
    ensures !Good(c) ==> n == 0
  {
    if c.Line? && c.reqLen > 0 then c.reqLen else 0
  }

  /** Numbers handed out before connection `k`, without wrap-around. */
  function Before(conns: seq<Connection>, k: nat): nat
    requires k <= |conns|
  {
    Sum(Wanted, conns[..k])
  }

  /** The first number given to connection `k`. */
  function StartOf(initial: nat, conns: seq<Connection>, k: nat): (w: nat)
    requires k <= |conns|
    ensures w < WORD
  {
    (initial + Before(conns, k)) % WORD
  }

  lemma {:induction false} BeforeNext(conns: seq<Connection>, k: nat)
    requires k < |conns|
    ensures Before(conns, k + 1) == Before(conns, k) + Wanted(conns[k])
  {
    assert conns[..k + 1] == conns[..k] + [conns[k]];
    SumAppend(Wanted, conns[..k], conns[k]);
  }

  lemma {:induction false} NextStart(initial: nat, conns: seq<Connection>, k: nat)
    requires k < |conns|
    ensures StartOf(initial, conns, k + 1) == (StartOf(initial, conns, k) + Wanted(conns[k])) % WORD
  {
    BeforeNext(conns, k);
  }

  lemma {:induction false} BeforeMonotone(conns: seq<Connection>, i: nat, j: nat)
    requires i <= j <= |conns|
    ensures Before(conns, i) <= Before(conns, j)
  {
    if i == j {
    } else {
      BeforeMonotone(conns, i, j - 1);
      BeforeNext(conns, j - 1);
    }
  }

  /** The client loop. Every good request is answered with the counter as it
      stands after all earlier good requests, modulo 2^32. */
  method Serve(initial: nat, conns: seq<Connection>) returns (seqNum: nat, replies: seq<Reply>)
    requires initial < WORD
    requires forall c :: c in conns ==> IsInt(c)
    ensures |replies| == |conns|
    ensures forall k :: 0 <= k < |conns| ==>
              replies[k] == if Good(conns[k]) then Number(Printed(StartOf(initial, conns, k))) else Skipped
    ensures seqNum == StartOf(initial, conns, |conns|)
    ensures InSteps(initial, conns, replies)
  {
    seqNum, replies := initial, [];
    for k := 0 to |conns|
      invariant |replies| == k
      invariant seqNum == StartOf(initial, conns, k)
      invariant forall i :: 0 <= i < k ==>
                  replies[i] == if Good(conns[i]) then Number(Printed(StartOf(initial, conns, i))) else Skipped
    {
      NextStart(initial, conns, k);
      var c := conns[k];
      if c.NoLine? || c.reqLen <= 0 {
        replies := replies + [Skipped];
      } else {
        replies := replies + [Number(Printed(seqNum))];
        seqNum := (seqNum + c.reqLen) % WORD;
      }
    }
    RepliesInSteps(initial, conns, replies);
  }

  /** Connections `i` and `j` are answered and none between them is. */
  predicate Neighbours(conns: seq<Connection>, i: int, j: int) {
    && 0 <= i < j < |conns| && Good(conns[i]) && Good(conns[j])
    && forall m :: i < m < j ==> !Good(conns[m])
  }

  /** The first answer is the initial value, and each further one is the answer before
      it and the length asked for then, modulo 2^32. */
  ghost predicate InSteps(initial: nat, conns: seq<Connection>, replies: seq<Reply>) {
    && |replies| == |conns| && (forall k :: 0 <= k < |conns| ==> (replies[k].Number? <==> Good(conns[k])))
    && (forall j :: 0 <= j < |conns| && Good(conns[j]) && (forall m :: 0 <= m < j ==> !Good(conns[m])) ==>
          replies[j].printed % WORD == initial % WORD)
    && (forall i, j :: Neighbours(conns, i, j) ==>
          replies[j].printed % WORD == (replies[i].printed + conns[i].reqLen) % WORD)
  }

  lemma {:induction false} NothingBetween(conns: seq<Connection>, i: nat, j: nat)
    requires i <= j <= |conns| && forall m :: i <= m < j ==> !Good(conns[m])
    ensures Before(conns, j) == Before(conns, i)
  {
    if i < j {
      NothingBetween(conns, i, j - 1);
      BeforeNext(conns, j - 1);
    }
  }

  lemma {:induction false} RepliesInSteps(initial: nat, conns: seq<Connection>, replies: seq<Reply>)
    requires |replies| == |conns|
    requires forall k :: 0 <= k < |conns| ==>
               replies[k] == if Good(conns[k]) then Number(Printed(StartOf(initial, conns, k))) else Skipped
    ensures InSteps(initial, conns, replies)
  {
    forall j | 0 <= j < |conns| && Good(conns[j]) && (forall m :: 0 <= m < j ==> !Good(conns[m]))
      ensures replies[j].printed % WORD == initial % WORD
    {
      NothingBetween(conns, 0, j);
      assert Before(conns, 0) == 0;
    }
    forall i, j | Neighbours(conns, i, j)
      ensures replies[j].printed % WORD == (replies[i].printed + conns[i].reqLen) % WORD
    {
      NothingBetween(conns, i + 1, j);
      NextStart(initial, conns, i);
      SameSum(replies[i].printed, StartOf(initial, conns, i), conns[i].reqLen);
    }
  }

  lemma {:induction false} SameSum(a: int, b: int, n: int)
    requires a % WORD == b % WORD
    ensures (a + n) % WORD == (b + n) % WORD
  {
  }

  /** Number `x` is one of those given to connection `k`: counting up from its
      start, with wrap-around, reaches `x` within the length. */
  predicate Owns(initial: nat, conns: seq<Connection>, k: nat, x: nat)
    requires k < |conns|
  {
    (x - StartOf(initial, conns, k)) % WORD < Wanted(conns[k])
  }

  ghost predicate AllDisjoint(initial: nat, conns: seq<Connection>) {
    forall i, j, x: nat :: 0 <= i < j < |conns| && x < WORD ==>
                             !(Owns(initial, conns, i, x) && Owns(initial, conns, j, x))
  }

  /** An owned number, as an offset in the unwrapped sequence. */
  lemma {:induction false} Unwrap(initial: nat, conns: seq<Connection>, k: nat, x: nat) returns (y: nat)
    requires k < |conns| && x < WORD && Owns(initial, conns, k, x)
    ensures Before(conns, k) <= y < Before(conns, k + 1)
    ensures (initial + y) % WORD == x
  {
    BeforeNext(conns, k);
    y := Before(conns, k) + (x - StartOf(initial, conns, k)) % WORD;
  }

  lemma {:induction false} SameResidue(a: nat, b: nat)
    requires a < b < a + WORD
    ensures a % WORD != b % WORD
  {
  }

  lemma {:induction false} SmallTotalsAreDisjoint(initial: nat, conns: seq<Connection>, i: nat, j: nat, x: nat)
    requires Before(conns, |conns|) <= WORD
    requires i < j < |conns| && x < WORD
    ensures !(Owns(initial, conns, i, x) && Owns(initial, conns, j, x))
  {
    if Owns(initial, conns, i, x) && Owns(initial, conns, j, x) {
      var y := Unwrap(initial, conns, i, x);
      var z := Unwrap(initial, conns, j, x);
      BeforeMonotone(conns, i + 1, j);
      BeforeMonotone(conns, j + 1, |conns|);
      SameResidue(initial + y, initial + z);
    }
  }

  /** The connection during which the unwrapped count passes `y`. */
  lemma {:induction false} Crossing(conns: seq<Connection>, y: nat, n: nat) returns (k: nat)
    requires n <= |conns| && y < Before(conns, n)
    ensures k < n && Before(conns, k) <= y < Before(conns, k + 1)
  {
    BeforeNext(conns, n - 1);
    if Before(conns, n - 1) <= y {
      k := n - 1;
    } else {
      k := Crossing(conns, y, n - 1);
    }
  }

  lemma {:induction false} LargeTotalsOverlap(initial: nat, conns: seq<Connection>) returns (i: nat, j: nat)
    requires initial < WORD
    requires forall c :: c in conns ==> IsInt(c)
    requires Before(conns, |conns|) > WORD
    ensures i < j < |conns|
    ensures Owns(initial, conns, i, initial) && Owns(initial, conns, j, initial)
  {
    i := Crossing(conns, 0, |conns|);
    j := Crossing(conns, WORD, |conns|);
    BeforeNext(conns, i);
    BeforeNext(conns, j);
    assert conns[j] in conns;
    if j <= i {
      BeforeMonotone(conns, j, i);
    }
  }

  /** Wrap-around is harmless exactly as long as no more than 2^32 numbers have
      been asked for in all: beyond that, and only then, some number is given to
      two clients. */
  lemma {:induction false} DisjointExactly(initial: nat, conns: seq<Connection>)
    requires initial < WORD
    requires forall c :: c in conns ==> IsInt(c)
    ensures AllDisjoint(initial, conns) <==> Before(conns, |conns|) <= WORD
  {
    if Before(conns, |conns|) <= WORD {
      forall i, j, x: nat | 0 <= i < j < |conns| && x < WORD
        ensures !(Owns(initial, conns, i, x) && Owns(initial, conns, j, x))
      {
        SmallTotalsAreDisjoint(initial, conns, i, j, x);
      }
    } else {
      var i, j := LargeTotalsOverlap(initial, conns);
    }
  }
}
