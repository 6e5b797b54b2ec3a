/** vector_fileio.c: writev and readv built on write and read. */
module VectorIO {
  import opened FileIO
  import opened Limits

  /** What the next write of `len` bytes returns when the kernel's answers are to be
      `outcomes`: a count of at most `len`, or -1. After these all writes are full. */
  function Took(outcomes: seq<int>, len: nat): (w: int)
    ensures -1 <= w <= len
  {
    if outcomes == [] then len else if outcomes[0] < 0 then -1 else if outcomes[0] > len then len else outcomes[0]
  }

  function Later(outcomes: seq<int>): seq<int> {
    if outcomes == [] then [] else outcomes[1..]
  }

  /** A file being written, with everything written so far. */
  class Sink {
    var data: seq<Byte>
    var outcomes: seq<int>

    constructor (outcomes: seq<int>)
      ensures data == [] && this.outcomes == outcomes
    {
      data, this.outcomes := [], outcomes;
    }

    /** write(2): a leading part of `buf` is written, or -1 and nothing. */
    method Write(buf: seq<Byte>) returns (w: int)
      modifies this
      ensures w == Took(old(outcomes), |buf|) && outcomes == Later(old(outcomes))
      ensures data == old(data) + if w < 0 then [] else buf[..w]
    {
      w := Took(outcomes, |buf|);
      outcomes := Later(outcomes);
      data := data + if w < 0 then [] else buf[..w];
    }
  }

  /** Conversion of an ssize_t to int: the value itself, if it fits. */
  function ToInt(n: int): (r: int)
    ensures -INT_MAX - 1 <= r <= INT_MAX
    ensures -INT_MAX - 1 <= n <= INT_MAX ==> r == n
    ensures n >= 0 ==> r <= n
  {
    (n + INT_MAX + 1) % WORD - INT_MAX - 1
  }

  /** Where area `i` begins when areas of these lengths are laid end to end. */
  function Offset(lens: seq<nat>, i: nat): nat
    requires i <= |lens|
  {
    if i == 0 then 0 else Offset(lens, i - 1) + lens[i - 1]
  }

  function Total(lens: seq<nat>): nat {
    Offset(lens, |lens|)
  }

  lemma {:induction false} OffsetMonotone(lens: seq<nat>, i: nat, j: nat)
    requires i <= j <= |lens|
    ensures Offset(lens, i) <= Offset(lens, j)
  {
    if i == j {
    } else {
      OffsetMonotone(lens, i, j - 1);
    }
  }

  lemma {:induction false} OffsetPrefix(lens: seq<nat>, cnt: nat, i: nat)
    requires i <= cnt <= |lens|
    ensures Offset(lens[..cnt], i) == Offset(lens, i)
  {
    if i == 0 {
    } else {
      OffsetPrefix(lens, cnt, i - 1);
    }
  }

  /** Some running sum, as the unsigned counter holds it, exceeds SSIZE_MAX. */
  ghost predicate Refuses(lens: seq<nat>) {
    exists j :: 0 < j <= |lens| && Offset(lens, j) % ULLONG > SSIZE_MAX
  }

  lemma {:induction false} SumModulo(a: nat, b: nat)
    ensures (a % ULLONG + b) % ULLONG == (a + b) % ULLONG
  {
    var q, r := a / ULLONG, a % ULLONG;
    assert a + b == ULLONG * q + (r + b);
  }

  /** The check at the head of both functions, with its unsigned counter. */
  method TooLong(lens: seq<nat>) returns (bad: bool)
    ensures bad <==> Refuses(lens)
  {
    var cnt: nat := 0;
    for i := 0 to |lens|
      invariant cnt == Offset(lens, i) % ULLONG
      invariant forall j :: 0 < j <= i ==> Offset(lens, j) % ULLONG <= SSIZE_MAX
    {
      SumModulo(Offset(lens, i), lens[i]);
      cnt := (cnt + lens[i]) % ULLONG;
      assert cnt == Offset(lens, i + 1) % ULLONG;
      if cnt > SSIZE_MAX {
        return true;
      }
    }
    return false;
  }

  /** What the check refuses is in truth too long. */
  lemma {:induction false} RefusalIsRight(lens: seq<nat>)
    requires Refuses(lens)
    ensures Total(lens) > SSIZE_MAX
  {
    var j :| 0 < j <= |lens| && Offset(lens, j) % ULLONG > SSIZE_MAX;
    OffsetMonotone(lens, j, |lens|);
  }

  /** With areas of up to 2^63 bytes, which no sum can jump over, all that is too long
      is refused. */
  lemma {:induction false} SmallAreasAreChecked(lens: seq<nat>, n: nat)
    requires n <= |lens| && forall i :: 0 <= i < |lens| ==> lens[i] <= SSIZE_MAX + 1
    ensures Offset(lens, n) > SSIZE_MAX ==> Refuses(lens)
  {
    if n == 0 {
    } else {
      SmallAreasAreChecked(lens, n - 1);
      if Offset(lens, n - 1) <= SSIZE_MAX < Offset(lens, n) {
        assert Offset(lens, n) % ULLONG == Offset(lens, n);
      }
    }
  }

  lemma {:induction false} OffsetAtLeast(lens: seq<nat>, i: nat, n: nat)
    requires i < n <= |lens|
    ensures lens[i] <= Offset(lens, n)
  {
    if i == n - 1 {
    } else {
      OffsetAtLeast(lens, i, n - 1);
    }
  }

  /** A vector that the check accepts is in truth too long if and only if one of its
      areas alone is longer than 2^63 bytes. */
  lemma {:induction false} AcceptedWronglyExactly(lens: seq<nat>)
    requires !Refuses(lens)
    ensures Total(lens) > SSIZE_MAX <==> exists i :: 0 <= i < |lens| && lens[i] > SSIZE_MAX + 1
  {
    if i :| 0 <= i < |lens| && lens[i] > SSIZE_MAX + 1 {
      OffsetAtLeast(lens, i, |lens|);
    } else {
      SmallAreasAreChecked(lens, |lens|);
    }
  }

  lemma {:induction false} OffsetsOfTwo(a: nat, b: nat)
    ensures Offset([a, b], 0) == 0 && Offset([a, b], 1) == a && Offset([a, b], 2) == a + b
  {
    assert Offset([a, b], 0) == 0;
    assert Offset([a, b], 1) == Offset([a, b], 0) + a;
    assert Offset([a, b], 2) == Offset([a, b], 1) + b;
  }

  /** Such vectors: the second area brings the counter back to 0. */
  lemma {:induction false} WrapIsAccepted(n: nat)
    requires 0 < n <= SSIZE_MAX
    ensures !Refuses([n, ULLONG - n]) && Total([n, ULLONG - n]) > SSIZE_MAX
  {
    OffsetsOfTwo(n, ULLONG - n);
  }

  predicate UpTo(lens: seq<nat>, m: nat) {
    forall i :: 0 <= i < |lens| ==> lens[i] <= m
  }

  /** The check agrees with the true total for all vectors of areas of up to `m` bytes
      if and only if `m` is at most 2^63. */
  lemma {:induction false} CheckIsRightExactly(m: nat)
    ensures (forall lens :: UpTo(lens, m) ==> (Refuses(lens) <==> Total(lens) > SSIZE_MAX)) <==> m <= SSIZE_MAX + 1
  {
    if m <= SSIZE_MAX + 1 {
      forall lens | UpTo(lens, m) ensures Refuses(lens) <==> Total(lens) > SSIZE_MAX {
        if Refuses(lens) {
          RefusalIsRight(lens);
        } else {
          AcceptedWronglyExactly(lens);
        }
      }
    } else {
      WrapIsAccepted(SSIZE_MAX);
      assert UpTo([SSIZE_MAX, ULLONG - SSIZE_MAX], m);
    }
  }

  // ----- writing

  ghost predicate HasLens(bufs: seq<seq<Byte>>, lens: seq<nat>) {
    |bufs| == |lens| && forall i {:trigger bufs[i]} :: 0 <= i < |bufs| ==> |bufs[i]| == lens[i]
  }

  function Lens(bufs: seq<seq<Byte>>): (lens: seq<nat>)
    ensures HasLens(bufs, lens)
  {
    seq(|bufs|, i requires 0 <= i < |bufs| => |bufs[i]|)
  }

  /** The first `i` buffers, end to end. */
  function ConcatTo(bufs: seq<seq<Byte>>, i: nat): seq<Byte>
    requires i <= |bufs|
  {
    if i == 0 then [] else ConcatTo(bufs, i - 1) + bufs[i - 1]
  }

  function Concat(bufs: seq<seq<Byte>>): seq<Byte> {
    ConcatTo(bufs, |bufs|)
  }

  lemma {:induction false} ConcatLength(bufs: seq<seq<Byte>>, lens: seq<nat>, i: nat)
    requires HasLens(bufs, lens) && i <= |bufs|
    ensures |ConcatTo(bufs, i)| == Offset(lens, i)
  {
    if i == 0 {
    } else {
      ConcatLength(bufs, lens, i - 1);
    }
  }

  lemma {:induction false} ConcatPrefix(bufs: seq<seq<Byte>>, i: nat, j: nat)
    requires i <= j <= |bufs|
    ensures ConcatTo(bufs, i) <= ConcatTo(bufs, j)
  {
    if i == j {
    } else {
      ConcatPrefix(bufs, i, j - 1);
    }
  }

  /** Buffer `i` is found behind those before it. */
  lemma {:induction false} ConcatAt(bufs: seq<seq<Byte>>, i: nat)
    requires i < |bufs|
    ensures var t, all := |ConcatTo(bufs, i)|, Concat(bufs);
            t + |bufs[i]| <= |all| && all[t..t + |bufs[i]|] == bufs[i]
  {
    ConcatPrefix(bufs, i + 1, |bufs|);
  }

  /** A leading part of `all` has been added to `before`. */
  ghost predicate Emitted(before: seq<Byte>, all: seq<Byte>, t: int, now: seq<Byte>) {
    0 <= t <= |all| && now == before + all[..t]
  }

  lemma {:induction false} EmitMore(before: seq<Byte>, all: seq<Byte>, t: int, now: seq<Byte>, buf: seq<Byte>, w: nat)
    requires Emitted(before, all, t, now)
    requires w <= |buf| && t + |buf| <= |all| && all[t..t + |buf|] == buf
    ensures Emitted(before, all, t + w, now + buf[..w])
  {
    assert all[..t] + buf[..w] == all[..t + w];
  }

  /** What a call returns, and how many bytes have reached the file. */
  datatype Done = Done(result: int, moved: nat)

  /** The transfer loop from area `i` on, over areas of these lengths, when `r` has
      been added up and `t` bytes have been written. Each count passes through an int. */
  function Transfer(lens: seq<nat>, i: nat, outcomes: seq<int>, r: int, t: nat): Done
    requires i <= |lens|
    decreases |lens| - i
  {
    if i == |lens| then Done(r, t)
    else
      var w := Took(outcomes, lens[i]);
      var bytes := ToInt(w);
      var moved := t + if w < 0 then 0 else w;
      if bytes < 0 then Done(bytes, moved)
      else if bytes < lens[i] then Done(r + bytes, moved)
      else Transfer(lens, i + 1, Later(outcomes), r + bytes, moved)
  }

  function Transferred(lens: seq<nat>, outcomes: seq<int>): Done {
    Transfer(lens, 0, outcomes, 0, 0)
  }

  /** What a call of writev with at least 0 areas does. */
  ghost function WritevDone(lens: seq<nat>, outcomes: seq<int>): Done {
    if Refuses(lens) then Done(-1, 0) else Transferred(lens, outcomes)
  }

  /** writev. What reaches the file is always a leading part of the concatenated
      buffers. */
  method Writev(file: Sink, iov: seq<seq<Byte>>, iovcnt: int) returns (r: int)
    requires iovcnt <= |iov|
    modifies file
    ensures iovcnt < 0 ==> r == -1 && file.data == old(file.data)
    ensures iovcnt >= 0 ==>
              var d := WritevDone(Lens(iov[..iovcnt]), old(file.outcomes));
              r == d.result && Emitted(old(file.data), Concat(iov[..iovcnt]), d.moved, file.data)
  {
    if iovcnt < 0 {
      return -1;
    }
    var bufs := iov[..iovcnt];
    var bad := TooLong(Lens(bufs));
    if bad {
      return -1;
    }
    r := WriteAreas(file, bufs);
  }

  /** Bytes in the first `cnt` areas. */
  function Room(areas: seq<seq<Byte>>, cnt: nat): nat
    requires cnt <= |areas|
  {
    |ConcatTo(areas, cnt)|
  }

  /** One pass of the transfer loop of writev. */
  method WriteOne(file: Sink, bufs: seq<seq<Byte>>, i: nat, r: nat, ghost before: seq<Byte>, ghost lens: seq<nat>)
    returns (r': int, stop: bool)
    requires i < |bufs| && lens == Lens(bufs) && r == Room(bufs, i) && Emitted(before, Concat(bufs), r, file.data)
    modifies file
    ensures var d := Transfer(lens, i, old(file.outcomes), r, r);
            if stop then r' == d.result && Emitted(before, Concat(bufs), d.moved, file.data)
            else
              && r' == Room(bufs, i + 1) && Emitted(before, Concat(bufs), r', file.data)
              && d == Transfer(lens, i + 1, file.outcomes, r', r')
  {
    ConcatAt(bufs, i);
    ghost var sofar := file.data;
    assert lens[i] == |bufs[i]|;
    var w := file.Write(bufs[i]);
    var bytesWritten := ToInt(w);
    if w >= 0 {
      EmitMore(before, Concat(bufs), r, sofar, bufs[i], w);
    }
    if bytesWritten < 0 {
      return bytesWritten, true;
    }
    return r + bytesWritten, bytesWritten < |bufs[i]|;
  }

  /** The transfer loop of writev. */
  method WriteAreas(file: Sink, bufs: seq<seq<Byte>>) returns (r: int)
    modifies file
    ensures var d := Transferred(Lens(bufs), old(file.outcomes));
            r == d.result && Emitted(old(file.data), Concat(bufs), d.moved, file.data)
  {
    ghost var before, lens := file.data, Lens(bufs);
    r := 0;
    for i := 0 to |bufs|
      invariant r == Room(bufs, i) && Emitted(before, Concat(bufs), r, file.data)
      invariant Transferred(lens, old(file.outcomes)) == Transfer(lens, i, file.outcomes, r, r)
    {
      var stop;
      r, stop := WriteOne(file, bufs, i, r, before, lens);
      if stop {
        return;
      }
    }
  }

  // ----- what a result of writev means

  /** No area is longer than an int can count. */
  predicate FitsInt(lens: seq<nat>) {
    forall i :: 0 <= i < |lens| ==> lens[i] <= INT_MAX
  }

  /** With such areas, the result is -1 or the number of bytes written, and it is -1
      only if a write failed. */
  lemma {:induction false} ResultCounts(lens: seq<nat>, i: nat, outcomes: seq<int>, r: nat)
    requires FitsInt(lens) && i <= |lens|
    ensures var d := Transfer(lens, i, outcomes, r, r);
            && (d.result == -1 || d.result == d.moved)
            && (d.result == -1 ==> exists o :: o in outcomes && o < 0)
    decreases |lens| - i
  {
    if i == |lens| {
    } else {
      var w := Took(outcomes, lens[i]);
      if w == -1 {
        assert outcomes[0] in outcomes;
      } else if w == lens[i] {
        ResultCounts(lens, i + 1, Later(outcomes), r + w);
        assert forall o :: o in Later(outcomes) ==> o in outcomes;
      }
    }
  }

  /** ... and without short or failing writes it is everything. */
  lemma {:induction false} FullTransfer(lens: seq<nat>, i: nat)
    requires FitsInt(lens) && i <= |lens|
    ensures Transfer(lens, i, [], Offset(lens, i), Offset(lens, i)) == Done(Total(lens), Total(lens))
    decreases |lens| - i
  {
    if i == |lens| {
    } else {
      FullTransfer(lens, i + 1);
    }
  }

  /** Full writes of areas of these lengths, then outcome `o`. */
  function FullThen(full: seq<nat>, o: int): seq<int> {
    var counts: seq<int> := full;
    counts + [o]
  }

  lemma {:induction false} FirstOfFull(lens: seq<nat>, i: nat, k: nat, o: int)
    requires i < k <= |lens|
    ensures Took(FullThen(lens[i..k], o), lens[i]) == lens[i]
    ensures Later(FullThen(lens[i..k], o)) == FullThen(lens[i + 1..k], o)
  {
  }

  /** Full writes of areas `i` to `k` - 1 lead on to area `k`. */
  lemma {:induction false} Passes(lens: seq<nat>, i: nat, k: nat, o: int, r: int, t: nat) returns (x: nat)
    requires i <= k <= |lens| && forall j :: i <= j < k ==> lens[j] <= INT_MAX
    ensures Transfer(lens, i, FullThen(lens[i..k], o), r, t) == Transfer(lens, k, FullThen([], o), r + x, t + x)
    ensures forall j :: i <= j < k ==> lens[j] <= x
    decreases k - i
  {
    if i == k {
      x := 0;
      assert lens[i..k] == [];
    } else {
      FirstOfFull(lens, i, k, o);
      var y := Passes(lens, i + 1, k, o, r + lens[i], t + lens[i]);
      x := lens[i] + y;
    }
  }

  lemma {:induction false} FirstOver(lens: seq<nat>, n: nat) returns (k: nat)
    requires n <= |lens| && exists j :: 0 <= j < n && lens[j] > INT_MAX
    ensures k < n && lens[k] > INT_MAX && forall j :: 0 <= j < k ==> lens[j] <= INT_MAX
  {
    if j :| 0 <= j < n - 1 && lens[j] > INT_MAX {
      k := FirstOver(lens, n - 1);
    } else {
      k := n - 1;
    }
  }

  /** One byte more than an int can count comes out as a negative result. */
  lemma {:induction false} OverlongTransfer(lens: seq<nat>) returns (outcomes: seq<int>)
    requires !FitsInt(lens)
    ensures Transferred(lens, outcomes).result == -INT_MAX - 1 && Transferred(lens, outcomes).moved > INT_MAX
  {
    var k := FirstOver(lens, |lens|);
    outcomes := FullThen(lens[0..k], INT_MAX + 1);
    var x := Passes(lens, 0, k, INT_MAX + 1, 0, 0);
    assert ToInt(INT_MAX + 1) == -INT_MAX - 1;
  }

  /** The result of writev is -1 or the number of bytes written, whatever the writes
      do, if and only if the vector is refused or no area is longer than an int can
      count. */
  lemma {:induction false} CountsExactly(lens: seq<nat>)
    ensures (forall outcomes :: var d := WritevDone(lens, outcomes); d.result == -1 || d.result == d.moved) <==>
            Refuses(lens) || FitsInt(lens)
  {
    if Refuses(lens) {
    } else if FitsInt(lens) {
      forall outcomes ensures var d := WritevDone(lens, outcomes); d.result == -1 || d.result == d.moved {
        ResultCounts(lens, 0, outcomes, 0);
      }
    } else {
      var outcomes := OverlongTransfer(lens);
      assert WritevDone(lens, outcomes) == Transferred(lens, outcomes);
    }
  }

  /** The comment above writev promises that after a failure the file is unchanged. */
  ghost predicate FailsCleanly(lens: seq<nat>) {
    forall outcomes :: var d := WritevDone(lens, outcomes); d.result < 0 ==> d.moved == 0
  }

  /** All areas but the last are empty, and an int can count the last. */
  predicate OnlyLast(lens: seq<nat>) {
    forall i :: 0 <= i < |lens| ==> lens[i] <= if i == |lens| - 1 then INT_MAX else 0
  }

  lemma {:induction false} OnlyLastIsClean(lens: seq<nat>, i: nat, outcomes: seq<int>)
    requires OnlyLast(lens) && i <= |lens|
    ensures Transfer(lens, i, outcomes, 0, 0).result < 0 ==> Transfer(lens, i, outcomes, 0, 0).moved == 0
    decreases |lens| - i
  {
    if i + 1 >= |lens| {
      assert i < |lens| ==> Transfer(lens, |lens|, Later(outcomes), lens[i], lens[i]) == Done(lens[i], lens[i]);
    } else {
      OnlyLastIsClean(lens, i + 1, Later(outcomes));
    }
  }

  /** Two areas, of which the second cannot be written: -1, and the first is in the
      file. */
  lemma {:induction false} SecondWriteFails(first: nat, second: nat)
    requires first <= INT_MAX
    ensures Transferred([first, second], FullThen([first], -1)) == Done(-1, first)
  {
    var lens := [first, second];
    assert lens[0..1] == [first] && lens[1..1] == [];
    FirstOfFull(lens, 0, 1, -1);
    assert Transfer(lens, 1, FullThen([], -1), first, first) == Done(-1, first);
  }

  lemma {:induction false} SomeWriteFails(lens: seq<nat>) returns (outcomes: seq<int>)
    requires !OnlyLast(lens)
    ensures Transferred(lens, outcomes).result < 0 && Transferred(lens, outcomes).moved > 0
  {
    if !FitsInt(lens) {
      outcomes := OverlongTransfer(lens);
    } else {
      var k :| 0 <= k < |lens| && lens[k] > if k == |lens| - 1 then INT_MAX else 0;
      var x := Passes(lens, 0, k + 1, -1, 0, 0);
      outcomes := FullThen(lens[0..k + 1], -1);
      assert Transferred(lens, outcomes) == Done(-1, x);
    }
  }

  /** The promise is kept, whatever the writes do, if and only if the vector is refused,
      or all areas but the last are empty and the last is no longer than an int can
      count. */
  lemma {:induction false} FailsCleanlyExactly(lens: seq<nat>)
    ensures FailsCleanly(lens) <==> Refuses(lens) || OnlyLast(lens)
  {
    if Refuses(lens) {
    } else if OnlyLast(lens) {
      forall outcomes ensures var d := WritevDone(lens, outcomes); d.result < 0 ==> d.moved == 0 {
        OnlyLastIsClean(lens, 0, outcomes);
      }
    } else {
      var outcomes := SomeWriteFails(lens);
      assert WritevDone(lens, outcomes) == Transferred(lens, outcomes);
    }
  }

  // ----- reading into areas of memory

  /** The areas that an iovec array points to; they do not overlap. */
  class Memory {
    var areas: seq<seq<Byte>>

    constructor (areas: seq<seq<Byte>>)
      ensures this.areas == areas
    {
      this.areas := areas;
    }
  }

  ghost predicate SameShape(a: seq<seq<Byte>>, b: seq<seq<Byte>>) {
    |a| == |b| && forall i {:trigger a[i]} {:trigger b[i]} :: 0 <= i < |a| ==> |a[i]| == |b[i]|
  }

  /** `t` bytes of `input` have moved from the file, which has `rest` left, into the
      areas: laid end to end, these hold the bytes and then what was there before, so
      they were filled in order and without a gap. */
  ghost predicate Delivered(was: seq<seq<Byte>>, now: seq<seq<Byte>>, input: seq<Byte>, t: int, rest: seq<Byte>) {
    && SameShape(was, now)
    && 0 <= t <= |input| && t <= |Concat(was)|
    && Concat(now) == input[..t] + Concat(was)[t..]
    && rest == input[t..]
  }

  lemma {:induction false} SameOffsets(a: seq<seq<Byte>>, b: seq<seq<Byte>>, j: nat)
    requires SameShape(a, b) && j <= |a|
    ensures |ConcatTo(a, j)| == |ConcatTo(b, j)|
  {
    if j == 0 {
    } else {
      SameOffsets(a, b, j - 1);
      assert |a[j - 1]| == |b[j - 1]|;
    }
  }

  lemma {:induction false} SpliceLonger(all: seq<Byte>, t: nat, x: seq<Byte>, more: seq<Byte>)
    requires t + |x| <= |all|
    ensures (all[..t] + x + all[t + |x|..]) + more == (all + more)[..t] + x + (all + more)[t + |x|..]
  {
  }

  /** Concatenation after one area has been replaced by as many bytes. */
  lemma {:induction false} ConcatReplaced(bufs: seq<seq<Byte>>, i: nat, x: seq<Byte>, j: nat)
    requires i < j <= |bufs| && |x| == |bufs[i]|
    ensures var t, all := |ConcatTo(bufs, i)|, ConcatTo(bufs, j);
            t + |x| <= |all| && ConcatTo(bufs[i := x], j) == all[..t] + x + all[t + |x|..]
  {
    var t := |ConcatTo(bufs, i)|;
    if j == i + 1 {
      ConcatSame(bufs, bufs[i := x], i);
      assert ConcatTo(bufs, j)[..t] == ConcatTo(bufs, i);
    } else {
      ConcatReplaced(bufs, i, x, j - 1);
      SpliceLonger(ConcatTo(bufs, j - 1), t, x, bufs[j - 1]);
    }
  }

  lemma {:induction false} ConcatSame(a: seq<seq<Byte>>, b: seq<seq<Byte>>, j: nat)
    requires j <= |a| && j <= |b| && forall k :: 0 <= k < j ==> a[k] == b[k]
    ensures ConcatTo(a, j) == ConcatTo(b, j)
  {
    if j == 0 {
    } else {
      ConcatSame(a, b, j - 1);
    }
  }

  lemma {:induction false} Spliced(all: seq<Byte>, t: nat, x: seq<Byte>, head: seq<Byte>)
    requires t + |x| <= |all| && x == all[t..t + |x|] && |head| <= |x|
    ensures all[..t] + (head + x[|head|..]) + all[t + |x|..] == all[..t] + head + all[t + |head|..]
  {
  }

  /** Concatenation after the beginning of area `i` has been overwritten. */
  lemma {:induction false} ConcatOverwritten(now: seq<seq<Byte>>, i: nat, head: seq<Byte>)
    requires i < |now| && |head| <= |now[i]|
    ensures var t, all := |ConcatTo(now, i)|, Concat(now);
            && t + |now[i]| <= |all|
            && Concat(now[i := head + now[i][|head|..]]) == all[..t] + head + all[t + |head|..]
  {
    var x := now[i];
    ConcatAt(now, i);
    ConcatReplaced(now, i, head + x[|head|..], |now|);
    Spliced(Concat(now), |ConcatTo(now, i)|, x, head);
  }

  /** Taking `n` more bytes of the input. */
  lemma {:induction false} TakeMore(was: seq<Byte>, now: seq<Byte>, input: seq<Byte>, t: nat, n: nat)
    requires t + n <= |input| && t + n <= |was| && now == input[..t] + was[t..]
    ensures now[..t] + input[t..][..n] + now[t + n..] == input[..t + n] + was[t + n..]
    ensures input[t..][n..] == input[t + n..]
  {
  }

  /** Reading `n` bytes into area `i` when exactly the areas before it are full. */
  lemma {:induction false} FillStep(was: seq<seq<Byte>>, now: seq<seq<Byte>>, next: seq<seq<Byte>>,
                 input: seq<Byte>, rest: seq<Byte>, after: seq<Byte>, i: nat, n: nat)
    requires i < |was| && |now| == |was| && n <= |now[i]| && n <= |rest|
    requires Delivered(was, now, input, |ConcatTo(was, i)|, rest)
    requires next == now[i := rest[..n] + now[i][n..]] && after == rest[n..]
    ensures Delivered(was, next, input, |ConcatTo(was, i)| + n, after)
  {
    var t := |ConcatTo(was, i)|;
    SameOffsets(was, now, i);
    SameOffsets(was, now, |was|);
    ConcatOverwritten(now, i, rest[..n]);
    TakeMore(Concat(was), Concat(now), input, t, n);
  }

  /** What an area that begins at offset `a` holds after the first `r` bytes of the
      input have been distributed: its share of them, then its old bytes. */
  function Area(was: seq<Byte>, a: nat, input: seq<Byte>, r: nat): seq<Byte>
    requires r <= |input|
  {
    if r <= a then was
    else if a + |was| <= r then input[a..a + |was|]
    else input[a..r] + was[r - a..]
  }

  lemma {:induction false} ShareOf(was: seq<Byte>, now: seq<Byte>, input: seq<Byte>, t: nat, a: nat, x: seq<Byte>, y: seq<Byte>)
    requires t <= |input| && t <= |was| && a + |x| <= |was| && now == input[..t] + was[t..]
    requires x == was[a..a + |x|] && y == now[a..a + |x|]
    ensures y == Area(x, a, input, t)
  {
    forall k | 0 <= k < |x| ensures y[k] == Area(x, a, input, t)[k] {
      assert y[k] == now[a + k] && x[k] == was[a + k];
      assert now[a + k] == if a + k < t then input[a + k] else was[a + k];
    }
  }

  /** The same, area by area. */
  lemma {:induction false} DeliveredInto(was: seq<seq<Byte>>, now: seq<seq<Byte>>, input: seq<Byte>, t: nat, rest: seq<Byte>, j: nat)
    requires Delivered(was, now, input, t, rest) && j < |was|
    ensures |now| == |was| && now[j] == Area(was[j], |ConcatTo(was, j)|, input, t)
  {
    ConcatAt(was, j);
    ConcatAt(now, j);
    SameOffsets(was, now, j);
    assert |now[j]| == |was[j]|;
    ShareOf(Concat(was), Concat(now), input, t, |ConcatTo(was, j)|, was[j], now[j]);
  }

  /** The calls that readv turns down before reading anything. */
  ghost predicate Refused(areas: seq<seq<Byte>>, cnt: int)
    requires cnt <= |areas|
  {
    cnt <= 0 || Refuses(Lens(areas)[..cnt])
  }

  /** For areas of up to 2^63 bytes: a count of at most 0, or a true total above SSIZE_MAX. */
  lemma {:induction false} RefusedExactly(areas: seq<seq<Byte>>, cnt: int)
    requires cnt <= |areas| && forall i :: 0 <= i < |areas| ==> |areas[i]| <= SSIZE_MAX + 1
    ensures Refused(areas, cnt) <==> cnt <= 0 || Offset(Lens(areas), cnt) > SSIZE_MAX
  {
    if cnt > 0 {
      var lens := Lens(areas)[..cnt];
      OffsetPrefix(Lens(areas), cnt, cnt);
      assert UpTo(lens, SSIZE_MAX + 1);
      CheckIsRightExactly(SSIZE_MAX + 1);
    }
  }

  /** readv's validation of its arguments. */
  method Validate(areas: seq<seq<Byte>>, iovcnt: int) returns (bad: bool)
    requires iovcnt <= |areas|
    ensures bad == Refused(areas, iovcnt)
  {
    if iovcnt <= 0 {
      return true;
    }
    bad := TooLong(Lens(areas)[..iovcnt]);
  }

  /** read into the beginning of area `i`: the transfer count, or -1. */
  method ReadInto(fd: Descriptor, mem: Memory, i: nat) returns (n: int)
    requires i < |mem.areas|
    modifies fd, mem
    ensures -1 <= n <= |old(mem.areas)[i]| && n <= |old(fd.data)| && fd.interrupts <= old(fd.interrupts)
    ensures n == -1 ==> fd.data == old(fd.data) && mem.areas == old(mem.areas)
    ensures n == -1 ==> !fd.reliable || old(fd.interrupts) > 0
    ensures n != -1 ==>
              && fd.data == old(fd.data)[n..]
              && mem.areas == old(mem.areas)[i := old(fd.data)[..n] + old(mem.areas)[i][n..]]
    ensures fd.eager && n != -1 ==> n == |old(mem.areas)[i]| || fd.data == []
  {
    var o := fd.Read(|mem.areas[i]|);
    match o {
      case Interrupted => return -1;
      case Error => return -1;
      case Eof =>
        assert mem.areas[i] == fd.data[..0] + mem.areas[i][0..];
        return 0;
      case Bytes(chunk) =>
        n := |chunk|;
        mem.areas := mem.areas[i := chunk + mem.areas[i][n..]];
    }
  }

  /** The same when exactly the areas before area `i` are full. */
  method ReadNext(fd: Descriptor, mem: Memory, i: nat, ghost was: seq<seq<Byte>>, ghost input: seq<Byte>) returns (n: int)
    requires i < |mem.areas| == |was|
    requires Delivered(was, mem.areas, input, |ConcatTo(was, i)|, fd.data)
    modifies fd, mem
    ensures |mem.areas| == |was| && -1 <= n <= |was[i]| && fd.interrupts <= old(fd.interrupts)
    ensures Delivered(was, mem.areas, input, |ConcatTo(was, i)| + if n == -1 then 0 else n, fd.data)
    ensures n == -1 ==> !fd.reliable || old(fd.interrupts) > 0
    ensures fd.eager && n != -1 ==> n == |was[i]| || fd.data == []
  {
    ghost var now, rest := mem.areas, fd.data;
    assert |now[i]| == |was[i]|;
    n := ReadInto(fd, mem, i);
    if n != -1 {
      FillStep(was, now, mem.areas, input, rest, fd.data, i, n);
    }
  }

  predicate Countable(areas: seq<seq<Byte>>) {
    forall i :: 0 <= i < |areas| ==> |areas[i]| <= INT_MAX
  }

  /** All areas before area `i` were filled by one read each, and the loop ended there:
      after the last area, or with a read that left area `i` short. */
  predicate EndedIn(areas: seq<seq<Byte>>, cnt: nat, i: int, t: int, last: int)
    requires cnt <= |areas|
  {
    && 0 <= i <= cnt && t - (if last > 0 then last else 0) == Room(areas, i)
    && if i == cnt then last == 0 else ToInt(last) < |areas[i]|
  }

  /** What a result of readv means when `t` bytes were moved to the first `cnt` areas
      and `last` is what the read that ended the loop returned (0 if none did): a count
      that an int holds is added, another is added or returned as what is left of it. */
  ghost predicate Reported(areas: seq<seq<Byte>>, cnt: nat, r: int, t: nat, last: int, fd: Descriptor, interrupts: nat)
    requires cnt <= |areas|
    reads fd
  {
    && -1 <= last <= t && (Countable(areas) ==> last <= INT_MAX) && (exists i :: EndedIn(areas, cnt, i, t, last))
    && r == (if ToInt(last) < 0 then ToInt(last) else t - last + ToInt(last))
    && (last == -1 ==> !fd.reliable || interrupts > 0)
    && (0 <= last <= INT_MAX && fd.eager ==> t == Room(areas, cnt) || fd.data == [])
  }

  /** Either -1 after a failed read, or the bytes moved, or more than INT_MAX of them in
      one read. */
  lemma {:induction false} ReportedCounts(areas: seq<seq<Byte>>, cnt: nat, r: int, t: nat, last: int, fd: Descriptor, interrupts: nat)
    requires cnt <= |areas| && Reported(areas, cnt, r, t, last, fd, interrupts)
    ensures last == -1 ==> r == -1
    ensures 0 <= last <= INT_MAX ==> r == t
    ensures last > INT_MAX ==> r != t
  {
  }

  lemma {:induction false} RoomBefore(areas: seq<seq<Byte>>, i: nat, cnt: nat)
    requires i < cnt <= |areas|
    ensures Room(areas, i + 1) == Room(areas, i) + |areas[i]| <= Room(areas, cnt)
  {
    ConcatPrefix(areas, i + 1, cnt);
  }

  /** One pass of the transfer loop of readv. */
  method FillOne(fd: Descriptor, mem: Memory, i: nat, r: nat, ghost cnt: nat, ghost was: seq<seq<Byte>>, ghost input: seq<Byte>)
    returns (r': int, stop: bool, ghost t: nat, ghost last: int)
    requires i < cnt <= |was| == |mem.areas|
    requires r == Room(was, i) && Delivered(was, mem.areas, input, r, fd.data)
    modifies fd, mem
    ensures |mem.areas| == |was| && fd.interrupts <= old(fd.interrupts)
    ensures t <= Room(was, cnt) && Delivered(was, mem.areas, input, t, fd.data)
    ensures if stop then Reported(was, cnt, r', t, last, fd, old(fd.interrupts)) else r' == t == Room(was, i + 1)
  {
    RoomBefore(was, i, cnt);
    var len := |mem.areas[i]|;
    assert len == |was[i]|;
    var n := ReadNext(fd, mem, i, was, input);
    last, t := n, r + if n == -1 then 0 else n;
    var bytesRead := ToInt(n);
    assert bytesRead < len ==> EndedIn(was, cnt, i, t, last);
    if bytesRead < 0 {
      return bytesRead, true, t, last;
    }
    return r + bytesRead, bytesRead < len, t, last;
  }

  /** The transfer loop of readv, over the first `cnt` areas; `t` bytes are moved. */
  method FillAreas(fd: Descriptor, mem: Memory, cnt: nat) returns (r: int, ghost t: nat, ghost last: int)
    requires cnt <= |mem.areas|
    modifies fd, mem
    ensures t <= Room(old(mem.areas), cnt) && Delivered(old(mem.areas), mem.areas, old(fd.data), t, fd.data)
    ensures Reported(old(mem.areas), cnt, r, t, last, fd, old(fd.interrupts))
  {
    ghost var was, input := mem.areas, fd.data;
    r, t, last := 0, 0, 0;
    for i := 0 to cnt
      invariant |mem.areas| == |was| && fd.interrupts <= old(fd.interrupts)
      invariant r == t == Room(was, i) && Delivered(was, mem.areas, input, t, fd.data)
    {
      var stop;
      r, stop, t, last := FillOne(fd, mem, i, r, cnt, was, input);
      if stop {
        return;
      }
    }
    last := 0;
    assert EndedIn(was, cnt, cnt, t, last);
  }

  /** readv. The `t` bytes that leave the file fill the areas in order: no gap, no
      byte beyond, no area after the first `iovcnt` touched. The result is their
      number or -1, unless more than INT_MAX were read into one area. */
  method Readv(fd: Descriptor, iov: Memory, iovcnt: int) returns (r: int, ghost t: nat, ghost last: int)
    requires iovcnt <= |iov.areas|
    modifies fd, iov
    ensures Refused(old(iov.areas), iovcnt) ==> r == -1 && fd.data == old(fd.data) && iov.areas == old(iov.areas)
    ensures !Refused(old(iov.areas), iovcnt) ==>
              && t <= Room(old(iov.areas), iovcnt)
              && Delivered(old(iov.areas), iov.areas, old(fd.data), t, fd.data)
              && Reported(old(iov.areas), iovcnt, r, t, last, fd, old(fd.interrupts))
  {
    var bad := Validate(iov.areas, iovcnt);
    if bad {
      return -1, 0, 0;
    }
    r, t, last := FillAreas(fd, iov, iovcnt);
  }

  /** Areas that received exactly the concatenated buffers hold the buffers. */
  lemma {:induction false} Restored(bufs: seq<seq<Byte>>, was: seq<seq<Byte>>, now: seq<seq<Byte>>, rest: seq<Byte>)
    requires SameShape(bufs, was)
    requires Delivered(was, now, Concat(bufs), |Concat(bufs)|, rest)
    ensures now == bufs
  {
    SameOffsets(bufs, was, |bufs|);
    assert Concat(now) == Concat(bufs);
    forall j | 0 <= j < |bufs| ensures now[j] == bufs[j] {
      assert |bufs[j]| == |was[j]| == |now[j]|;
      SameOffsets(bufs, was, j);
      SameOffsets(was, now, j);
      ConcatAt(bufs, j);
      ConcatAt(now, j);
    }
  }

  lemma {:induction false} ConcatOfTwo(a: seq<Byte>, b: seq<Byte>)
    ensures Concat([a, b]) == a + b
  {
    var bufs := [a, b];
    assert ConcatTo(bufs, 0) == [];
    assert ConcatTo(bufs, 1) == ConcatTo(bufs, 0) + a == a;
    assert ConcatTo(bufs, 2) == ConcatTo(bufs, 1) + b;
  }

  /** A vector that has two areas and whose second write fails: -1, and the file has
      changed. */
  method FailsAfterWriting(first: seq<Byte>, second: seq<Byte>) returns (file: Sink, r: int)
    requires 0 < |first| <= INT_MAX && |first| + |second| <= SSIZE_MAX
    ensures fresh(file) && r == -1 && file.data == first != []
  {
    var iov := [first, second];
    file := new Sink(FullThen([|first|], -1));
    ghost var lens := Lens(iov);
    assert lens == [|first|, |second|] && iov[..2] == iov;
    OffsetsOfTwo(|first|, |second|);
    SecondWriteFails(|first|, |second|);
    r := Writev(file, iov, 2);
    ConcatOfTwo(first, second);
    assert [] + (first + second)[..|first|] == first;
  }

  lemma {:induction false} ShapeFits(bufs: seq<seq<Byte>>, was: seq<seq<Byte>>)
    requires FitsInt(Lens(bufs)) && SameShape(bufs, was)
    ensures Lens(was) == Lens(bufs) && Countable(was)
  {
    var lens := Lens(bufs);
    forall i | 0 <= i < |was| ensures |was[i]| == lens[i] <= INT_MAX {
      assert |was[i]| == |bufs[i]|;
    }
  }

  /** The program's own check, for any buffers: a writev followed by a readv into
      areas of the same shape. Whenever both transfer everything every buffer is
      restored, and on regular files, where no transfer fails or is short, both do. */
  method RoundTrip(bufs: seq<seq<Byte>>, areas: Memory, outcomes: seq<int>, regular: bool) returns (written: int, read: int)
    requires FitsInt(Lens(bufs)) && SameShape(bufs, areas.areas)
    modifies areas
    ensures written == read == |Concat(bufs)| ==> areas.areas == bufs
    ensures regular && outcomes == [] && bufs != [] && |Concat(bufs)| <= SSIZE_MAX ==>
              written == read == |Concat(bufs)|
  {
    assert bufs[..|bufs|] == bufs;
    ghost var all, lens, was := Concat(bufs), Lens(bufs), areas.areas;
    ShapeFits(bufs, was);
    assert lens[..|bufs|] == lens;
    SameOffsets(bufs, was, |bufs|);
    ConcatLength(bufs, lens, |bufs|);
    if Refuses(lens) {
      RefusalIsRight(lens);
    }
    ResultCounts(lens, 0, outcomes, 0);
    FullTransfer(lens, 0);
    var file := new Sink(outcomes);
    written := Writev(file, bufs, |bufs|);
    var fd := new Descriptor(file.data, 0, regular, regular);
    ghost var moved: nat, last: int;
    read, moved, last := Readv(fd, areas, |bufs|);
    if written == read == |all| {
      assert [] + all[..written] == all;
      Restored(bufs, was, areas.areas, fd.data);
    }
  }
}
