/** read_line.c reads one byte per system call; read_line_buf.c reads blocks and
    keeps the rest for the next call. Both are shown to compute the same function
    of the input, however the kernel splits it into short reads. */
module ReadLine {
  import opened FileIO

  const RL_MAX_BUF := 10

  /** Length of the first line of `s`, counting its newline; all of `s` if it has none. */
  function LineLen(s: seq<Byte>): (k: nat)
    ensures k <= |s|
  {
    if s == [] then 0 else if s[0] == NEWLINE then 1 else 1 + LineLen(s[1..])
  }

  /** None of the first `k` bytes is a newline. */
  predicate NoNewline(s: seq<Byte>, k: nat) {
    k <= |s| && forall i :: 0 <= i < k ==> s[i] != NEWLINE
  }

  /** A line ends just after its first newline, or where the input ends. */
  lemma {:induction false} LineEnds(s: seq<Byte>, k: nat)
    requires NoNewline(s, k)
    ensures k < |s| && s[k] == NEWLINE ==> LineLen(s) == k + 1
    ensures k == |s| ==> LineLen(s) == k
  {
    if k == 0 {
    } else {
      LineEnds(s[1..], k - 1);
    }
  }

  function Min(a: nat, b: nat): (m: nat)
    ensures m <= a && m <= b && (m == a || m == b)
  {
    if a < b then a else b
  }

  /** The bytes a caller with room for `n` gets: excess bytes of a line are dropped. */
  function Line(s: seq<Byte>, n: nat): seq<Byte> {
    s[..Min(LineLen(s), n)]
  }

  function AfterLine(s: seq<Byte>): seq<Byte> {
    s[LineLen(s)..]
  }

  /** A failed call has used up some bytes of the current line, but never a newline. */
  ghost predicate PartOfLine(before: seq<Byte>, after: seq<Byte>) {
    exists k: nat :: NoNewline(before, k) && after == before[k..]
  }

  /** The first `k` bytes of `buffer` are those of `s`. */
  ghost predicate Holds(buffer: array<Byte>, s: seq<Byte>, k: nat)
    reads buffer
  {
    k <= buffer.Length && k <= |s| && forall i :: 0 <= i < k ==> buffer[i] == s[i]
  }

  /** Both readers' way of keeping byte `c`: store it while there is room for `n`. */
  method Store(buffer: array<Byte>, cnt: nat, n: nat, c: Byte, ghost input: seq<Byte>, ghost k: nat) returns (cnt': nat)
    requires n <= buffer.Length && k < |input| && c == input[k]
    requires cnt == Min(k, n) && Holds(buffer, input, cnt)
    modifies buffer
    ensures cnt' == Min(k + 1, n) && Holds(buffer, input, cnt')
  {
    cnt' := cnt;
    if cnt < n {
      buffer[cnt] := c;
      cnt' := cnt + 1;
    }
  }

  /** readLine: one byte per read, restarted after an interruption. */
  method ReadLine(fd: Descriptor, buffer: array?<Byte>, n: nat) returns (r: int)
    requires buffer != null ==> n <= buffer.Length
    modifies fd, buffer
    ensures n == 0 || buffer == null ==> r == -1 && fd.data == old(fd.data)
    ensures n > 0 && buffer != null && r == -1 ==> !fd.reliable && PartOfLine(old(fd.data), fd.data)
    ensures r != -1 ==>
              && n > 0 && buffer != null
              && r == Min(LineLen(old(fd.data)), n - 1)
              && Holds(buffer, old(fd.data), r)
              && fd.data == AfterLine(old(fd.data))
              // terminated, unless end of file was met with nothing stored
              && (r > 0 || !NoNewline(old(fd.data), |old(fd.data)|) ==> buffer[r] == NUL)
  {
    if n == 0 || buffer == null {
      return -1;
    }
    var totRead := 0;
    ghost var input := fd.data;
    ghost var k := 0;        // bytes of the line consumed so far
    while true
      invariant NoNewline(input, k) && fd.data == input[k..]
      invariant totRead == Min(k, n - 1)
      invariant Holds(buffer, input, totRead)
      decreases |fd.data|, fd.interrupts
    {
      var o := fd.Read(1);
      match o {
        case Interrupted =>
          continue;
        case Error =>
          return -1;
        case Eof =>
          LineEnds(input, k);
          if totRead == 0 {
            return 0;
          } else {
            break;
          }
        case Bytes(chunk) =>
          var ch := chunk[0];
          assert ch == input[k] && fd.data == input[k + 1..];
          totRead := Store(buffer, totRead, n - 1, ch, input, k);
          if ch == NEWLINE {
            LineEnds(input, k);
            break;
          }
          k := k + 1;
      }
    }
    buffer[totRead] := NUL;
    return totRead;
  }

  /** The buffered reader's state. */
  class ReadLineBuf {
    const fd: Descriptor
    const buf: array<Byte>
    var next: nat
    var len: int

    ghost predicate Valid()
      reads this
    {
      buf.Length == RL_MAX_BUF && len <= RL_MAX_BUF
    }

    /** Input not yet handed to a caller: the unread part of `buf`, then the file. */
    ghost function Pending(): seq<Byte>
      reads this, buf, fd
      requires Valid()
    {
      (if next < len then buf[next..len] else []) + fd.data
    }

    constructor (fd: Descriptor)
      ensures Valid() && fresh(buf) && this.fd == fd && Pending() == fd.data
    {
      this.fd := fd;
      buf := new Byte[RL_MAX_BUF];
      next, len := 0, 0;
    }

    /** rlbuf->buf has been used up: refill it. `len` is what read returned. */
    method Refill()
      requires Valid() && next >= len
      modifies this, buf, fd
      ensures Valid() && Pending() == old(Pending())
      ensures len > 0 ==> next < len && |fd.data| < |old(fd.data)|
      ensures len == 0 ==> Pending() == [] && next >= len
      ensures len < 0 ==> len == -1 && (fd.reliable ==> fd.interrupts < old(fd.interrupts))
      ensures fd.interrupts <= old(fd.interrupts)
    {
      var o := fd.Read(RL_MAX_BUF);
      match o {
        case Interrupted => len := -1;
        case Error => len := -1;
        case Eof => len := 0;
        case Bytes(chunk) =>
          len := |chunk|;
          forall i | 0 <= i < |chunk| { buf[i] := chunk[i]; }
          next := 0;
          assert buf[..len] == chunk;
      }
    }

    /** The byte at `next`. */
    method TakeByte() returns (o: Outcome)
      requires Valid() && next < len
      modifies this`next
      ensures Valid() && o.Bytes? && |o.chunk| == 1 && old(Pending()) == o.chunk + Pending()
    {
      ghost var left, data := buf[next + 1..len], fd.data;
      assert buf[next..len] == [buf[next]] + left;
      assert ([buf[next]] + left) + data == [buf[next]] + (left + data);
      o := Bytes([buf[next]]);
      next := next + 1;
      assert next == len ==> left == [];
    }

    /** The next byte of input, as the loop of readLineBuf obtains it. */
    method NextByte() returns (o: Outcome)
      requires Valid()
      modifies this, buf, fd
      ensures Valid()
      ensures o.Bytes? ==> |o.chunk| == 1 && old(Pending()) == o.chunk + Pending()
      ensures !o.Bytes? ==> Pending() == old(Pending())
      ensures o.Eof? ==> Pending() == []
      ensures o.Error? || o.Interrupted? ==> !fd.reliable || old(fd.interrupts) > 0
      ensures fd.interrupts <= old(fd.interrupts)
    {
      if next >= len {
        Refill();
        if len == -1 {
          return Error;
        }
        if len == 0 {
          return Eof;
        }
      }
      o := TakeByte();
    }

    /** readLineBuf: take bytes from `buf`, refilling it as needed. */
    method ReadLine(buffer: array?<Byte>, n: nat) returns (r: int)
      requires Valid() && buffer != buf
      requires buffer != null ==> n <= buffer.Length
      modifies this, buf, fd, buffer
      ensures Valid()
      ensures n == 0 || buffer == null ==> r == -1 && Pending() == old(Pending())
      ensures n > 0 && buffer != null && r == -1 ==>
                (!fd.reliable || old(fd.interrupts) > 0) && PartOfLine(old(Pending()), Pending())
      ensures r != -1 ==>
                && n > 0 && buffer != null
                && r == Min(LineLen(old(Pending())), n)
                && Holds(buffer, old(Pending()), r)
                && Pending() == AfterLine(old(Pending()))
      ensures fd.interrupts <= old(fd.interrupts)
    {
      if n == 0 || buffer == null {
        return -1;
      }
      var cnt := 0;
      ghost var input := Pending();
      ghost var k := 0;
      while true
        invariant Valid()
        invariant NoNewline(input, k) && Pending() == input[k..]
        invariant cnt == Min(k, n)
        invariant Holds(buffer, input, cnt)
        invariant fd.interrupts <= old(fd.interrupts)
        decreases |Pending()|
      {
        var o := NextByte();
        if o.Error? || o.Interrupted? {
          return -1;
        }
        if o.Eof? {
          LineEnds(input, k);
          break;
        }
        var c := o.chunk[0];
        assert c == input[k] && Pending() == input[k + 1..];
        cnt := Store(buffer, cnt, n, c, input, k);
        if c == NEWLINE {
          LineEnds(input, k);
          break;
        }
        k := k + 1;
      }
      return cnt;
    }
  }

  /** What successive calls with room for sizes[0], sizes[1], ... bytes return. */
  function Lines(s: seq<Byte>, sizes: seq<nat>): seq<seq<Byte>> {
    if sizes == [] then [] else [Line(s, sizes[0])] + Lines(AfterLine(s), sizes[1..])
  }

  function AfterLines(s: seq<Byte>, sizes: seq<nat>): seq<Byte> {
    if sizes == [] then s else AfterLines(AfterLine(s), sizes[1..])
  }

  lemma {:induction false} LinesAppend(s: seq<Byte>, sizes: seq<nat>, n: nat)
    ensures Lines(s, sizes + [n]) == Lines(s, sizes) + [Line(AfterLines(s, sizes), n)]
    ensures AfterLines(s, sizes + [n]) == AfterLine(AfterLines(s, sizes))
  {
    if sizes == [] {
    } else {
      assert (sizes + [n])[1..] == sizes[1..] + [n];
      LinesAppend(AfterLine(s), sizes[1..], n);
    }
  }

  /** One call of each: readLine with size n + 1, readLineBuf with size n. */
  method ReadOnce(plain: Descriptor, quick: ReadLineBuf, n: nat) returns (a: seq<Byte>, b: seq<Byte>)
    requires quick.Valid() && plain != quick.fd && n > 0
    requires plain.reliable && quick.fd.reliable && quick.fd.interrupts == 0
    requires plain.data == quick.Pending()
    modifies plain, quick, quick.buf, quick.fd
    ensures quick.Valid() && quick.fd.interrupts == 0
    ensures a == b == Line(old(plain.data), n)
    ensures plain.data == quick.Pending() == AfterLine(old(plain.data))
  {
    ghost var input := plain.data;
    var buffer := new Byte[n + 1];
    var r := ReadLine(plain, buffer, n + 1);
    a := buffer[..r];
    assert a == Line(input, n);
    buffer := new Byte[n];
    r := quick.ReadLine(buffer, n);
    b := buffer[..r];
    assert b == Line(input, n);
  }

  /** Any sequence of calls on two descriptors with the same contents: readLine
      with size n + 1 and readLineBuf with size n return the same bytes every time
      and leave the same input, whatever the two kernels' short reads were. */
  method ReadBoth(plain: Descriptor, quick: ReadLineBuf, sizes: seq<nat>)
    returns (fromPlain: seq<seq<Byte>>, fromQuick: seq<seq<Byte>>)
    requires quick.Valid() && plain != quick.fd
    requires plain.reliable && quick.fd.reliable && quick.fd.interrupts == 0
    requires plain.data == quick.Pending()
    requires forall n :: n in sizes ==> n > 0
    modifies plain, quick, quick.buf, quick.fd
    ensures quick.Valid()
    ensures fromPlain == fromQuick == Lines(old(plain.data), sizes)
    ensures plain.data == quick.Pending() == AfterLines(old(plain.data), sizes)
  {
    ghost var input := plain.data;
    fromPlain, fromQuick := [], [];
    for i := 0 to |sizes|
      invariant quick.Valid() && quick.fd.interrupts == 0
      invariant fromPlain == fromQuick == Lines(input, sizes[..i])
      invariant plain.data == quick.Pending() == AfterLines(input, sizes[..i])
    {
      var n := sizes[i];
      assert n in sizes;
      assert sizes[..i + 1] == sizes[..i] + [n];
      LinesAppend(input, sizes[..i], n);
      var a, b := ReadOnce(plain, quick, n);
      fromPlain, fromQuick := fromPlain + [a], fromQuick + [b];
    }
    assert sizes[..|sizes|] == sizes;
  }

  function Concat(parts: seq<seq<Byte>>): seq<Byte> {
    if parts == [] then [] else parts[0] + Concat(parts[1..])
  }

  lemma {:induction false} LineAndRest(s: seq<Byte>, n: nat)
    requires n >= |s|
    ensures Line(s, n) + AfterLine(s) == s && |AfterLine(s)| <= |s|
  {
  }

  lemma {:induction false} Regroup(a: seq<Byte>, b: seq<Byte>, c: seq<Byte>)
    ensures (a + b) + c == a + (b + c)
  {
  }

  /** With room for every line, the pieces returned and the input left are the
      original input: nothing is lost or duplicated between calls. */
  lemma {:induction false} NothingLost(s: seq<Byte>, sizes: seq<nat>)
    requires forall i :: 0 <= i < |sizes| ==> sizes[i] >= |s|
    ensures Concat(Lines(s, sizes)) + AfterLines(s, sizes) == s
  {
    if sizes == [] {
    } else {
      var rest, more := AfterLine(s), sizes[1..];
      LineAndRest(s, sizes[0]);
      NothingLost(rest, more);
      assert Lines(s, sizes)[1..] == Lines(rest, more);
      Regroup(Line(s, sizes[0]), Concat(Lines(rest, more)), AfterLines(rest, more));
    }
  }
}
