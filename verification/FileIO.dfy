/** Bytes and descriptors: read(2) as every program here meets it. */
module FileIO {
  newtype Byte = b: int | 0 <= b < 256

  const NEWLINE: Byte := 10
  const NUL: Byte := 0

  function Zeros(n: nat): seq<Byte> {
    seq(n, _ => NUL)
  }

  /** One byte written at `offset`; a gap beyond the end reads as NUL bytes. */
  function Put(content: seq<Byte>, offset: nat, b: Byte): (r: seq<Byte>)
    ensures |r| == if offset < |content| then |content| else offset + 1
    ensures forall i :: 0 <= i < |r| ==>
              r[i] == if i == offset then b else if i < |content| then content[i] else NUL
  {
    if offset < |content| then content[offset := b] else content + Zeros(offset - |content|) + [b]
  }

  /** What read(2) can do. `Interrupted` is EINTR, `Error` any other failure. */
  datatype Outcome = Bytes(chunk: seq<Byte>) | Eof | Interrupted | Error

  /** An open file: the bytes still to be read, how often a signal handler will
      still interrupt a read, whether reads can fail in other ways, and whether a
      read delivers all it can, as for a regular file. */
  class Descriptor {
    var data: seq<Byte>
    var interrupts: nat
    const reliable: bool
    const eager: bool

    constructor (data: seq<Byte>, interrupts: nat, reliable: bool, eager: bool)
      ensures this.data == data && this.interrupts == interrupts
      ensures this.reliable == reliable && this.eager == eager
    {
      this.data, this.interrupts, this.reliable, this.eager := data, interrupts, reliable, eager;
    }

    /** Delivers any non-empty part of what is available, up to `max` bytes; a
        read of zero bytes delivers none. */
    method Read(max: nat) returns (o: Outcome)
      modifies this
      ensures o.Bytes? ==> |o.chunk| <= max && (max > 0 ==> o.chunk != []) && old(data) == o.chunk + data
      ensures eager && o.Bytes? ==> |o.chunk| == max || data == []
      ensures !o.Bytes? ==> data == old(data)
      ensures o.Eof? ==> data == [] && max > 0
      ensures if o.Interrupted? then interrupts < old(interrupts) else interrupts == old(interrupts)
      ensures o.Error? ==> !reliable
    {
      var signalled: bool, broken: bool := *, *;
      if interrupts > 0 && signalled {
        interrupts := interrupts - 1;
        return Interrupted;
      }
      if !reliable && broken {
        return Error;
      }
      if max == 0 {
        return Bytes([]);
      }
      if data == [] {
        return Eof;
      }
      var all := if |data| < max then |data| else max;
      var k :| 1 <= k <= all && (eager ==> k == all);
      o := Bytes(data[..k]);
      data := data[k..];
    }
  }
}
