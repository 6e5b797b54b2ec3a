/** cpholes.c: a copy that turns runs of NUL bytes into holes. */
module Cpholes {
  import opened FileIO

  const BUF_SIZE := 1024

  /** The output file: contents, offset, and which offsets were ever written.
      Bytes between the old end and a later write are a hole and read as NUL. */
  class OutputFile {
    var content: seq<Byte>
    var offset: nat
    ghost var written: set<nat>

    /** As opened with O_TRUNC. */
    constructor ()
      ensures content == [] && offset == 0 && written == {}
    {
      content, offset, written := [], 0, {};
    }

    method Write(b: Byte)
      modifies this
      ensures content == Put(old(content), old(offset), b)
      ensures offset == old(offset) + 1 && written == old(written) + {old(offset)}
    {
      content := Put(content, offset, b);
      written := written + {offset};
      offset := offset + 1;
    }

    /** lseek(fd, distance, SEEK_CUR) */
    method Skip(distance: nat)
      modifies this`offset
      ensures offset == old(offset) + distance
    {
      offset := offset + distance;
    }

    /** lseek(fd, where, SEEK_SET); a negative target fails and changes nothing. */
    method SeekTo(where: int)
      modifies this`offset
      ensures offset == if where < 0 then old(offset) else where
    {
      if where >= 0 {
        offset := where;
      }
    }
  }

  /** After `k` source bytes, the last `hole` of which are NUL and still pending:
      the output is the source up to the hole, with only its non-NUL bytes written. */
  ghost predicate Copied(source: seq<Byte>, k: nat, hole: nat, out: OutputFile)
    reads out
  {
    && hole <= k <= |source|
    && out.offset == k - hole
    && out.content == source[..k - hole]
    && (forall i :: k - hole <= i < k ==> source[i] == NUL)
    && (forall i :: i in out.written <==> 0 <= i < k - hole && source[i] != NUL)
  }

  /** The body of the inner loop, for source byte number `k`. */
  method CopyByte(ghost source: seq<Byte>, ghost k: nat, hole: nat, b: Byte, out: OutputFile) returns (hole': nat)
    requires k < |source| && b == source[k] && Copied(source, k, hole, out)
    modifies out
    ensures Copied(source, k + 1, hole', out)
  {
    if b == NUL {
      hole' := hole + 1;
    } else {
      if hole > 0 {
        out.Skip(hole);
        out.Write(b);
        hole' := 0;
      } else {
        out.Write(b);
        hole' := hole;
      }
      assert out.content == source[..k + 1];
    }
  }

  /** The inner loop, over the bytes of one read. */
  method CopyChunk(ghost source: seq<Byte>, ghost k: nat, hole: nat, buf: seq<Byte>, out: OutputFile) returns (hole': nat)
    requires k + |buf| <= |source| && buf == source[k..k + |buf|] && Copied(source, k, hole, out)
    modifies out
    ensures Copied(source, k + |buf|, hole', out)
  {
    hole' := hole;
    for i := 0 to |buf|
      invariant Copied(source, k + i, hole', out)
    {
      hole' := CopyByte(source, k + i, hole', buf[i], out);
    }
  }

  /** What the copy of `source` contains when `k` of its bytes could be read: the
      rest, and always the last byte, come out as NUL. An empty source gives one
      NUL byte, because lseek(inputFd, -1, SEEK_END) fails and the write is made
      anyway. */
  function Expected(source: seq<Byte>, k: nat): seq<Byte>
    requires k <= |source|
  {
    if source == [] then [NUL] else (source[..k] + Zeros(|source| - k))[|source| - 1 := NUL]
  }

  function LastOffset(source: seq<Byte>): nat {
    if source == [] then 0 else |source| - 1
  }

  /** The final write, which gives the copy its length. */
  method Finish(source: seq<Byte>, ghost k: nat, ghost hole: nat, out: OutputFile)
    requires Copied(source, k, hole, out)
    modifies out
    ensures out.content == Expected(source, k)
    ensures forall i: nat :: i in out.written <==> (i < k && source[i] != NUL) || i == LastOffset(source)
  {
    out.SeekTo(|source| - 1);
    out.Write(NUL);
  }

  /** The whole program, from opened descriptors to the final one-byte write. */
  method Copy(source: seq<Byte>, input: Descriptor, out: OutputFile) returns (ghost k: nat)
    requires input.data == source
    requires out.content == [] && out.offset == 0 && out.written == {}
    modifies input, out
    ensures k <= |source|
    ensures input.reliable && old(input.interrupts) == 0 ==> k == |source|
    ensures out.content == Expected(source, k)
    ensures forall i: nat :: i in out.written <==> (i < k && source[i] != NUL) || i == LastOffset(source)
  {
    k := 0;
    var hole := 0;
    var more := true;
    while more
      invariant Copied(source, k, hole, out) && input.data == source[k..]
      invariant input.interrupts <= old(input.interrupts)
      invariant !more && input.reliable && old(input.interrupts) == 0 ==> k == |source|
      decreases more, |input.data|
    {
      var o := input.Read(BUF_SIZE);
      if o.Bytes? {
        assert o.chunk == source[k..k + |o.chunk|];
        hole := CopyChunk(source, k, hole, o.chunk, out);
        k := k + |o.chunk|;
      } else {
        more := false;
      }
    }
    Finish(source, k, hole, out);
  }

  /** With every read succeeding, the copy is the source with its last byte
      replaced by NUL: equal to the source exactly when it already ended in NUL. */
  lemma {:induction false} CopyEqualsSourceExactly(source: seq<Byte>)
    ensures source != [] ==>
              |Expected(source, |source|)| == |source| && Expected(source, |source|) == source[|source| - 1 := NUL]
    ensures Expected(source, |source|) == source <==> source != [] && source[|source| - 1] == NUL
  {
    assert source[..|source|] + Zeros(0) == source;
    if source != [] {
      assert Expected(source, |source|)[|source| - 1] == NUL;
    }
  }
}
