/** po_malloc and po_free of po_malloc_free.c, carried out on headers in memory.

    The code departs from its own plan in four places, each corrected here; the
    end of the module shows what the uncorrected steps (1) to (3) do:
    (1) a split block's remainder is recorded without subtracting the new header;
    (2) the allocated part of a split block keeps its old length;
    (3) po_free stores the user pointer, not the header, as a back link;
    (4) a failing sbrk is looked for as NULL instead of (void *) -1. */
module Allocator {
  import opened Limits
  import opened Ranges
  import opened FreeList
  import opened Sequences
  import A = Arena

  const HEADER := A.HEADER

  /** Every block's header is in memory and records its length. */
  ghost predicate Represents(mem: Memory, blocks: seq<A.Block>) {
    forall k :: 0 <= k < |blocks| ==> blocks[k].start in mem && mem[blocks[k].start].length == blocks[k].len - HEADER
  }

  /** A list does not depend on headers outside it, nor on lengths. */
  lemma {:induction false} ListFrame(was: Memory, now: Memory, head: nat, chain: seq<nat>)
    requires IsList(was, head, chain)
    requires forall a :: a in chain ==> a in now && now[a].prev == was[a].prev && now[a].next == was[a].next
    ensures IsList(now, head, chain)
  {
    assert forall i :: 0 <= i < |chain| ==> chain[i] in chain;
  }

  /** The two headers of a block cut in two, all other lengths being as before. */
  lemma {:induction false} SplitRepresents(was: Memory, now: Memory, ar: A.Arena, k: nat, size: nat)
    requires A.Inv(ar) && k < |ar.blocks| && ar.blocks[k].len > HEADER + size + HEADER
    requires Represents(was, ar.blocks)
    requires var current, rest := ar.blocks[k].start, ar.blocks[k].start + HEADER + size;
             && (forall a :: a in was && a != current && a != rest ==> a in now && now[a].length == was[a].length)
             && current in now && now[current].length == size
             && rest in now && now[rest].length == was[current].length - size - HEADER
    ensures Represents(now, A.SplitAt(ar.blocks, k, size))
  {
    var blocks := A.SplitAt(ar.blocks, k, size);
    A.SplitIndices(ar.blocks, k, size);
    A.SplitChange(ar.blocks, ar.base, ar.brk, k, size);
    forall i | 0 <= i < |blocks| ensures blocks[i].start in now && now[blocks[i].start].length == blocks[i].len - HEADER {
      if i < k {
        StartsIncrease(blocks, ar.base, ar.brk, i, k);
      } else if i > k + 1 {
        StartsIncrease(blocks, ar.base, ar.brk, k + 1, i);
        StartsIncrease(blocks, ar.base, ar.brk, k, k + 1);
      }
    }
  }

  /** A header for a new block at the break. */
  lemma {:induction false} ExtendRepresents(mem: Memory, head: nat, ar: A.Arena, size: nat)
    requires A.Inv(ar) && Represents(mem, ar.blocks) && IsList(mem, head, ar.free)
    ensures var now := mem[ar.brk := Header(size, NULL, NULL)];
            && Represents(now, ar.blocks + [Range(A.Live(size), ar.brk, HEADER + size)])
            && IsList(now, head, ar.free)
  {
    var now := mem[ar.brk := Header(size, NULL, NULL)];
    forall k | 0 <= k < |ar.blocks| ensures ar.blocks[k].start != ar.brk {
      Inside(ar.blocks, ar.base, ar.brk, k);
    }
    A.NothingAtBreak(ar, A.Free);
    assert ar.brk !in ar.free;
    ListFrame(mem, now, head, ar.free);
  }

  class Allocator {
    const heap: Heap
    const base: nat
    const limit: nat
    var brk: nat
    ghost var arena: A.Arena

    ghost predicate Valid()
      reads this, heap
    {
      && A.Inv(arena)
      && arena.base == base && arena.limit == limit && arena.brk == brk
      && Represents(heap.mem, arena.blocks)
      && IsList(heap.mem, heap.head, arena.free)
    }

    constructor (base: nat, limit: nat)
      requires base > 0
      ensures Valid() && fresh(heap) && arena == A.Empty(base, limit)
    {
      this.base, this.limit, this.brk := base, limit, base;
      heap := new Heap();
      arena := A.Empty(base, limit);
    }

    /** sbrk: the old break, or -1 if the kernel refuses. */
    method Sbrk(increment: nat) returns (r: int)
      modifies this`brk
      ensures if old(brk) + increment <= limit then r == old(brk) && brk == old(brk) + increment
              else r == -1 && brk == old(brk)
    {
      if brk + increment > limit {
        return -1;
      }
      r := brk;
      brk := brk + increment;
    }

    method SetLength(a: nat, length: nat)
      requires a in heap.mem
      modifies heap
      ensures heap.mem == old(heap.mem)[a := old(heap.mem)[a].(length := length)] && heap.head == old(heap.head)
    {
      heap.mem := heap.mem[a := heap.mem[a].(length := length)];
    }

    /** The block that the scan has found is used as it is. */
    method UseWhole(current: nat, size: nat, ghost f: nat, ghost k: nat)
      requires Valid() && f < |arena.free| && current == arena.free[f]
      requires k == A.Index(arena.blocks, current) < |arena.blocks|
      requires HEADER + size <= arena.blocks[k].len
      modifies this`arena, heap
      ensures Valid()
      ensures arena == old(arena).(blocks := A.Reowned(old(arena).blocks, k, A.Live(size)), free := Removed(old(arena).free, f))
    {
      A.TakeKeepsInv(arena, f, k, size);
      heap.LlRemove(current, arena.free, f);
      arena := arena.(blocks := A.Reowned(arena.blocks, k, A.Live(size)), free := Removed(arena.free, f));
    }

    /** The headers and links when block `current` is cut in two. */
    method CutHeaders(current: nat, rest: nat, size: nat, ghost chain: seq<nat>, ghost f: nat)
      requires IsList(heap.mem, heap.head, chain) && f < |chain| && current == chain[f]
      requires rest != NULL && rest !in chain && heap.mem[current].length >= size + HEADER
      modifies heap
      ensures IsList(heap.mem, heap.head, chain[f := rest])
      ensures current in heap.mem && heap.mem[current].length == size
      ensures rest in heap.mem && heap.mem[rest].length == old(heap.mem)[current].length - size - HEADER
      ensures forall a :: a in old(heap.mem) && a != current && a != rest ==>
                a in heap.mem && heap.mem[a].length == old(heap.mem)[a].length
    {
      var prev: nat, next: nat := *, *;       // whatever the caller left there
      heap.mem := heap.mem[rest := Header(heap.mem[current].length - size - HEADER, prev, next)];   // correction (1)
      ListFrame(old(heap.mem), heap.mem, heap.head, chain);
      heap.LlReplace(current, rest, chain, f);
      ghost var linked := heap.mem;
      SetLength(current, size);                                                                     // correction (2)
      ListFrame(linked, heap.mem, heap.head, chain[f := rest]);
    }

    /** The block that the scan has found is cut in two. */
    method UsePart(current: nat, size: nat, ghost f: nat, ghost k: nat)
      requires Valid() && f < |arena.free| && current == arena.free[f]
      requires k == A.Index(arena.blocks, current) < |arena.blocks|
      requires arena.blocks[k].len > HEADER + size + HEADER
      modifies this`arena, heap
      ensures Valid()
      ensures arena == old(arena).(blocks := A.SplitAt(old(arena).blocks, k, size),
                                   free := old(arena).free[f := current + HEADER + size])
    {
      var rest := current + HEADER + size;
      assert rest !in arena.free by {
        A.NoStartInside(arena.blocks, base, brk, k, rest, A.Free);
      }
      ghost var next := arena.(blocks := A.SplitAt(arena.blocks, k, size), free := arena.free[f := rest]);
      assert A.Inv(next) by {
        A.SplitKeepsInv(arena, f, k, size);
      }
      assert heap.mem[current].length == arena.blocks[k].len - HEADER;
      CutHeaders(current, rest, size, arena.free, f);
      assert Represents(heap.mem, next.blocks) by {
        SplitRepresents(old(heap.mem), heap.mem, arena, k, size);
      }
      arena := next;
    }

    /** No block fits: a new one at the break. */
    method Extend(size: nat) returns (p: nat)
      requires Valid() && A.FirstFit(arena, size, 0) == |arena.free|
      modifies this, heap
      ensures Valid() && (arena, p) == A.Malloc(old(arena), size)
    {
      var block := Sbrk(size + HEADER);
      if block == -1 {                                    // correction (4)
        return NULL;
      }
      A.GrowChange(arena, size);
      ExtendRepresents(heap.mem, heap.head, arena, size);
      heap.mem := heap.mem[block := Header(size, NULL, NULL)];
      arena := arena.(blocks := arena.blocks + [Range(A.Live(size), block, HEADER + size)], brk := brk);
      p := block + HEADER;
    }

    /** The scan of the free list: the header of the first block that is big enough. */
    method Scan(size: nat) returns (current: nat)
      requires Valid()
      ensures current == At(arena.free, A.FirstFit(arena, size, 0))
    {
      current := heap.head;
      ghost var i := 0;
      while current != NULL
        invariant i <= |arena.free| && current == At(arena.free, i)
        invariant A.FirstFit(arena, size, i) == A.FirstFit(arena, size, 0)
        decreases |arena.free| - i
      {
        ghost var k := A.FreeBlock(arena, i);
        assert heap.mem[current].length == A.Capacity(arena.blocks, current);
        if heap.mem[current].length >= size {
          return;
        }
        LinksAt(heap.mem, heap.head, arena.free, i);
        current := heap.mem[current].next;
        i := i + 1;
      }
    }

    /** The body of the scan once a block has been found. */
    method UseFree(current: nat, size: nat, ghost f: nat)
      requires Valid() && f == A.FirstFit(arena, size, 0) < |arena.free| && current == arena.free[f]
      modifies this`arena, heap
      ensures Valid() && (arena, current + HEADER) == A.Malloc(old(arena), size)
    {
      ghost var k := A.FreeBlock(arena, f);
      assert heap.mem[current].length == arena.blocks[k].len - HEADER;
      if heap.mem[current].length > size + HEADER {
        UsePart(current, size, f, k);
      } else {
        UseWhole(current, size, f, k);
      }
    }

    /** po_malloc: first fit over the free list, then the break. */
    method PoMalloc(size: nat) returns (p: nat)
      requires Valid()
      modifies this, heap
      ensures Valid() && (arena, p) == A.Malloc(old(arena), size)
    {
      var current := Scan(size);
      if current == NULL {
        p := Extend(size);
      } else {
        UseFree(current, size, A.FirstFit(arena, size, 0));
        p := current + HEADER;
      }
    }

    /** po_free: the block becomes the first of the free list. */
    method PoFree(p: nat)
      requires Valid() && A.Freeable(arena, p)
      modifies this`arena, heap
      ensures Valid() && arena == A.Release(old(arena), p)
    {
      ghost var k := A.LiveBlock(arena, p);
      A.ReleaseLaws(arena, p);
      var header := p - HEADER;
      heap.PushFront(header, header, arena.free);                                                   // correction (3)
      arena := A.Release(arena, p);
    }
  }

  /** Any legal sequence of calls, carried out in memory, does what the arena says. */
  method RunCalls(alloc: Allocator, calls: seq<A.Call>)
    requires alloc.Valid() && A.Legal(alloc.arena, calls)
    modifies alloc, alloc.heap
    ensures alloc.Valid() && alloc.arena == A.Run(old(alloc.arena), calls)
    decreases |calls|
  {
    if calls != [] {
      ghost var next := A.Step(alloc.arena, calls[0]);
      match calls[0] {
        case DoMalloc(size) => var p := alloc.PoMalloc(size);
        case DoFree(p) => alloc.PoFree(p);
      }
      assert alloc.arena == next;
      RunCalls(alloc, calls[1..]);
    }
  }

  // ----- the steps as the code has them

  /** The extents that the headers at the blocks' addresses record. */
  ghost function Recorded(mem: Memory, blocks: seq<A.Block>): (r: seq<A.Block>)
    requires forall i :: 0 <= i < |blocks| ==> blocks[i].start in mem
    ensures |r| == |blocks|
    ensures forall i :: 0 <= i < |r| ==> r[i] == blocks[i].(len := HEADER + mem[blocks[i].start].length)
  {
    seq(|blocks|, i requires 0 <= i < |blocks| => blocks[i].(len := HEADER + mem[blocks[i].start].length))
  }

  /** Lines 105-109, with corrections (1) and (2) made or not: as written, the
      remainder is recorded HEADER bytes too long and the allocated part keeps its
      old length. */
  ghost function Cut(mem: Memory, current: nat, size: nat, fix1: bool, fix2: bool, prev: nat, next: nat): Memory
    requires current in mem && mem[current].length >= size + HEADER
  {
    var length := mem[current].length;
    mem[current + HEADER + size := Header(if fix1 then length - size - HEADER else length - size, prev, next)]
    [current := mem[current].(length := if fix2 then size else length)]
  }

  /** In two tilings with the same starts, every block has the same length. */
  lemma {:induction false} SameStartsSameLengths(a: seq<A.Block>, b: seq<A.Block>, lo: int, hi: int, k: nat)
    requires Consecutive(a, lo, hi) && Consecutive(b, lo, hi) && |a| == |b| && k < |a|
    requires forall i :: 0 <= i < |a| ==> a[i].start == b[i].start
    ensures a[k].len == b[k].len
    decreases |a|
  {
    var last := |a| - 1;
    if k == last {
    } else {
      SameStartsSameLengths(a[..last], b[..last], lo, a[last].start, k);
    }
  }

  /** The recorded extents of the blocks of a tiling tile the same stretch exactly if
      every header records its block's length. */
  lemma {:induction false} RecordedTiles(mem: Memory, blocks: seq<A.Block>, lo: int, hi: int)
    requires Consecutive(blocks, lo, hi)
    requires forall i :: 0 <= i < |blocks| ==> blocks[i].start in mem
    ensures Consecutive(Recorded(mem, blocks), lo, hi) <==> Represents(mem, blocks)
  {
    if Represents(mem, blocks) {
      assert Recorded(mem, blocks) == blocks;
    }
    if Consecutive(Recorded(mem, blocks), lo, hi) {
      forall i | 0 <= i < |blocks| ensures mem[blocks[i].start].length == blocks[i].len - HEADER {
        SameStartsSameLengths(blocks, Recorded(mem, blocks), lo, hi, i);
      }
    }
  }

  lemma {:induction false} CutRepresents(ar: A.Arena, mem: Memory, k: nat, size: nat, fix1: bool, fix2: bool, prev: nat, next: nat)
    requires A.Inv(ar) && Represents(mem, ar.blocks) && k < |ar.blocks| && ar.blocks[k].len > HEADER + size + HEADER
    ensures var now := Cut(mem, ar.blocks[k].start, size, fix1, fix2, prev, next);
            var blocks := A.SplitAt(ar.blocks, k, size);
            && (forall i :: 0 <= i < |blocks| ==> blocks[i].start in now)
            && (Represents(now, blocks) <==> fix1 && fix2)
  {
    var now := Cut(mem, ar.blocks[k].start, size, fix1, fix2, prev, next);
    var blocks := A.SplitAt(ar.blocks, k, size);
    A.SplitIndices(ar.blocks, k, size);
    forall i | 0 <= i < |blocks| ensures blocks[i].start in now {
      assert i < k ==> blocks[i] == ar.blocks[i];
      assert i > k + 1 ==> blocks[i] == ar.blocks[i - 1];
    }
    if fix1 && fix2 {
      SplitRepresents(mem, now, ar, k, size);
    }
  }

  /** After a free block has been cut in two, the blocks that the headers record tile
      the heap exactly if both corrections are made. */
  lemma {:induction false} CutTilesExactly(ar: A.Arena, mem: Memory, k: nat, size: nat, fix1: bool, fix2: bool, prev: nat, next: nat)
    requires A.Inv(ar) && Represents(mem, ar.blocks) && k < |ar.blocks| && ar.blocks[k].len > HEADER + size + HEADER
    ensures var now := Cut(mem, ar.blocks[k].start, size, fix1, fix2, prev, next);
            var blocks := A.SplitAt(ar.blocks, k, size);
            && (forall i :: 0 <= i < |blocks| ==> blocks[i].start in now)
            && (Consecutive(Recorded(now, blocks), ar.base, ar.brk) <==> fix1 && fix2)
  {
    CutRepresents(ar, mem, k, size, fix1, fix2, prev, next);
    A.SplitChange(ar.blocks, ar.base, ar.brk, k, size);
    RecordedTiles(Cut(mem, ar.blocks[k].start, size, fix1, fix2, prev, next), A.SplitAt(ar.blocks, k, size), ar.base, ar.brk);
  }

  /** Line 175 as written: the back link of the old first block is the user pointer,
      so the list is right afterwards exactly when it was empty before. */
  method FreeAsWritten(alloc: Allocator, p: nat)
    requires alloc.Valid() && A.Freeable(alloc.arena, p)
    modifies alloc.heap
    ensures IsList(alloc.heap.mem, alloc.heap.head, [p - HEADER] + old(alloc.arena.free)) <==> old(alloc.arena.free) == []
  {
    ghost var k := A.LiveBlock(alloc.arena, p);
    alloc.heap.PushFront(p - HEADER, p, alloc.arena.free);
  }
}
