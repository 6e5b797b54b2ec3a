/** po_malloc_free.c exactly as written, without the corrections of module Allocator:
    what the wrong back link of line 175 leads to. */
module AsWritten {
  import opened Limits
  import opened Sequences
  import opened FreeList
  import A = Arena

  const HEADER := A.HEADER

  /** Headers in memory, free_ll_head, and the break. */
  datatype Store = Store(mem: Memory, head: nat, brk: nat)

  /** p->next_free_chunk = next. A pointer that is not the address of a header points
      at a block's own bytes, which are not part of the model. */
  function WithNext(mem: Memory, p: nat, next: nat): Memory {
    if p in mem then mem[p := mem[p].(next := next)] else mem
  }

  function WithPrev(mem: Memory, p: nat, prev: nat): Memory {
    if p in mem then mem[p := mem[p].(prev := prev)] else mem
  }

  /** ll_remove */
  function Remove(h: Store, item: nat): Store
    requires item in h.mem
  {
    var prev, next := h.mem[item].prev, h.mem[item].next;
    var mem := if prev == NULL then h.mem else WithNext(h.mem, prev, next);
    h.(head := if prev == NULL then next else h.head,
    mem := if mem[item].next != NULL then WithPrev(mem, mem[item].next, mem[item].prev) else mem)
  }

  /** ll_replace */
  function Replace(h: Store, item: nat, other: nat): Store
    requires item in h.mem
  {
    var prev, next := h.mem[item].prev, h.mem[item].next;
    var mem := if prev != NULL then WithNext(h.mem, prev, other) else h.mem;
    var mem' := if next != NULL then WithPrev(mem, next, other) else mem;
    h.(head := if prev == NULL then other else h.head, mem := WithNext(WithPrev(mem', other, prev), other, next))
  }

  /** The scan of the free list over the headers in `left`: the block found, or NULL;
      None if it follows a link out of the headers or never ends. */
  function Scan(mem: Memory, current: nat, size: nat, left: set<nat>): Option<nat>
    decreases |left|
  {
    if current == NULL then Some(NULL)
    else if current !in left || current !in mem then None
    else if mem[current].length >= size then Some(current)
    else Scan(mem, mem[current].next, size, left - {current})
  }

  /** po_malloc, lines 96-139, when sbrk succeeds. */
  function Malloc(h: Store, size: nat): Option<(Store, nat)> {
    var found := Scan(h.mem, h.head, size, h.mem.Keys);
    if found == None then None
    else if found.value == NULL then
      Some((h.(mem := h.mem[h.brk := Header(size, NULL, NULL)], brk := h.brk + size + HEADER), h.brk + HEADER))
    else if found.value !in h.mem then None
    else
      var current := found.value;
      if h.mem[current].length > size + HEADER then
        var rest := current + HEADER + size;
        var cut := h.(mem := h.mem[rest := Header(h.mem[current].length - size, NULL, NULL)]);
        Some((Replace(cut, current, rest), current + HEADER))
      else
        Some((Remove(h, current), current + HEADER))
  }

  /** po_free, lines 167-181. */
  function Free(h: Store, p: nat): Store
    requires p >= HEADER && p - HEADER in h.mem
  {
    var item := p - HEADER;
    var mem := WithPrev(h.mem, item, NULL);
    if h.head != NULL then
      h.(mem := WithPrev(WithNext(mem, item, h.head), h.head, p), head := item)
    else
      h.(mem := WithNext(mem, item, NULL), head := item)
  }

  /** Freeing a block puts a back link into the old first entry that names no header;
      taking that entry off the list then leaves it where it is. */
  lemma {:induction false} SecondEntryStays(h: Store, p: nat)
    requires p > HEADER && p - HEADER in h.mem && p !in h.mem
    requires h.head != NULL && h.head in h.mem && h.head != p - HEADER
    ensures var freed := Free(h, p);
            var now := Remove(freed, h.head);
            && freed.mem[h.head].prev == p
            && now.head == p - HEADER && now.mem[p - HEADER].next == h.head
  {
  }

  /** Two blocks, with the first freed before the second. */
  function TwoFreed(base: nat, a: nat, b: nat): Store {
    var first, second := base, base + HEADER + a;
    Store(map[first := Header(a, second + HEADER, NULL), second := Header(b, NULL, first)], second, second + HEADER + b)
  }

  lemma {:induction false} TwoFreedIsReached(base: nat, a: nat, b: nat)
    requires base > 0
    ensures var one := Malloc(Store(map[], NULL, base), a);
            && one.Some? && one.value.1 == base + HEADER
            && var two := Malloc(one.value.0, b);
            && two.Some? && two.value.1 == base + HEADER + a + HEADER
            && base in two.value.0.mem && base + HEADER + a in two.value.0.mem
            && Free(Free(two.value.0, one.value.1), two.value.1) == TwoFreed(base, a, b)
  {
    var one := Malloc(Store(map[], NULL, base), a);
    assert one.value.0 == Store(map[base := Header(a, NULL, NULL)], NULL, base + HEADER + a);
    var two := Malloc(one.value.0, b);
    assert two.value.0.mem == map[base := Header(a, NULL, NULL), base + HEADER + a := Header(b, NULL, NULL)];
  }

  /** Only the first block fits: it is found, and, used whole, it stays on the list,
      because the write through its back link goes into the bytes of the second. */
  lemma {:induction false} FirstIsHandedOut(base: nat, a: nat, b: nat, size: nat)
    requires base > 0 && b < size <= a <= size + HEADER
    ensures Malloc(TwoFreed(base, a, b), size) == Some((TwoFreed(base, a, b), base + HEADER))
  {
    var h := TwoFreed(base, a, b);
    var second := base + HEADER + a;
    var left := h.mem.Keys - {second};
    assert base in left;
    assert Scan(h.mem, base, size, left) == Some(base);
    assert Scan(h.mem, second, size, h.mem.Keys) == Some(base);
    assert Remove(h, base) == h;
  }

  /** A run of the code as written in which two callers hold the same block: allocate
      `a` and `b` bytes, free both in this order, and ask twice for a size that only
      the first block can hold. The second block is at least a header long, so that
      the stray write stays inside it. */
  lemma {:induction false} TwoCallersOneBlock(base: nat, a: nat, b: nat, size: nat)
    requires base > 0 && HEADER <= b < size <= a <= size + HEADER
    ensures var one := Malloc(Store(map[], NULL, base), a);
            && one.Some?
            && var two := Malloc(one.value.0, b);
            && two.Some? && one.value.1 >= HEADER && one.value.1 - HEADER in two.value.0.mem
            && var h := Free(two.value.0, one.value.1);
            && two.value.1 >= HEADER && two.value.1 - HEADER in h.mem
            && var three := Malloc(Free(h, two.value.1), size);
            && three.Some?
            && var four := Malloc(three.value.0, size);
            && four.Some? && four.value.1 == three.value.1 == one.value.1
  {
    TwoFreedIsReached(base, a, b);
    FirstIsHandedOut(base, a, b, size);
  }
}
