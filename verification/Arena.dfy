/** What the allocator of po_malloc_free.c is meant to manage: the memory between
    the initial and the current program break, cut into blocks that lie end to end,
    each a header followed by the caller's bytes. The functions here are the steps
    the comments of the source plan; module Allocator carries them out in memory. */
module Arena {
  import opened Limits
  import opened Ranges
  import opened Sequences

  /** sizeof(block_header_t): a size_t and two pointers. */
  const HEADER: nat := 24

  /** `Live(size)`: allocated by a call of po_malloc(size). */
  datatype Status = Free | Live(size: nat)

  /** A block; its range includes the header. */
  type Block = Range<Status>

  /** `blocks` in address order; `free`: header addresses in the order of the free
      list; `limit`: how far the kernel lets the break move. */
  datatype Arena = Arena(base: nat, brk: nat, limit: nat, blocks: seq<Block>, free: seq<nat>)

  function Empty(base: nat, limit: nat): Arena {
    Arena(base, base, limit, [], [])
  }

  predicate Has(blocks: seq<Block>, a: int, owner: Status) {
    exists k :: 0 <= k < |blocks| && blocks[k].start == a && blocks[k].owner == owner
  }

  predicate WellFormed(b: Block) {
    b.len >= HEADER && (b.owner.Live? ==> HEADER + b.owner.size <= b.len)
  }

  ghost predicate Distinct(s: seq<nat>) {
    forall i, j :: 0 <= i < j < |s| ==> s[i] != s[j]
  }

  ghost predicate Inv(ar: Arena) {
    && ar.base > 0
    && Consecutive(ar.blocks, ar.base, ar.brk)
    && (forall k :: 0 <= k < |ar.blocks| ==> WellFormed(ar.blocks[k]))
    && Distinct(ar.free)
    && (forall a: nat :: a in ar.free <==> Has(ar.blocks, a, Free))
  }

  /** Position of the block that starts at `a`. */
  function Index(blocks: seq<Block>, a: int): (k: nat)
    ensures k <= |blocks|
    ensures k < |blocks| ==> blocks[k].start == a
    ensures k == |blocks| ==> forall i :: 0 <= i < |blocks| ==> blocks[i].start != a
  {
    if blocks == [] then 0
    else if blocks[0].start == a then 0
    else
      var k := 1 + Index(blocks[1..], a);
      assert k == |blocks| ==> forall i :: 1 <= i < |blocks| ==> blocks[i] == blocks[1..][i - 1];
      k
  }

  /** Bytes a caller can use in the block at `a`. */
  function Capacity(blocks: seq<Block>, a: int): int {
    var k := Index(blocks, a);
    if k < |blocks| then blocks[k].len - HEADER else -1
  }

  /** The scan of the free list: the first block, from position `i` on, that is big
      enough; the length of the list if there is none. */
  function FirstFit(ar: Arena, size: nat, i: nat): (f: nat)
    requires i <= |ar.free|
    ensures i <= f <= |ar.free|
    ensures f < |ar.free| ==> Capacity(ar.blocks, ar.free[f]) >= size
    ensures forall j :: i <= j < f ==> Capacity(ar.blocks, ar.free[j]) < size
    decreases |ar.free| - i
  {
    if i == |ar.free| || Capacity(ar.blocks, ar.free[i]) >= size then i else FirstFit(ar, size, i + 1)
  }

  /** Block `k` cut in two: `size` bytes for the caller, the rest a new free block. */
  function Pieces(b: Block, size: nat): seq<Block> {
    [Range(Live(size), b.start, HEADER + size), Range(Free, b.start + HEADER + size, b.len - HEADER - size)]
  }

  function SplitAt(blocks: seq<Block>, k: nat, size: nat): seq<Block>
    requires k < |blocks|
  {
    blocks[..k] + Pieces(blocks[k], size) + blocks[k + 1..]
  }

  /** po_malloc: the new arena and the address returned. */
  function Malloc(ar: Arena, size: nat): (Arena, nat) {
    var f := FirstFit(ar, size, 0);
    if f < |ar.free| then
      var a := ar.free[f];
      var k := Index(ar.blocks, a);
      if Capacity(ar.blocks, a) > size + HEADER then
        (ar.(blocks := SplitAt(ar.blocks, k, size), free := ar.free[f := a + HEADER + size]), a + HEADER)
      else
        (ar.(blocks := Reowned(ar.blocks, k, Live(size)), free := Removed(ar.free, f)), a + HEADER)
    else if ar.brk + HEADER + size <= ar.limit then
      (ar.(blocks := ar.blocks + [Range(Live(size), ar.brk, HEADER + size)], brk := ar.brk + HEADER + size), ar.brk + HEADER)
    else
      (ar, NULL)
  }

  /** Address `p` was returned by po_malloc(size) and has not been freed. */
  predicate IsLive(ar: Arena, p: int, size: nat) {
    Has(ar.blocks, p - HEADER, Live(size))
  }

  predicate Freeable(ar: Arena, p: int) {
    p >= HEADER && exists k :: 0 <= k < |ar.blocks| && ar.blocks[k].start == p - HEADER && ar.blocks[k].owner.Live?
  }

  /** po_free: the block becomes the first of the free list. */
  function Release(ar: Arena, p: nat): Arena
    requires Freeable(ar, p)
  {
    var k := Index(ar.blocks, p - HEADER);
    ar.(blocks := Reowned(ar.blocks, k, Free), free := [p - HEADER] + ar.free)
  }

  // ----- every step keeps the arena in order

  lemma {:induction false} IndexOf(blocks: seq<Block>, lo: int, hi: int, k: nat)
    requires Consecutive(blocks, lo, hi) && k < |blocks|
    ensures Index(blocks, blocks[k].start) == k
  {
    var i := Index(blocks, blocks[k].start);
    if i < k {
      StartsIncrease(blocks, lo, hi, i, k);
    } else if k < i {
      StartsIncrease(blocks, lo, hi, k, i);
    }
  }

  /** The block behind an entry of the free list. */
  lemma {:induction false} FreeBlock(ar: Arena, f: nat) returns (k: nat)
    requires Inv(ar) && f < |ar.free|
    ensures k < |ar.blocks| && ar.blocks[k].start == ar.free[f] && ar.blocks[k].owner == Free
    ensures Index(ar.blocks, ar.free[f]) == k && Capacity(ar.blocks, ar.free[f]) == ar.blocks[k].len - HEADER
  {
    assert ar.free[f] in ar.free;
    k :| 0 <= k < |ar.blocks| && ar.blocks[k].start == ar.free[f] && ar.blocks[k].owner == Free;
    IndexOf(ar.blocks, ar.base, ar.brk, k);
  }

  function Reowned(blocks: seq<Block>, k: nat, owner: Status): seq<Block>
    requires k < |blocks|
  {
    blocks[k := blocks[k].(owner := owner)]
  }

  /** Changing the owner of one block. */
  lemma {:induction false} OwnerChange(blocks: seq<Block>, lo: int, hi: int, k: nat, owner: Status)
    requires Consecutive(blocks, lo, hi) && k < |blocks|
    ensures Consecutive(Reowned(blocks, k, owner), lo, hi)
  {
    var b := blocks[k].(owner := owner);
    assert Consecutive([b], b.start, b.start + b.len) by {
      Inside(blocks, lo, hi, k);
      assert [b][..0] == [];
    }
    Replace(blocks, lo, hi, k, [b]);
    assert blocks[..k] + [b] + blocks[k + 1..] == Reowned(blocks, k, owner);
  }

  lemma {:induction false} OwnerHas(blocks: seq<Block>, lo: int, hi: int, k: nat, owner: Status, x: int, o: Status)
    requires Consecutive(blocks, lo, hi) && k < |blocks|
    ensures Has(Reowned(blocks, k, owner), x, o) <==> if x == blocks[k].start then o == owner else Has(blocks, x, o)
  {
    var now := Reowned(blocks, k, owner);
    IndexOf(blocks, lo, hi, k);
    if i :| 0 <= i < |now| && now[i].start == x && now[i].owner == o {
      IndexOf(blocks, lo, hi, i);
      assert i != k ==> blocks[i] == now[i];
    }
    if i :| 0 <= i < |blocks| && blocks[i].start == x && blocks[i].owner == o {
      assert i != k ==> now[i] == blocks[i];
    }
    assert now[k].owner == owner;
  }

  /** Cutting a block in two. */
  lemma {:induction false} SplitChange(blocks: seq<Block>, lo: int, hi: int, k: nat, size: nat)
    requires Consecutive(blocks, lo, hi) && k < |blocks|
    requires blocks[k].len > HEADER + size
    ensures Consecutive(SplitAt(blocks, k, size), lo, hi)
  {
    var b := blocks[k];
    var pieces := Pieces(b, size);
    assert Consecutive(pieces, b.start, b.start + b.len) by {
      assert pieces[..1] == [pieces[0]] && [pieces[0]][..0] == [];
    }
    Replace(blocks, lo, hi, k, pieces);
  }

  lemma {:induction false} SplitIndices(blocks: seq<Block>, k: nat, size: nat)
    requires k < |blocks|
    ensures var now := SplitAt(blocks, k, size);
            && |now| == |blocks| + 1
            && now[k] == Pieces(blocks[k], size)[0] && now[k + 1] == Pieces(blocks[k], size)[1]
            && (forall i :: 0 <= i < k ==> now[i] == blocks[i])
            && (forall i :: k < i < |blocks| ==> now[i + 1] == blocks[i])
            && (forall i :: k + 1 < i < |now| ==> now[i] == blocks[i - 1])
  {
  }

  /** The owner recorded for a block that is there. */
  lemma {:induction false} HasOne(blocks: seq<Block>, lo: int, hi: int, k: nat, o: Status)
    requires Consecutive(blocks, lo, hi) && k < |blocks|
    ensures Has(blocks, blocks[k].start, o) <==> o == blocks[k].owner
  {
    if i :| 0 <= i < |blocks| && blocks[i].start == blocks[k].start && blocks[i].owner == o {
      IndexOf(blocks, lo, hi, i);
      IndexOf(blocks, lo, hi, k);
    }
  }

  lemma {:induction false} SplitHas(blocks: seq<Block>, lo: int, hi: int, k: nat, size: nat, x: int, o: Status)
    requires Consecutive(blocks, lo, hi) && k < |blocks| && blocks[k].len > HEADER + size
    ensures Has(SplitAt(blocks, k, size), x, o) <==>
              if x == blocks[k].start then o == Live(size)
              else if x == blocks[k].start + HEADER + size then o == Free
              else Has(blocks, x, o)
  {
    var now := SplitAt(blocks, k, size);
    SplitChange(blocks, lo, hi, k, size);
    SplitIndices(blocks, k, size);
    if x == now[k].start {
      HasOne(now, lo, hi, k, o);
    } else if x == now[k + 1].start {
      HasOne(now, lo, hi, k + 1, o);
    } else {
      SplitHasOther(blocks, k, size, x, o);
    }
  }

  lemma {:induction false} SplitHasOther(blocks: seq<Block>, k: nat, size: nat, x: int, o: Status)
    requires k < |blocks| && x != blocks[k].start && x != blocks[k].start + HEADER + size
    ensures Has(SplitAt(blocks, k, size), x, o) <==> Has(blocks, x, o)
  {
    var now := SplitAt(blocks, k, size);
    SplitIndices(blocks, k, size);
    if i :| 0 <= i < |blocks| && blocks[i].start == x && blocks[i].owner == o {
      assert now[if i < k then i else i + 1] == blocks[i];
    }
  }

  lemma {:induction false} RemovedOne(s: seq<nat>, i: nat)
    requires Distinct(s) && i < |s|
    ensures Distinct(Removed(s, i))
    ensures forall x :: x in Removed(s, i) <==> x in s && x != s[i]
  {
    var t := Removed(s, i);
    forall x ensures x in t <==> x in s && x != s[i] {
      if x in s && x != s[i] {
        var j :| 0 <= j < |s| && s[j] == x;
        assert t[if j < i then j else j - 1] == x;
      }
    }
  }

  lemma {:induction false} ReplaceOne(s: seq<nat>, i: nat, n: nat)
    requires Distinct(s) && i < |s| && n !in s
    ensures Distinct(s[i := n])
    ensures forall x :: x in s[i := n] <==> x == n || (x in s && x != s[i])
  {
    var t := s[i := n];
    forall x ensures x in t <==> x == n || (x in s && x != s[i]) {
      assert t[i] == n;
      if x in s && x != s[i] {
        var j :| 0 <= j < |s| && s[j] == x;
        assert t[j] == x;
      }
    }
  }

  lemma {:induction false} NoStartInside(blocks: seq<Block>, lo: int, hi: int, k: nat, x: int, o: Status)
    requires Consecutive(blocks, lo, hi) && k < |blocks|
    requires blocks[k].start < x < blocks[k].start + blocks[k].len
    ensures !Has(blocks, x, o)
  {
    if i :| 0 <= i < |blocks| && blocks[i].start == x {
      if i < k {
        StartsIncrease(blocks, lo, hi, i, k);
      } else {
        StartsIncrease(blocks, lo, hi, k, i);
      }
    }
  }

  lemma {:induction false} TakeKeepsInv(ar: Arena, f: nat, k: nat, size: nat)
    requires Inv(ar) && f < |ar.free| && k < |ar.blocks|
    requires ar.blocks[k].start == ar.free[f] && HEADER + size <= ar.blocks[k].len
    ensures Inv(ar.(blocks := Reowned(ar.blocks, k, Live(size)), free := Removed(ar.free, f)))
  {
    OwnerChange(ar.blocks, ar.base, ar.brk, k, Live(size));
    RemovedOne(ar.free, f);
    forall a: nat ensures a in Removed(ar.free, f) <==> Has(Reowned(ar.blocks, k, Live(size)), a, Free) {
      OwnerHas(ar.blocks, ar.base, ar.brk, k, Live(size), a, Free);
    }
  }

  lemma {:induction false} SplitKeepsInv(ar: Arena, f: nat, k: nat, size: nat)
    requires Inv(ar) && f < |ar.free| && k < |ar.blocks|
    requires ar.blocks[k].start == ar.free[f] && ar.blocks[k].len > HEADER + size + HEADER
    ensures Inv(ar.(blocks := SplitAt(ar.blocks, k, size), free := ar.free[f := ar.free[f] + HEADER + size]))
  {
    var n := ar.free[f] + HEADER + size;
    var now := SplitAt(ar.blocks, k, size);
    SplitChange(ar.blocks, ar.base, ar.brk, k, size);
    SplitIndices(ar.blocks, k, size);
    NoStartInside(ar.blocks, ar.base, ar.brk, k, n, Free);
    ReplaceOne(ar.free, f, n);
    forall i | 0 <= i < |now| ensures WellFormed(now[i]) {
      assert i < k ==> WellFormed(ar.blocks[i]);
      assert i > k + 1 ==> WellFormed(ar.blocks[i - 1]);
    }
    forall a: nat ensures a in ar.free[f := n] <==> Has(now, a, Free) {
      SplitHas(ar.blocks, ar.base, ar.brk, k, size, a, Free);
    }
  }

  lemma {:induction false} GrowChange(ar: Arena, size: nat)
    requires Inv(ar)
    ensures var b := Range(Live(size), ar.brk, HEADER + size);
            && Inv(ar.(blocks := ar.blocks + [b], brk := ar.brk + HEADER + size))
            && forall x, o :: Has(ar.blocks + [b], x, o) <==> if x == ar.brk then o == Live(size) else Has(ar.blocks, x, o)
  {
    var b: Block := Range(Live(size), ar.brk, HEADER + size);
    var now := ar.blocks + [b];
    ConsecutiveAppend(ar.blocks, ar.base, ar.brk, b);
    forall x, o ensures Has(now, x, o) <==> if x == ar.brk then o == Live(size) else Has(ar.blocks, x, o) {
      assert now[|ar.blocks|] == b;
      if i :| 0 <= i < |ar.blocks| && ar.blocks[i].start == x && ar.blocks[i].owner == o {
        assert now[i] == ar.blocks[i];
        Inside(ar.blocks, ar.base, ar.brk, i);
      }
    }
    assert forall a: nat :: Has(now, a, Free) ==> Has(ar.blocks, a, Free);
    assert forall a: nat :: Has(ar.blocks, a, Free) && a != ar.brk ==> Has(now, a, Free);
    NothingAtBreak(ar, Free);
  }

  /** A request served from entry `f` of the free list, which is block `k`. */
  ghost predicate Serves(ar: Arena, size: nat, f: nat, k: nat) {
    && Inv(ar) && f == FirstFit(ar, size, 0) < |ar.free| && k == Index(ar.blocks, ar.free[f]) < |ar.blocks|
    && ar.blocks[k].start == ar.free[f] && HEADER + size <= ar.blocks[k].len
  }

  lemma {:induction false} ServedKeepsInv(ar: Arena, size: nat, f: nat, k: nat)
    requires Serves(ar, size, f, k)
    ensures Inv(Malloc(ar, size).0)
  {
    if ar.blocks[k].len > HEADER + size + HEADER {
      SplitKeepsInv(ar, f, k, size);
    } else {
      TakeKeepsInv(ar, f, k, size);
    }
  }

  lemma {:induction false} ServedLive(ar: Arena, size: nat, f: nat, k: nat, q: int, s: nat)
    requires Serves(ar, size, f, k)
    ensures var (now, p) := Malloc(ar, size); IsLive(now, q, s) <==> if q == p then s == size else IsLive(ar, q, s)
  {
    var p := ar.free[f] + HEADER;
    if ar.blocks[k].len > HEADER + size + HEADER {
      SplitHas(ar.blocks, ar.base, ar.brk, k, size, q - HEADER, Live(s));
      if q == p + HEADER + size {
        NoStartInside(ar.blocks, ar.base, ar.brk, k, q - HEADER, Live(s));
      }
    } else {
      OwnerHas(ar.blocks, ar.base, ar.brk, k, Live(size), q - HEADER, Live(s));
    }
  }

  /** Exactly the block returned is new among the live ones. */
  ghost predicate AddsOne(was: Arena, now: Arena, p: nat, size: nat) {
    forall q, s :: IsLive(now, q, s) <==> if q == p then s == size else IsLive(was, q, s)
  }

  lemma {:induction false} ServedLaws(ar: Arena, size: nat, f: nat, k: nat)
    requires Serves(ar, size, f, k)
    ensures var (now, p) := Malloc(ar, size);
            && Inv(now) && now.base == ar.base && now.limit == ar.limit && now.brk == ar.brk
            && p != NULL && AddsOne(ar, now, p, size)
  {
    ServedKeepsInv(ar, size, f, k);
    var (now, p) := Malloc(ar, size);
    forall q, s ensures IsLive(now, q, s) <==> if q == p then s == size else IsLive(ar, q, s) {
      ServedLive(ar, size, f, k, q, s);
    }
  }

  lemma {:induction false} GrownLaws(ar: Arena, size: nat)
    requires Inv(ar) && FirstFit(ar, size, 0) == |ar.free| && ar.brk + HEADER + size <= ar.limit
    ensures var (now, p) := Malloc(ar, size); Inv(now) && p != NULL && AddsOne(ar, now, p, size)
  {
    GrowChange(ar, size);
  }

  /** What po_malloc promises: the arena stays in order; the block returned is new
      and holds `size` bytes; every other live block stays as it is; and the break
      moves only if no free block is big enough. */
  lemma {:induction false} MallocLaws(ar: Arena, size: nat)
    requires Inv(ar)
    ensures var (now, p) := Malloc(ar, size);
            && Inv(now) && now.base == ar.base && now.limit == ar.limit
            && (p == NULL ==> now == ar && ar.brk + HEADER + size > ar.limit)
            && (p != NULL ==> AddsOne(ar, now, p, size))
            && (now.brk != ar.brk || p == NULL ==>
                  forall i :: 0 <= i < |ar.free| ==> Capacity(ar.blocks, ar.free[i]) < size)
            && now.brk <= (if ar.brk <= ar.limit then ar.limit else ar.brk)
  {
    var f := FirstFit(ar, size, 0);
    if f < |ar.free| {
      var k := FreeBlock(ar, f);
      ServedLaws(ar, size, f, k);
    } else if ar.brk + HEADER + size <= ar.limit {
      GrownLaws(ar, size);
    }
  }

  lemma {:induction false} NothingAtBreak(ar: Arena, o: Status)
    requires Inv(ar)
    ensures !Has(ar.blocks, ar.brk, o)
  {
    if i :| 0 <= i < |ar.blocks| && ar.blocks[i].start == ar.brk {
      Inside(ar.blocks, ar.base, ar.brk, i);
    }
  }

  /** The block returned was nobody's before. */
  lemma {:induction false} MallocIsFresh(ar: Arena, size: nat, s: nat)
    requires Inv(ar) && Malloc(ar, size).1 != NULL
    ensures !IsLive(ar, Malloc(ar, size).1, s)
  {
    var f := FirstFit(ar, size, 0);
    if f < |ar.free| {
      var k := FreeBlock(ar, f);
      HasOne(ar.blocks, ar.base, ar.brk, k, Live(s));
    } else {
      NothingAtBreak(ar, Live(s));
    }
  }

  /** The block behind a pointer that may be freed. */
  lemma {:induction false} LiveBlock(ar: Arena, p: nat) returns (k: nat)
    requires Inv(ar) && Freeable(ar, p)
    ensures k < |ar.blocks| && ar.blocks[k].start == p - HEADER && ar.blocks[k].owner.Live?
    ensures Index(ar.blocks, p - HEADER) == k
    ensures p - HEADER !in ar.free && p > HEADER
  {
    k :| 0 <= k < |ar.blocks| && ar.blocks[k].start == p - HEADER && ar.blocks[k].owner.Live?;
    IndexOf(ar.blocks, ar.base, ar.brk, k);
    Inside(ar.blocks, ar.base, ar.brk, k);
    if Has(ar.blocks, p - HEADER, Free) {
      var i :| 0 <= i < |ar.blocks| && ar.blocks[i].start == p - HEADER && ar.blocks[i].owner == Free;
      IndexOf(ar.blocks, ar.base, ar.brk, i);
    }
  }

  /** po_free gives back exactly the block it is handed. */
  lemma {:induction false} ReleaseLaws(ar: Arena, p: nat)
    requires Inv(ar) && Freeable(ar, p)
    ensures Inv(Release(ar, p)) && Release(ar, p).brk == ar.brk
    ensures forall q, s :: IsLive(Release(ar, p), q, s) <==> q != p && IsLive(ar, q, s)
  {
    var k := LiveBlock(ar, p);
    OwnerChange(ar.blocks, ar.base, ar.brk, k, Free);
    var now := Release(ar, p);
    forall a: nat ensures a in now.free <==> Has(now.blocks, a, Free) {
      OwnerHas(ar.blocks, ar.base, ar.brk, k, Free, a, Free);
    }
    forall q, s ensures IsLive(now, q, s) <==> q != p && IsLive(ar, q, s) {
      OwnerHas(ar.blocks, ar.base, ar.brk, k, Free, q - HEADER, Live(s));
    }
  }

  // ----- whole runs

  datatype Call = DoMalloc(size: nat) | DoFree(p: nat)

  function Step(ar: Arena, c: Call): Arena
    requires c.DoFree? ==> Freeable(ar, c.p)
  {
    match c
    case DoMalloc(size) => Malloc(ar, size).0
    case DoFree(p) => Release(ar, p)
  }

  /** Every pointer freed was returned by po_malloc and not freed since. */
  predicate Legal(ar: Arena, calls: seq<Call>)
    decreases |calls|
  {
    calls == [] || ((calls[0].DoFree? ==> Freeable(ar, calls[0].p)) && Legal(Step(ar, calls[0]), calls[1..]))
  }

  function Run(ar: Arena, calls: seq<Call>): Arena
    requires Legal(ar, calls)
    decreases |calls|
  {
    if calls == [] then ar else Run(Step(ar, calls[0]), calls[1..])
  }

  lemma {:induction false} StepKeepsInv(ar: Arena, c: Call)
    requires Inv(ar) && (c.DoFree? ==> Freeable(ar, c.p))
    ensures Inv(Step(ar, c)) && Step(ar, c).base == ar.base
  {
    match c
    case DoMalloc(size) => MallocLaws(ar, size);
    case DoFree(p) => ReleaseLaws(ar, p);
  }

  lemma {:induction false} RunKeepsInv(ar: Arena, calls: seq<Call>)
    requires Inv(ar) && Legal(ar, calls)
    ensures Inv(Run(ar, calls)) && Run(ar, calls).base == ar.base
    decreases |calls|
  {
    if calls == [] {
    } else {
      StepKeepsInv(ar, calls[0]);
      RunKeepsInv(Step(ar, calls[0]), calls[1..]);
    }
  }

  /** After every legal sequence of calls: each byte between the initial and the
      current break lies in exactly one block, no byte outside does, and each
      allocated block has room for what was asked for. */
  lemma {:induction false} EveryRunTiles(base: nat, limit: nat, calls: seq<Call>, x: int)
    requires base > 0 && Legal(Empty(base, limit), calls)
    ensures var ar := Run(Empty(base, limit), calls);
            && (base <= x < ar.brk <==> exists i :: 0 <= i < |ar.blocks| && Covers(ar.blocks[i], x))
            && (forall i, j :: 0 <= i < j < |ar.blocks| ==> !(Covers(ar.blocks[i], x) && Covers(ar.blocks[j], x)))
            && (forall i :: 0 <= i < |ar.blocks| && ar.blocks[i].owner.Live? ==>
                  HEADER + ar.blocks[i].owner.size <= ar.blocks[i].len)
  {
    RunKeepsInv(Empty(base, limit), calls);
    var ar := Run(Empty(base, limit), calls);
    Covered(ar.blocks, base, ar.brk, x);
    forall i, j | 0 <= i < j < |ar.blocks| ensures !(Covers(ar.blocks[i], x) && Covers(ar.blocks[j], x)) {
      Disjoint(ar.blocks, base, ar.brk, i, j, x);
    }
    forall i | 0 <= i < |ar.blocks| && ar.blocks[i].owner.Live? ensures HEADER + ar.blocks[i].owner.size <= ar.blocks[i].len {
      assert WellFormed(ar.blocks[i]);
    }
  }

  /** What two callers hold, headers included, never overlaps and lies below the break. */
  lemma {:induction false} CallersAreSeparate(ar: Arena, p: int, s: nat, q: int, t: nat, x: int)
    requires Inv(ar) && IsLive(ar, p, s) && IsLive(ar, q, t) && p != q
    ensures !(p - HEADER <= x < p + s && q - HEADER <= x < q + t)
    ensures ar.base + HEADER <= p && p + s <= ar.brk
  {
    var i :| 0 <= i < |ar.blocks| && ar.blocks[i].start == p - HEADER && ar.blocks[i].owner == Live(s);
    var j :| 0 <= j < |ar.blocks| && ar.blocks[j].start == q - HEADER && ar.blocks[j].owner == Live(t);
    assert WellFormed(ar.blocks[i]) && WellFormed(ar.blocks[j]);
    Inside(ar.blocks, ar.base, ar.brk, i);
    if i < j {
      Disjoint(ar.blocks, ar.base, ar.brk, i, j, x);
    } else {
      Disjoint(ar.blocks, ar.base, ar.brk, j, i, x);
    }
  }

  lemma {:induction false} ReownedCapacity(blocks: seq<Block>, lo: int, hi: int, k: nat, owner: Status, a: int)
    requires Consecutive(blocks, lo, hi) && k < |blocks|
    ensures Capacity(Reowned(blocks, k, owner), a) == Capacity(blocks, a)
  {
    var now := Reowned(blocks, k, owner);
    assert forall j :: 0 <= j < |blocks| ==> now[j].start == blocks[j].start && now[j].len == blocks[j].len;
    if Index(now, a) < |now| {
      IndexOf(blocks, lo, hi, Index(now, a));
    }
  }

  lemma {:induction false} LiveCapacity(ar: Arena, p: int, size: nat)
    requires Inv(ar) && IsLive(ar, p, size)
    ensures Capacity(ar.blocks, p - HEADER) >= size
  {
    var i :| 0 <= i < |ar.blocks| && ar.blocks[i].start == p - HEADER && ar.blocks[i].owner == Live(size);
    assert WellFormed(ar.blocks[i]);
    IndexOf(ar.blocks, ar.base, ar.brk, i);
  }

  /** The block just freed is the first that is looked at. */
  lemma {:induction false} FreedIsFirst(ar: Arena, p: nat, size: nat)
    requires Inv(ar) && IsLive(ar, p, size) && Freeable(ar, p)
    ensures FirstFit(Release(ar, p), size, 0) == 0
  {
    LiveCapacity(ar, p, size);
    ReownedCapacity(ar.blocks, ar.base, ar.brk, Index(ar.blocks, p - HEADER), Free, p - HEADER);
  }

  /** Freeing a block and asking again for the same size gives the same address
      back, and the break stays where it is. */
  lemma {:induction false} FreeThenMalloc(ar: Arena, p: nat, size: nat)
    requires Inv(ar) && IsLive(ar, p, size) && p >= HEADER
    ensures Freeable(ar, p)
    ensures var (now, q) := Malloc(Release(ar, p), size); q == p && now.brk == ar.brk
  {
    FreedIsFirst(ar, p, size);
  }
}
