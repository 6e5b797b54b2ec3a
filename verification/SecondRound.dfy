/** The second test of po_malloc_free.c: allocate blocks, free them all, allocate the
    same sizes again; "sbrk should not move". Under the planned steps of module Arena
    whether it does depends on the order of the sizes. Module AsWrittenRounds has the
    code as written, which does not always agree with the plan. */
module SecondRound {
  import opened Ranges
  import opened Sequences
  import opened Arena

  lemma {:induction false} RunAppend(ar: Arena, calls: seq<Call>, c: Call)
    requires Legal(ar, calls) && (c.DoFree? ==> Freeable(Run(ar, calls), c.p))
    ensures Legal(ar, calls + [c]) && Run(ar, calls + [c]) == Step(Run(ar, calls), c)
    decreases |calls|
  {
    if calls == [] {
      assert [c][1..] == [];
    } else {
      assert (calls + [c])[1..] == calls[1..] + [c];
      RunAppend(Step(ar, calls[0]), calls[1..], c);
    }
  }

  /** Requests for the first `n` of these sizes, in order. */
  function Mallocs(sizes: seq<nat>, n: nat): seq<Call>
    requires n <= |sizes|
  {
    if n == 0 then [] else Mallocs(sizes, n - 1) + [DoMalloc(sizes[n - 1])]
  }

  /** The arena after these requests. */
  function After(ar: Arena, sizes: seq<nat>, n: nat): Arena
    requires n <= |sizes|
  {
    if n == 0 then ar else Malloc(After(ar, sizes, n - 1), sizes[n - 1]).0
  }

  lemma {:induction false} AfterIsRun(ar: Arena, sizes: seq<nat>, n: nat)
    requires n <= |sizes|
    ensures Legal(ar, Mallocs(sizes, n)) && Run(ar, Mallocs(sizes, n)) == After(ar, sizes, n)
  {
    if n == 0 {
    } else {
      AfterIsRun(ar, sizes, n - 1);
      RunAppend(ar, Mallocs(sizes, n - 1), DoMalloc(sizes[n - 1]));
    }
  }

  /** What every request keeps holds after all of them. */
  lemma {:induction false} Throughout(ar: Arena, sizes: seq<nat>, n: nat, inv: (Arena, int) -> bool)
    requires n <= |sizes| && inv(ar, 0)
    requires forall s, t, i, j {:trigger inv(s, i), inv(t, j)} ::
               0 <= i < n && j == i + 1 && inv(s, i) && t == Malloc(s, sizes[i]).0 ==> inv(t, j)
    ensures inv(After(ar, sizes, n), n)
  {
    if n == 0 {
    } else {
      Throughout(ar, sizes, n - 1, inv);
    }
  }

  lemma {:induction false} AfterKeepsInv(ar: Arena, sizes: seq<nat>, n: nat)
    requires Inv(ar) && n <= |sizes|
    ensures Inv(After(ar, sizes, n)) && After(ar, sizes, n).limit == ar.limit
    ensures ar.brk <= After(ar, sizes, n).brk <= ar.brk + StartOf(0, sizes, n)
  {
    var inv := (s: Arena, i: int) =>
      && 0 <= i <= n && Inv(s) && s.limit == ar.limit
      && ar.brk <= s.brk <= ar.brk + StartOf(0, sizes, i);
    forall s, t, i, j | 0 <= i < n && j == i + 1 && inv(s, i) && t == Malloc(s, sizes[i]).0 ensures inv(t, j) {
      MallocLaws(s, sizes[i]);
      BreakAfter(s, sizes[i]);
    }
    Throughout(ar, sizes, n, inv);
  }

  lemma {:induction false} BreakAfter(s: Arena, size: nat)
    ensures s.brk <= Malloc(s, size).0.brk <= s.brk + HEADER + size
  {
  }

  /** Where block `k` starts when blocks of these sizes lie one behind the other. */
  function StartOf(base: nat, sizes: seq<nat>, k: nat): nat
    requires k <= |sizes|
  {
    if k == 0 then base else StartOf(base, sizes, k - 1) + HEADER + sizes[k - 1]
  }

  lemma {:induction false} StartsApart(base: nat, sizes: seq<nat>, j: nat, k: nat)
    requires j <= k <= |sizes|
    ensures StartOf(base, sizes, j) <= StartOf(base, sizes, k)
    ensures StartOf(base, sizes, k) == base + StartOf(0, sizes, k)
  {
    if k == 0 {
    } else {
      StartsApart(base, sizes, if j < k then j else k - 1, k - 1);
    }
  }

  /** Block `k`. */
  function BlockOf(base: nat, sizes: seq<nat>, k: nat, owner: Status): Block
    requires k < |sizes|
  {
    Range(owner, StartOf(base, sizes, k), HEADER + sizes[k])
  }

  /** The first `n` sizes have been asked for. */
  function Allocated(base: nat, limit: nat, sizes: seq<nat>, n: nat): Arena
    requires n <= |sizes|
  {
    Arena(base, StartOf(base, sizes, n), limit,
          seq(n, k requires 0 <= k < n => BlockOf(base, sizes, k, Live(sizes[k]))), [])
  }

  /** All have been asked for, and the first `n` blocks freed again, in order. */
  function Freed(base: nat, limit: nat, sizes: seq<nat>, n: nat): Arena
    requires n <= |sizes|
  {
    Arena(base, StartOf(base, sizes, |sizes|), limit,
          seq(|sizes|, k requires 0 <= k < |sizes| => BlockOf(base, sizes, k, if k < n then Free else Live(sizes[k]))),
          seq(n, k requires 0 <= k < n => StartOf(base, sizes, n - 1 - k)))
  }

  lemma {:induction false} AllocateNext(base: nat, limit: nat, sizes: seq<nat>, n: nat)
    requires n < |sizes| && StartOf(base, sizes, n + 1) <= limit
    ensures Malloc(Allocated(base, limit, sizes, n), sizes[n]).0 == Allocated(base, limit, sizes, n + 1)
  {
    var ar, next := Allocated(base, limit, sizes, n), Allocated(base, limit, sizes, n + 1);
    assert next.blocks == ar.blocks + [BlockOf(base, sizes, n, Live(sizes[n]))];
  }

  lemma {:induction false} AllocatedIsReached(base: nat, limit: nat, sizes: seq<nat>, n: nat)
    requires n <= |sizes| && StartOf(base, sizes, n) <= limit
    ensures After(Empty(base, limit), sizes, n) == Allocated(base, limit, sizes, n)
  {
    if n == 0 {
    } else {
      AllocatedIsReached(base, limit, sizes, n - 1);
      AllocateNext(base, limit, sizes, n - 1);
    }
  }

  /** The calls of the first round: all requests, then the frees in the same order. */
  function FirstRound(base: nat, sizes: seq<nat>, n: nat): seq<Call>
    requires n <= |sizes|
  {
    if n == 0 then Mallocs(sizes, |sizes|)
    else FirstRound(base, sizes, n - 1) + [DoFree(StartOf(base, sizes, n - 1) + HEADER)]
  }

  lemma {:induction false} FreedNext(base: nat, limit: nat, sizes: seq<nat>, n: nat)
    requires n < |sizes|
    ensures var ar, next := Freed(base, limit, sizes, n), Freed(base, limit, sizes, n + 1);
            && ar.blocks[n] == BlockOf(base, sizes, n, Live(sizes[n]))
            && next == ar.(blocks := Reowned(ar.blocks, n, Free), free := [StartOf(base, sizes, n)] + ar.free)
  {
    var ar, next := Freed(base, limit, sizes, n), Freed(base, limit, sizes, n + 1);
    assert next.blocks == Reowned(ar.blocks, n, Free);
    assert next.free == [StartOf(base, sizes, n)] + ar.free;
  }

  /** Freeing block `n` of an arena in order. */
  lemma {:induction false} ReleaseBlock(ar: Arena, n: nat)
    requires Inv(ar) && n < |ar.blocks| && ar.blocks[n].owner.Live? && ar.blocks[n].start >= 0
    ensures var p := ar.blocks[n].start + HEADER;
            && Freeable(ar, p) && Inv(Release(ar, p))
            && Release(ar, p) == ar.(blocks := Reowned(ar.blocks, n, Free), free := [ar.blocks[n].start] + ar.free)
  {
    IndexOf(ar.blocks, ar.base, ar.brk, n);
    ReleaseLaws(ar, ar.blocks[n].start + HEADER);
  }

  lemma {:induction false} FreeNext(base: nat, limit: nat, sizes: seq<nat>, n: nat)
    requires n < |sizes| && Inv(Freed(base, limit, sizes, n))
    ensures var p := StartOf(base, sizes, n) + HEADER;
            && Freeable(Freed(base, limit, sizes, n), p)
            && Release(Freed(base, limit, sizes, n), p) == Freed(base, limit, sizes, n + 1)
            && Inv(Freed(base, limit, sizes, n + 1))
  {
    FreedNext(base, limit, sizes, n);
    ReleaseBlock(Freed(base, limit, sizes, n), n);
  }

  lemma {:induction false} NoneFreed(base: nat, limit: nat, sizes: seq<nat>)
    requires base > 0 && StartOf(base, sizes, |sizes|) <= limit
    ensures After(Empty(base, limit), sizes, |sizes|) == Freed(base, limit, sizes, 0)
    ensures Inv(Freed(base, limit, sizes, 0))
  {
    AllocatedIsReached(base, limit, sizes, |sizes|);
    assert Allocated(base, limit, sizes, |sizes|) == Freed(base, limit, sizes, 0);
    AfterKeepsInv(Empty(base, limit), sizes, |sizes|);
  }

  lemma {:induction false} FreedInOrder(base: nat, limit: nat, sizes: seq<nat>, n: nat)
    requires base > 0 && n <= |sizes| && StartOf(base, sizes, |sizes|) <= limit
    ensures Inv(Freed(base, limit, sizes, n))
  {
    if n == 0 {
      NoneFreed(base, limit, sizes);
    } else {
      FreedInOrder(base, limit, sizes, n - 1);
      FreeNext(base, limit, sizes, n - 1);
    }
  }

  lemma {:induction false} ReleaseNext(base: nat, limit: nat, sizes: seq<nat>, n: nat)
    requires base > 0 && n < |sizes| && StartOf(base, sizes, |sizes|) <= limit
    ensures var ar, p := Freed(base, limit, sizes, n), StartOf(base, sizes, n) + HEADER;
            Freeable(ar, p) && Step(ar, DoFree(p)) == Freed(base, limit, sizes, n + 1)
  {
    FreedInOrder(base, limit, sizes, n);
    FreeNext(base, limit, sizes, n);
  }

  /** Any sizes, asked for one after the other and freed in the same order. */
  lemma {:induction false} FreedIsReached(base: nat, limit: nat, sizes: seq<nat>, n: nat)
    requires base > 0 && n <= |sizes| && StartOf(base, sizes, |sizes|) <= limit
    ensures Legal(Empty(base, limit), FirstRound(base, sizes, n))
    ensures Run(Empty(base, limit), FirstRound(base, sizes, n)) == Freed(base, limit, sizes, n)
  {
    if n == 0 {
      AfterIsRun(Empty(base, limit), sizes, |sizes|);
      NoneFreed(base, limit, sizes);
    } else {
      FreedIsReached(base, limit, sizes, n - 1);
      ReleaseNext(base, limit, sizes, n - 1);
      RunAppend(Empty(base, limit), FirstRound(base, sizes, n - 1), DoFree(StartOf(base, sizes, n - 1) + HEADER));
    }
  }

  /** The break does not move when, after that, the same sizes are asked for again. */
  predicate BreakStays(base: nat, limit: nat, sizes: seq<nat>) {
    var ar := Freed(base, limit, sizes, |sizes|);
    After(ar, sizes, |sizes|).brk == ar.brk
  }

  /** In terms of calls: both rounds are legal, and the break after the first is
      compared with the break after the second. */
  lemma {:induction false} BothRounds(base: nat, limit: nat, sizes: seq<nat>)
    requires base > 0 && StartOf(base, sizes, |sizes|) <= limit
    ensures Legal(Empty(base, limit), FirstRound(base, sizes, |sizes|))
    ensures var ar := Run(Empty(base, limit), FirstRound(base, sizes, |sizes|));
            && Legal(ar, Mallocs(sizes, |sizes|))
            && (BreakStays(base, limit, sizes) <==> Run(ar, Mallocs(sizes, |sizes|)).brk == ar.brk)
  {
    FreedIsReached(base, limit, sizes, |sizes|);
    AfterIsRun(Freed(base, limit, sizes, |sizes|), sizes, |sizes|);
  }

  // ----- exactly when the break stays, for all sizes in any order

  /** What the entries of the free list have room for. */
  function Rooms(ar: Arena): seq<int> {
    seq(|ar.free|, j requires 0 <= j < |ar.free| => Capacity(ar.blocks, ar.free[j]))
  }

  /** The sizes from number `i` on, backwards. */
  function Backwards(sizes: seq<nat>, i: nat): seq<int>
    requires i <= |sizes|
  {
    seq(|sizes| - i, j requires 0 <= j < |sizes| - i => sizes[|sizes| - 1 - j])
  }

  /** After the first round the rooms are the sizes backwards. */
  lemma {:induction false} FreedRooms(base: nat, limit: nat, sizes: seq<nat>)
    requires Inv(Freed(base, limit, sizes, |sizes|))
    ensures Rooms(Freed(base, limit, sizes, |sizes|)) == Backwards(sizes, 0)
  {
    var n, ar := |sizes|, Freed(base, limit, sizes, |sizes|);
    forall j | 0 <= j < n ensures Rooms(ar)[j] == Backwards(sizes, 0)[j] {
      IndexOf(ar.blocks, ar.base, ar.brk, n - 1 - j);
    }
  }

  lemma {:induction false} RoomsAfterTake(ar: Arena, f: nat, k: nat, owner: Status)
    requires Inv(ar) && f < |ar.free| && k < |ar.blocks|
    ensures Rooms(ar.(blocks := Reowned(ar.blocks, k, owner), free := Removed(ar.free, f))) == Removed(Rooms(ar), f)
  {
    var now := ar.(blocks := Reowned(ar.blocks, k, owner), free := Removed(ar.free, f));
    forall j | 0 <= j < |now.free| ensures Rooms(now)[j] == Removed(Rooms(ar), f)[j] {
      ReownedCapacity(ar.blocks, ar.base, ar.brk, k, owner, now.free[j]);
    }
  }

  /** The first of these rooms, from number `i` on, that holds `size` bytes. */
  function FirstRoom(rooms: seq<int>, size: nat, i: nat): (f: nat)
    requires i <= |rooms|
    ensures i <= f <= |rooms|
    ensures f < |rooms| ==> rooms[f] >= size
    ensures forall j :: i <= j < f ==> rooms[j] < size
    decreases |rooms| - i
  {
    if i == |rooms| || rooms[i] >= size then i else FirstRoom(rooms, size, i + 1)
  }

  /** The rooms after `size` bytes were taken from number `f`: it shrinks, or is gone. */
  function Taken(rooms: seq<int>, f: nat, size: nat): seq<int>
    requires f < |rooms|
  {
    if rooms[f] > size + HEADER then rooms[f := rooms[f] - size - HEADER] else Removed(rooms, f)
  }

  /** Taking the sizes from number `i` on, one after the other and each from the first
      room that holds it, never finds all rooms too small. */
  predicate AllFit(rooms: seq<int>, sizes: seq<nat>, i: nat)
    requires i <= |sizes|
    decreases |sizes| - i
  {
    i == |sizes| ||
    var f := FirstRoom(rooms, sizes[i], 0);
    f < |rooms| && AllFit(Taken(rooms, f, sizes[i]), sizes, i + 1)
  }

  lemma {:induction false} FitIsFirstRoom(s: Arena, size: nat)
    ensures FirstFit(s, size, 0) == FirstRoom(Rooms(s), size, 0)
  {
    var f, g := FirstFit(s, size, 0), FirstRoom(Rooms(s), size, 0);
    assert f < |s.free| ==> Rooms(s)[f] >= size;
    assert g < |s.free| ==> Capacity(s.blocks, s.free[g]) >= size;
  }

  /** Cutting block `k` in two leaves the room of every other block as it was. */
  lemma {:induction false} SplitCapacity(blocks: seq<Block>, lo: int, hi: int, k: nat, size: nat, i: nat)
    requires Consecutive(blocks, lo, hi) && k < |blocks| && i < |blocks| && i != k && blocks[k].len > HEADER + size
    ensures Capacity(SplitAt(blocks, k, size), blocks[i].start) == blocks[i].len - HEADER
  {
    var now, j := SplitAt(blocks, k, size), if i < k then i else i + 1;
    SplitChange(blocks, lo, hi, k, size);
    SplitIndices(blocks, k, size);
    assert now[j] == blocks[i];
    IndexOf(now, lo, hi, j);
  }

  lemma {:induction false} RestCapacity(blocks: seq<Block>, lo: int, hi: int, k: nat, size: nat)
    requires Consecutive(blocks, lo, hi) && k < |blocks| && blocks[k].len > HEADER + size
    ensures Capacity(SplitAt(blocks, k, size), blocks[k].start + HEADER + size) == blocks[k].len - HEADER - size - HEADER
  {
    SplitChange(blocks, lo, hi, k, size);
    SplitIndices(blocks, k, size);
    IndexOf(SplitAt(blocks, k, size), lo, hi, k + 1);
  }

  lemma {:induction false} RoomsAfterSplit(s: Arena, f: nat, k: nat, size: nat)
    requires Inv(s) && f < |s.free| && k < |s.blocks|
    requires s.blocks[k].start == s.free[f] && s.blocks[k].len > HEADER + size + HEADER
    ensures Rooms(s.(blocks := SplitAt(s.blocks, k, size), free := s.free[f := s.free[f] + HEADER + size])) ==
            Rooms(s)[f := s.blocks[k].len - HEADER - size - HEADER]
  {
    var now := s.(blocks := SplitAt(s.blocks, k, size), free := s.free[f := s.free[f] + HEADER + size]);
    forall j | 0 <= j < |now.free|
      ensures Rooms(now)[j] == Rooms(s)[f := s.blocks[k].len - HEADER - size - HEADER][j]
    {
      var i := FreeBlock(s, j);
      if j == f {
        RestCapacity(s.blocks, s.base, s.brk, k, size);
      } else {
        assert s.free[j] != s.free[f];
        SplitCapacity(s.blocks, s.base, s.brk, k, size, i);
      }
    }
  }

  lemma {:induction false} ServedFromRoom(s: Arena, size: nat, f: nat)
    requires Inv(s) && f == FirstFit(s, size, 0) < |s.free|
    ensures Malloc(s, size).0.brk == s.brk && Rooms(Malloc(s, size).0) == Taken(Rooms(s), f, size)
  {
    var k := FreeBlock(s, f);
    assert Rooms(s)[f] == s.blocks[k].len - HEADER;
    if s.blocks[k].len > HEADER + size + HEADER {
      RoomsAfterSplit(s, f, k, size);
    } else {
      RoomsAfterTake(s, f, k, Live(size));
    }
  }

  /** An allocation depends on, and changes, the rooms alone. */
  lemma {:induction false} RoomsStep(s: Arena, size: nat)
    requires Inv(s)
    ensures var f := FirstRoom(Rooms(s), size, 0);
            && (f < |Rooms(s)| ==> Malloc(s, size).0.brk == s.brk && Rooms(Malloc(s, size).0) == Taken(Rooms(s), f, size))
            && (f == |Rooms(s)| && s.brk + HEADER + size <= s.limit ==> Malloc(s, size).0.brk > s.brk)
  {
    FitIsFirstRoom(s, size);
    if FirstFit(s, size, 0) < |s.free| {
      ServedFromRoom(s, size, FirstFit(s, size, 0));
    }
  }

  lemma {:induction false} BreakGrows(ar: Arena, sizes: seq<nat>, i: nat, n: nat)
    requires i <= n <= |sizes|
    ensures After(ar, sizes, i).brk <= After(ar, sizes, n).brk
  {
    if i == n {
    } else {
      BreakGrows(ar, sizes, i, n - 1);
      BreakAfter(After(ar, sizes, n - 1), sizes[n - 1]);
    }
  }

  /** What `t` is after a request in `s`, as far as rooms and break are concerned. */
  ghost predicate RoomsFollow(s: Arena, t: Arena, size: nat) {
    var f := FirstRoom(Rooms(s), size, 0);
    if f < |Rooms(s)| then t.brk == s.brk && Rooms(t) == Taken(Rooms(s), f, size) else t.brk > s.brk
  }

  lemma {:induction false} RoomsStepTo(s: Arena, t: Arena, size: nat)
    requires Inv(s) && s.brk + HEADER + size <= s.limit && t == Malloc(s, size).0
    ensures RoomsFollow(s, t, size)
  {
    RoomsStep(s, size);
  }

  lemma {:induction false} NextRooms(ar: Arena, sizes: seq<nat>, i: nat)
    requires Inv(ar) && i < |sizes| && ar.brk + StartOf(0, sizes, |sizes|) <= ar.limit
    ensures RoomsFollow(After(ar, sizes, i), After(ar, sizes, i + 1), sizes[i])
  {
    AfterKeepsInv(ar, sizes, i);
    StartsApart(0, sizes, i + 1, |sizes|);
    RoomsStepTo(After(ar, sizes, i), After(ar, sizes, i + 1), sizes[i]);
  }

  /** One request decides for the break, or leaves it to those that follow. */
  lemma {:induction false} StaysStep(rooms: seq<int>, next: seq<int>, sizes: seq<nat>, i: nat, was: nat, now: nat, end: nat)
    requires i < |sizes| && now <= end
    requires var f := FirstRoom(rooms, sizes[i], 0);
             if f < |rooms| then now == was && next == Taken(rooms, f, sizes[i]) else now > was
    requires end == now <==> AllFit(next, sizes, i + 1)
    ensures end == was <==> AllFit(rooms, sizes, i)
  {
  }

  /** What is left to the requests from number `i` on. */
  ghost predicate StaysIff(ar: Arena, sizes: seq<nat>, i: nat) {
    i <= |sizes| &&
    (After(ar, sizes, |sizes|).brk == After(ar, sizes, i).brk <==> AllFit(Rooms(After(ar, sizes, i)), sizes, i))
  }

  lemma {:induction false} StaysIffBefore(s: Arena, t: Arena, end: Arena, sizes: seq<nat>, i: nat)
    requires i < |sizes| && t.brk <= end.brk
    ensures RoomsFollow(s, t, sizes[i]) && (end.brk == t.brk <==> AllFit(Rooms(t), sizes, i + 1)) ==>
              (end.brk == s.brk <==> AllFit(Rooms(s), sizes, i))
  {
    if RoomsFollow(s, t, sizes[i]) && (end.brk == t.brk <==> AllFit(Rooms(t), sizes, i + 1)) {
      StaysStep(Rooms(s), Rooms(t), sizes, i, s.brk, t.brk, end.brk);
    }
  }

  lemma {:induction false} StaysIffHere(ar: Arena, sizes: seq<nat>, i: nat)
    requires i < |sizes|
    ensures StaysIff(ar, sizes, i + 1) && RoomsFollow(After(ar, sizes, i), After(ar, sizes, i + 1), sizes[i]) ==>
              StaysIff(ar, sizes, i)
  {
    BreakGrows(ar, sizes, i + 1, |sizes|);
    StaysIffBefore(After(ar, sizes, i), After(ar, sizes, i + 1), After(ar, sizes, |sizes|), sizes, i);
  }

  lemma {:induction false} StaysFrom(ar: Arena, sizes: seq<nat>, i: nat)
    requires Inv(ar) && i <= |sizes| && ar.brk + StartOf(0, sizes, |sizes|) <= ar.limit
    ensures StaysIff(ar, sizes, i)
    decreases |sizes| - i
  {
    if i == |sizes| {
    } else {
      StaysFrom(ar, sizes, i + 1);
      NextRooms(ar, sizes, i);
      StaysIffHere(ar, sizes, i);
    }
  }

  /** The break stays if and only if the sizes, each taken from the first room large
      enough, all fit into rooms of the same sizes in the opposite order. */
  lemma {:induction false} StaysExactly(base: nat, limit: nat, sizes: seq<nat>)
    requires base > 0 && base + 2 * StartOf(0, sizes, |sizes|) <= limit
    ensures BreakStays(base, limit, sizes) <==> AllFit(Backwards(sizes, 0), sizes, 0)
  {
    var n, ar := |sizes|, Freed(base, limit, sizes, |sizes|);
    StartsApart(base, sizes, n, n);
    FreedInOrder(base, limit, sizes, n);
    FreedRooms(base, limit, sizes);
    StaysFrom(ar, sizes, 0);
  }

  // ----- when the last size is the largest, the break moves

  /** Rooms too small for the last size only get smaller. */
  lemma {:induction false} LastDoesNotFit(rooms: seq<int>, sizes: seq<nat>, i: nat)
    requires i < |sizes| && forall j :: 0 <= j < |rooms| ==> rooms[j] < sizes[|sizes| - 1]
    ensures !AllFit(rooms, sizes, i)
    decreases |sizes| - i
  {
    var f := FirstRoom(rooms, sizes[i], 0);
    if i == |sizes| - 1 || f == |rooms| {
    } else {
      LastDoesNotFit(Taken(rooms, f, sizes[i]), sizes, i + 1);
    }
  }

  lemma {:induction false} LastLargestDoesNotFit(sizes: seq<nat>, rooms: seq<int>)
    requires |sizes| >= 2 && rooms == Backwards(sizes, 0)
    requires forall k :: 0 <= k < |sizes| - 1 ==> sizes[k] < sizes[|sizes| - 1]
    ensures !AllFit(rooms, sizes, 0)
  {
    assert rooms[0] == sizes[|sizes| - 1] && FirstRoom(rooms, sizes[0], 0) == 0;
    LastDoesNotFit(Taken(rooms, 0, sizes[0]), sizes, 1);
  }

  /** If the last size is larger than all others, the break moves: the first request
      is served from the only block that could hold the last. */
  lemma {:induction false} LastLargestMoves(base: nat, limit: nat, sizes: seq<nat>)
    requires base > 0 && |sizes| >= 2 && base + 2 * StartOf(0, sizes, |sizes|) <= limit
    requires forall k :: 0 <= k < |sizes| - 1 ==> sizes[k] < sizes[|sizes| - 1]
    ensures !BreakStays(base, limit, sizes)
  {
    StaysExactly(base, limit, sizes);
    LastLargestDoesNotFit(sizes, Backwards(sizes, 0));
  }

  // ----- when no size is larger than one before it, the break stays

  predicate Descending(sizes: seq<nat>) {
    forall j, k :: 0 <= j < k < |sizes| ==> sizes[j] >= sizes[k]
  }

  /** The rooms are the sizes from number `i` on, backwards. */
  ghost predicate AreBackwards(rooms: seq<int>, sizes: seq<nat>, i: nat) {
    && i <= |sizes| && |rooms| == |sizes| - i
    && forall j :: 0 <= j < |rooms| ==> rooms[j] == sizes[|sizes| - 1 - j]
  }

  /** The first room as large as the request is exactly as large, and so are all after it. */
  lemma {:induction false} RoomIsExact(rooms: seq<int>, sizes: seq<nat>, i: nat) returns (f: nat)
    requires Descending(sizes) && i < |sizes| && AreBackwards(rooms, sizes, i)
    ensures f == FirstRoom(rooms, sizes[i], 0) < |rooms| && forall j :: f <= j < |rooms| ==> rooms[j] == sizes[i]
  {
    f := FirstRoom(rooms, sizes[i], 0);
    assert rooms[|rooms| - 1] == sizes[i];
    forall j | f <= j < |rooms| ensures rooms[j] == sizes[i] {
      assert rooms[f] == sizes[|sizes| - 1 - f] && rooms[j] == sizes[|sizes| - 1 - j];
    }
  }

  lemma {:induction false} BackwardsNext(rooms: seq<int>, sizes: seq<nat>, i: nat, f: nat)
    requires i < |sizes| && AreBackwards(rooms, sizes, i) && f < |rooms|
    requires forall j :: f <= j < |rooms| ==> rooms[j] == sizes[i]
    ensures AreBackwards(Removed(rooms, f), sizes, i + 1)
  {
    var now := Removed(rooms, f);
    forall j | 0 <= j < |now| ensures now[j] == sizes[|sizes| - 1 - j] {
      assert rooms[j] == sizes[|sizes| - 1 - j];
    }
  }

  lemma {:induction false} DescendingNext(rooms: seq<int>, sizes: seq<nat>, i: nat) returns (f: nat, next: seq<int>)
    requires Descending(sizes) && i < |sizes| && AreBackwards(rooms, sizes, i)
    ensures f == FirstRoom(rooms, sizes[i], 0) < |rooms| && next == Taken(rooms, f, sizes[i])
    ensures AreBackwards(next, sizes, i + 1)
  {
    f := RoomIsExact(rooms, sizes, i);
    BackwardsNext(rooms, sizes, i, f);
    assert rooms[f] == sizes[i];
    next := Removed(rooms, f);
  }

  /** What every request keeps, finding a room, makes all of them fit. */
  lemma {:induction false} FitThroughout(rooms: seq<int>, sizes: seq<nat>, i: nat, inv: (seq<int>, int) -> bool)
    requires i <= |sizes| && inv(rooms, i)
    requires forall r, k {:trigger inv(r, k)} :: 0 <= k < |sizes| && inv(r, k) ==> FirstRoom(r, sizes[k], 0) < |r|
    requires forall r, t, k, j {:trigger inv(r, k), inv(t, j)} ::
               0 <= k < |sizes| && j == k + 1 && inv(r, k) && t == Taken(r, FirstRoom(r, sizes[k], 0), sizes[k]) ==> inv(t, j)
    ensures AllFit(rooms, sizes, i)
    decreases |sizes| - i
  {
    if i == |sizes| {
    } else {
      var next := Taken(rooms, FirstRoom(rooms, sizes[i], 0), sizes[i]);
      assert inv(next, i + 1);
      FitThroughout(next, sizes, i + 1, inv);
    }
  }

  lemma {:induction false} DescendingFits(rooms: seq<int>, sizes: seq<nat>)
    requires Descending(sizes) && AreBackwards(rooms, sizes, 0)
    ensures AllFit(rooms, sizes, 0)
  {
    var inv := (r: seq<int>, k: int) => 0 <= k && AreBackwards(r, sizes, k);
    forall r, k | 0 <= k < |sizes| && inv(r, k)
      ensures FirstRoom(r, sizes[k], 0) < |r| && inv(Taken(r, FirstRoom(r, sizes[k], 0), sizes[k]), k + 1)
    {
      var f, next := DescendingNext(r, sizes, k);
    }
    FitThroughout(rooms, sizes, 0, inv);
  }

  /** If no size is larger than one before it, the break stays. */
  lemma {:induction false} DescendingStays(base: nat, limit: nat, sizes: seq<nat>)
    requires base > 0 && base + 2 * StartOf(0, sizes, |sizes|) <= limit && Descending(sizes)
    ensures BreakStays(base, limit, sizes)
  {
    StaysExactly(base, limit, sizes);
    DescendingFits(Backwards(sizes, 0), sizes);
  }

  /** For two blocks the first two conditions settle every case. */
  lemma {:induction false} TwoSizesAgain(base: nat, limit: nat, a: nat, b: nat)
    requires base > 0 && base + 2 * StartOf(0, [a, b], 2) <= limit
    ensures BreakStays(base, limit, [a, b]) <==> a >= b
  {
    if a >= b {
      DescendingStays(base, limit, [a, b]);
    } else {
      LastLargestMoves(base, limit, [a, b]);
    }
  }

  /** The sizes of the program's own test, which expects the break not to move. Under
      the planned steps, and in the code as written, it does. */
  function OwnTest(): (sizes: seq<nat>)
    ensures |sizes| == 100
  {
    seq(100, i => 100 + i)
  }

  lemma {:induction false} OwnTestMoves(base: nat, limit: nat)
    requires base > 0 && base + 2 * StartOf(0, OwnTest(), 100) <= limit
    ensures !BreakStays(base, limit, OwnTest())
  {
    LastLargestMoves(base, limit, OwnTest());
  }

  // ----- neither condition is necessary

  /** The sizes from number `i` on. */
  function Forwards(sizes: seq<nat>, i: nat): seq<int>
    requires i <= |sizes|
  {
    seq(|sizes| - i, j requires 0 <= j < |sizes| - i => sizes[i + j])
  }

  lemma {:induction false} ForwardsFits(sizes: seq<nat>, i: nat)
    requires i <= |sizes|
    ensures AllFit(Forwards(sizes, i), sizes, i)
    decreases |sizes| - i
  {
    if i == |sizes| {
    } else {
      var rooms := Forwards(sizes, i);
      assert rooms[0] == sizes[i] && FirstRoom(rooms, sizes[i], 0) == 0;
      assert Taken(rooms, 0, sizes[i]) == Forwards(sizes, i + 1);
      ForwardsFits(sizes, i + 1);
    }
  }

  /** If the sizes read the same backwards, as 3, 10, 3 do, the break stays: every
      request takes the first block of the list. */
  lemma {:induction false} PalindromeStays(base: nat, limit: nat, sizes: seq<nat>)
    requires base > 0 && base + 2 * StartOf(0, sizes, |sizes|) <= limit
    requires forall i :: 0 <= i < |sizes| ==> sizes[i] == sizes[|sizes| - 1 - i]
    ensures BreakStays(base, limit, sizes)
  {
    StaysExactly(base, limit, sizes);
    ForwardsFits(sizes, 0);
    assert Forwards(sizes, 0) == Backwards(sizes, 0);
  }
}
