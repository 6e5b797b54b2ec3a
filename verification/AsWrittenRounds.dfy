/** The second test of po_malloc_free.c on the code exactly as written: allocate blocks,
    free them all, allocate the same sizes again. */
module AsWrittenRounds {
  import opened Limits
  import opened Sequences
  import opened FreeList
  import opened AsWritten
  import A = Arena
  import S = SecondRound

  /** One call, if the code as written gets through it. */
  function Do(h: Store, c: A.Call): Option<Store> {
    match c
    case DoMalloc(size) => var r := Malloc(h, size); if r == None then None else Some(r.value.0)
    case DoFree(p) => if p >= HEADER && p - HEADER in h.mem then Some(Free(h, p)) else None
  }

  function Run(h: Store, calls: seq<A.Call>): Option<Store> {
    if calls == [] then Some(h)
    else
      var before := Run(h, calls[..|calls| - 1]);
      if before == None then None else Do(before.value, calls[|calls| - 1])
  }

  /** What every call keeps holds after all of them, and all are got through. */
  lemma {:induction false} RunsThrough(h: Store, calls: seq<A.Call>, inv: (Store, int) -> bool) returns (g: Store)
    requires inv(h, 0)
    requires forall s, i {:trigger inv(s, i)} :: 0 <= i < |calls| && inv(s, i) ==> Do(s, calls[i]).Some?
    requires forall s, t, i, j {:trigger inv(s, i), inv(t, j)} ::
               0 <= i < |calls| && j == i + 1 && inv(s, i) && Do(s, calls[i]) == Some(t) ==> inv(t, j)
    ensures Run(h, calls) == Some(g) && inv(g, |calls|)
  {
    if calls == [] {
      g := h;
    } else {
      var last := |calls| - 1;
      var f := RunsThrough(h, calls[..last], inv);
      assert inv(f, last);
      g := Do(f, calls[last]).value;
    }
  }

  lemma {:induction false} RunConcat(h: Store, a: seq<A.Call>, b: seq<A.Call>, f: Store)
    requires Run(h, a) == Some(f)
    ensures Run(h, a + b) == Run(f, b)
  {
    if b == [] {
      assert a + b == a;
    } else {
      var last := |b| - 1;
      assert (a + b)[..|a + b| - 1] == a + b[..last] && (a + b)[|a + b| - 1] == b[last];
      RunConcat(h, a, b[..last], f);
    }
  }

  lemma {:induction false} OneCall(h: Store, c: A.Call)
    ensures Run(h, [c]) == Do(h, c)
  {
    assert [c][..0] == [];
  }

  lemma {:induction false} MallocsAre(sizes: seq<nat>, n: nat)
    requires n <= |sizes|
    ensures |S.Mallocs(sizes, n)| == n && forall i :: 0 <= i < n ==> S.Mallocs(sizes, n)[i] == A.DoMalloc(sizes[i])
  {
    if n == 0 {
    } else {
      MallocsAre(sizes, n - 1);
    }
  }

  // ----- the first round

  /** Where blocks of these sizes start, and where the last one ends. */
  ghost predicate Layout(starts: seq<nat>, sizes: seq<nat>) {
    && |starts| == |sizes| + 1 && starts[0] > 0
    && (forall j, k {:trigger starts[j], starts[k]} :: 0 <= j < k < |starts| ==> starts[j] + HEADER + sizes[j] <= starts[k])
    && forall j, k {:trigger starts[j], starts[k]} :: 0 <= j && k == j + 1 < |starts| ==> starts[j] + HEADER + sizes[j] == starts[k]
  }

  lemma {:induction false} LaidOut(base: nat, sizes: seq<nat>) returns (starts: seq<nat>)
    requires base > 0
    ensures Layout(starts, sizes) && starts[0] == base
  {
    starts := seq(|sizes| + 1, k requires 0 <= k <= |sizes| => S.StartOf(base, sizes, k));
    forall j, k {:trigger starts[j], starts[k]} | 0 <= j < k < |starts|
      ensures starts[j] + HEADER + sizes[j] <= starts[k]
    {
      S.StartsApart(base, sizes, j + 1, k);
    }
  }

  lemma {:induction false} StartIs(starts: seq<nat>, sizes: seq<nat>, n: nat)
    requires Layout(starts, sizes) && n <= |sizes|
    ensures S.StartOf(starts[0], sizes, n) == starts[n]
  {
    if n == 0 {
    } else {
      StartIs(starts, sizes, n - 1);
      assert starts[n - 1] + HEADER + sizes[n - 1] == starts[n];
    }
  }

  /** The first `n` headers are where they belong and record their sizes. */
  ghost predicate Recorded(mem: Memory, starts: seq<nat>, sizes: seq<nat>, n: nat) {
    && n <= |sizes| && |starts| == |sizes| + 1
    && forall j :: 0 <= j < n ==> starts[j] in mem && mem[starts[j]].length == sizes[j]
  }

  ghost predicate Allocated(h: Store, starts: seq<nat>, sizes: seq<nat>, n: nat) {
    h.head == NULL && Recorded(h.mem, starts, sizes, n) && h.brk == starts[n]
  }

  lemma {:induction false} AllocatesNext(h: Store, starts: seq<nat>, sizes: seq<nat>, n: nat) returns (g: Store)
    requires Layout(starts, sizes) && n < |sizes| && Allocated(h, starts, sizes, n)
    ensures Do(h, A.DoMalloc(sizes[n])) == Some(g) && Allocated(g, starts, sizes, n + 1)
  {
    g := Store(h.mem[h.brk := Header(sizes[n], NULL, NULL)], NULL, h.brk + sizes[n] + HEADER);
    assert Malloc(h, sizes[n]) == Some((g, h.brk + HEADER));
    forall j | 0 <= j < n + 1 ensures starts[j] in g.mem && g.mem[starts[j]].length == sizes[j] {
      assert j < n ==> starts[j] + HEADER + sizes[j] <= starts[n];
    }
    assert g.brk == starts[n + 1];
  }

  lemma {:induction false} AllocatesAll(starts: seq<nat>, sizes: seq<nat>) returns (h: Store)
    requires Layout(starts, sizes)
    ensures Run(Store(map[], NULL, starts[0]), S.Mallocs(sizes, |sizes|)) == Some(h) && Allocated(h, starts, sizes, |sizes|)
  {
    var n := |sizes|;
    var inv := (s: Store, i: int) => 0 <= i <= n && Allocated(s, starts, sizes, i);
    MallocsAre(sizes, n);
    forall s, i | 0 <= i < n && inv(s, i)
      ensures Do(s, A.DoMalloc(sizes[i])).Some? && inv(Do(s, A.DoMalloc(sizes[i])).value, i + 1)
    {
      var g := AllocatesNext(s, starts, sizes, i);
    }
    h := RunsThrough(Store(map[], NULL, starts[0]), S.Mallocs(sizes, n), inv);
  }

  /** The list, followed forwards from `head`, visits exactly these headers. */
  ghost predicate Chain(mem: Memory, head: nat, chain: seq<nat>) {
    && head == At(chain, 0)
    && (forall k :: 0 <= k < |chain| ==> chain[k] != NULL && chain[k] in mem)
    && (forall j, k :: 0 <= j < k < |chain| ==> chain[j] != chain[k])
    && (forall j, k {:trigger chain[j], chain[k]} :: 0 <= j && k == j + 1 < |chain| ==> mem[chain[j]].next == chain[k])
    && (chain != [] ==> mem[chain[|chain| - 1]].next == NULL)
  }

  /** The back links of the first entries, up to position `f`, are right. */
  ghost predicate BackTo(mem: Memory, chain: seq<nat>, f: nat) {
    && (forall k :: 0 <= k < |chain| ==> chain[k] in mem)
    && (chain != [] ==> mem[chain[0]].prev == NULL)
    && forall j, k {:trigger chain[j], chain[k]} :: 0 <= j && k == j + 1 < |chain| && k <= f ==> mem[chain[k]].prev == chain[j]
  }

  lemma {:induction false} EntryLinks(mem: Memory, head: nat, chain: seq<nat>, f: nat)
    requires Chain(mem, head, chain) && f < |chain| && BackTo(mem, chain, f)
    ensures mem[chain[f]].prev == At(chain, f - 1) && mem[chain[f]].next == At(chain, f + 1)
  {
    assert f > 0 ==> mem[chain[f]].prev == chain[f - 1];
    assert f + 1 < |chain| ==> mem[chain[f]].next == chain[f + 1];
  }

  /** Only links differ. */
  ghost predicate SameLengths(was: Memory, now: Memory) {
    was.Keys == now.Keys && forall a :: a in was ==> now[a].length == was[a].length
  }

  /** Freeing puts an entry in front; only its own back link, and its next entry's,
      change. */
  lemma {:induction false} FreePushes(h: Store, item: nat, chain: seq<nat>)
    requires Chain(h.mem, h.head, chain) && item != NULL && item in h.mem && item !in chain
    ensures var g := Free(h, item + HEADER);
            && Chain(g.mem, g.head, [item] + chain) && BackTo(g.mem, [item] + chain, 0)
            && SameLengths(h.mem, g.mem) && g.brk == h.brk
  {
    var g, now := Free(h, item + HEADER), [item] + chain;
    assert forall k :: 0 < k < |now| ==> now[k] == chain[k - 1];
    assert forall a :: a in h.mem ==> g.mem[a].next == if a == item then h.head else h.mem[a].next;
    forall j, k {:trigger now[j], now[k]} | 0 <= j && k == j + 1 < |now| ensures g.mem[now[j]].next == now[k] {
      if j > 0 {
        assert h.mem[chain[j - 1]].next == chain[k - 1];
      }
    }
  }

  /** Blocks n - 1, ..., 0. */
  function Blocks(starts: seq<nat>, n: nat): (bs: seq<nat>)
    requires n <= |starts|
    ensures |bs| == n
  {
    seq(n, k requires 0 <= k < n => starts[n - 1 - k])
  }

  lemma {:induction false} BlocksGrow(starts: seq<nat>, n: nat)
    requires n < |starts|
    ensures Blocks(starts, n + 1) == [starts[n]] + Blocks(starts, n)
  {
  }

  lemma {:induction false} NotYetListed(starts: seq<nat>, sizes: seq<nat>, n: nat)
    requires Layout(starts, sizes) && n < |sizes|
    ensures starts[n] !in Blocks(starts, n)
  {
    forall k | 0 <= k < n ensures Blocks(starts, n)[k] != starts[n] {
      assert starts[n - 1 - k] < starts[n];
    }
  }

  /** All blocks are allocated and the first `n` freed. */
  ghost predicate Freed(h: Store, starts: seq<nat>, sizes: seq<nat>, n: nat) {
    && n <= |sizes| && Recorded(h.mem, starts, sizes, |sizes|) && h.brk == starts[|sizes|]
    && Chain(h.mem, h.head, Blocks(starts, n)) && BackTo(h.mem, Blocks(starts, n), 0)
  }

  lemma {:induction false} FreesNext(h: Store, starts: seq<nat>, sizes: seq<nat>, n: nat) returns (g: Store)
    requires Layout(starts, sizes) && n < |sizes| && Freed(h, starts, sizes, n)
    ensures Do(h, A.DoFree(starts[n] + HEADER)) == Some(g) && Freed(g, starts, sizes, n + 1)
  {
    NotYetListed(starts, sizes, n);
    BlocksGrow(starts, n);
    assert starts[0] > 0 && starts[n] > 0 && starts[n] in h.mem;
    FreePushes(h, starts[n], Blocks(starts, n));
    g := Free(h, starts[n] + HEADER);
  }

  lemma {:induction false} NoneFreed(h: Store, starts: seq<nat>, sizes: seq<nat>)
    requires Allocated(h, starts, sizes, |sizes|)
    ensures FreedAfter(h, starts, sizes, 0)
  {
    assert Freed(h, starts, sizes, 0) && Run(h, Frees(starts, 0)) == Some(h);
  }

  /** The frees of the first round. */
  function Frees(starts: seq<nat>, n: nat): seq<A.Call>
    requires n <= |starts|
  {
    if n == 0 then [] else Frees(starts, n - 1) + [A.DoFree(starts[n - 1] + HEADER)]
  }

  lemma {:induction false} FirstRoundIs(starts: seq<nat>, sizes: seq<nat>, n: nat)
    requires Layout(starts, sizes) && n <= |sizes|
    ensures S.FirstRound(starts[0], sizes, n) == S.Mallocs(sizes, |sizes|) + Frees(starts, n)
  {
    if n == 0 {
    } else {
      FirstRoundIs(starts, sizes, n - 1);
      StartIs(starts, sizes, n - 1);
    }
  }

  ghost predicate FreedThen(h: Store, calls: seq<A.Call>, starts: seq<nat>, sizes: seq<nat>, n: nat) {
    exists g :: Run(h, calls) == Some(g) && Freed(g, starts, sizes, n)
  }

  lemma {:induction false} FreedThenNext(h: Store, calls: seq<A.Call>, starts: seq<nat>, sizes: seq<nat>, n: nat)
    requires Layout(starts, sizes) && n < |sizes| && FreedThen(h, calls, starts, sizes, n)
    ensures FreedThen(h, calls + [A.DoFree(starts[n] + HEADER)], starts, sizes, n + 1)
  {
    var g :| Run(h, calls) == Some(g) && Freed(g, starts, sizes, n);
    var t := FreesNext(g, starts, sizes, n);
    RunConcat(h, calls, [A.DoFree(starts[n] + HEADER)], g);
    OneCall(g, A.DoFree(starts[n] + HEADER));
  }

  /** The state after `n` frees, from `h` on, is as it should be. */
  ghost predicate FreedAfter(h: Store, starts: seq<nat>, sizes: seq<nat>, n: nat) {
    n <= |starts| && FreedThen(h, Frees(starts, n), starts, sizes, n)
  }

  lemma {:induction false} FreedAfterNext(h: Store, starts: seq<nat>, sizes: seq<nat>, n: nat)
    requires Layout(starts, sizes) && n < |sizes| && FreedAfter(h, starts, sizes, n)
    ensures FreedAfter(h, starts, sizes, n + 1)
  {
    FreedThenNext(h, Frees(starts, n), starts, sizes, n);
    assert Frees(starts, n + 1) == Frees(starts, n) + [A.DoFree(starts[n] + HEADER)];
  }

  lemma {:induction false} FreesAll(starts: seq<nat>, sizes: seq<nat>, h: Store, n: nat)
    requires Layout(starts, sizes) && n <= |sizes| && FreedAfter(h, starts, sizes, 0)
    ensures FreedAfter(h, starts, sizes, n)
  {
    if n == 0 {
    } else {
      FreesAll(starts, sizes, h, n - 1);
      FreedAfterNext(h, starts, sizes, n - 1);
    }
  }

  lemma {:induction false} FirstRoundEnds(starts: seq<nat>, sizes: seq<nat>) returns (h: Store)
    requires Layout(starts, sizes)
    ensures Run(Store(map[], NULL, starts[0]), S.FirstRound(starts[0], sizes, |sizes|)) == Some(h)
    ensures Freed(h, starts, sizes, |sizes|)
  {
    var f := AllocatesAll(starts, sizes);
    NoneFreed(f, starts, sizes);
    FreesAll(starts, sizes, f, |sizes|);
    h :| Run(f, Frees(starts, |sizes|)) == Some(h) && Freed(h, starts, sizes, |sizes|);
    FirstRoundIs(starts, sizes, |sizes|);
    RunConcat(Store(map[], NULL, starts[0]), S.Mallocs(sizes, |sizes|), Frees(starts, |sizes|), f);
  }

  // ----- the second round

  /** The scan passes the entries that are too small. */
  lemma {:induction false} ScanPasses(mem: Memory, head: nat, chain: seq<nat>, k: nat, f: nat, size: nat, left: set<nat>)
    requires Chain(mem, head, chain) && k <= f <= |chain|
    requires forall j :: k <= j < f ==> mem[chain[j]].length < size
    requires f < |chain| ==> mem[chain[f]].length >= size
    requires forall j :: k <= j < |chain| ==> chain[j] in left
    ensures Scan(mem, At(chain, k), size, left) == Some(At(chain, f))
    decreases f - k
  {
    if k == f {
    } else {
      assert k + 1 < |chain| ==> mem[chain[k]].next == chain[k + 1];
      ScanPasses(mem, head, chain, k + 1, f, size, left - {chain[k]});
    }
  }

  /** What Remove does to the links of each header. */
  lemma {:induction false} RemoveLinks(h: Store, item: nat)
    requires item in h.mem && h.mem[item].prev != item
    ensures var p, n, g := h.mem[item].prev, h.mem[item].next, Remove(h, item);
            && SameLengths(h.mem, g.mem) && g.brk == h.brk && g.head == (if p == NULL then n else h.head)
            && (forall a :: a in h.mem ==> g.mem[a].next == if a == p && p != NULL then n else h.mem[a].next)
            && (forall a :: a in h.mem ==> g.mem[a].prev == if a == n && n != NULL then p else h.mem[a].prev)
  {
  }

  lemma {:induction false} ReplaceLinks(h: Store, item: nat, rest: nat)
    requires item in h.mem && rest in h.mem && rest != item && rest != NULL
    requires h.mem[item].prev != rest && h.mem[item].next != rest
    ensures var p, n, g := h.mem[item].prev, h.mem[item].next, Replace(h, item, rest);
            && SameLengths(h.mem, g.mem) && g.brk == h.brk && g.head == (if p == NULL then rest else h.head)
            && (forall a :: a in h.mem ==> g.mem[a].next == if a == rest then n else if a == p && p != NULL then rest else h.mem[a].next)
            && (forall a :: a in h.mem ==> g.mem[a].prev == if a == rest then p else if a == n && n != NULL then rest else h.mem[a].prev)
  {
  }

  /** Taking entry `f`, whose back link is right, off the list. */
  lemma {:induction false} RemovesEntry(h: Store, chain: seq<nat>, f: nat)
    requires Chain(h.mem, h.head, chain) && f < |chain| && BackTo(h.mem, chain, f)
    ensures var g, now := Remove(h, chain[f]), Removed(chain, f);
            Chain(g.mem, g.head, now) && BackTo(g.mem, now, f) && g.brk == h.brk && SameLengths(h.mem, g.mem)
  {
    EntryLinks(h.mem, h.head, chain, f);
    assert f > 0 ==> chain[f - 1] != chain[f] && chain[f - 1] != NULL && chain[f - 1] in h.mem;
    assert f + 1 < |chain| ==> chain[f + 1] in h.mem && chain[f + 1] != chain[0];
    RemoveLinks(h, chain[f]);
    var g, now, last := Remove(h, chain[f]), Removed(chain, f), |chain| - 1;
    forall j, k {:trigger now[j], now[k]} | 0 <= j && k == j + 1 < |now|
      ensures g.mem[now[j]].next == now[k]
      ensures k <= f ==> g.mem[now[k]].prev == now[j]
    {
      var x, y := if j < f then j else j + 1, if k < f then k else k + 1;
      assert chain[x] in h.mem && chain[y] in h.mem;
      assert x + 1 < |chain| ==> h.mem[chain[x]].next == chain[x + 1];
      assert y <= f ==> h.mem[chain[y]].prev == chain[y - 1];
    }
    assert now != [] ==> chain[if f == last then last - 1 else last] in h.mem;
  }

  /** Putting a new header in the place of entry `f`. */
  lemma {:induction false} ReplacesEntry(h: Store, chain: seq<nat>, f: nat, rest: nat)
    requires Chain(h.mem, h.head, chain) && f < |chain| && BackTo(h.mem, chain, f)
    requires rest in h.mem && rest != NULL && rest !in chain
    ensures var g, now := Replace(h, chain[f], rest), chain[f := rest];
            Chain(g.mem, g.head, now) && BackTo(g.mem, now, f + 1) && g.brk == h.brk && SameLengths(h.mem, g.mem)
  {
    EntryLinks(h.mem, h.head, chain, f);
    assert f > 0 ==> chain[f - 1] in chain;
    assert f + 1 < |chain| ==> chain[f + 1] in chain;
    assert chain[f] in chain;
    ReplaceLinks(h, chain[f], rest);
    var g, now := Replace(h, chain[f], rest), chain[f := rest];
    forall j, k {:trigger now[j], now[k]} | 0 <= j && k == j + 1 < |now|
      ensures g.mem[now[j]].next == now[k]
      ensures k <= f + 1 ==> g.mem[now[k]].prev == now[j]
    {
      ReplacedLink(h, g, chain, f, rest, j);
    }
    ReplacedEnds(h, g, chain, f, rest);
  }

  lemma {:induction false} ReplacedEnds(h: Store, g: Store, chain: seq<nat>, f: nat, rest: nat)
    requires Chain(h.mem, h.head, chain) && f < |chain| && BackTo(h.mem, chain, f)
    requires rest in h.mem && rest !in chain
    requires var p, n := At(chain, f - 1), At(chain, f + 1);
             && SameLengths(h.mem, g.mem) && g.head == (if p == NULL then rest else h.head)
             && (forall a :: a in h.mem ==> g.mem[a].next == if a == rest then n else if a == p && p != NULL then rest else h.mem[a].next)
             && (forall a :: a in h.mem ==> g.mem[a].prev == if a == rest then p else if a == n && n != NULL then rest else h.mem[a].prev)
    ensures var now := chain[f := rest];
            g.head == At(now, 0) && g.mem[now[0]].prev == NULL && g.mem[now[|now| - 1]].next == NULL
  {
    var last := |chain| - 1;
    assert chain[0] in chain && chain[last] in chain && chain[0] in h.mem && chain[last] in h.mem;
    assert f > 0 ==> chain[f - 1] != NULL && chain[f - 1] != chain[last];
    assert f + 1 < |chain| ==> chain[f + 1] != chain[0];
  }

  lemma {:induction false} ReplacedLink(h: Store, g: Store, chain: seq<nat>, f: nat, rest: nat, j: nat)
    requires Chain(h.mem, h.head, chain) && f < |chain| && BackTo(h.mem, chain, f) && j + 1 < |chain|
    requires rest in h.mem && rest !in chain
    requires var p, n := At(chain, f - 1), At(chain, f + 1);
             && SameLengths(h.mem, g.mem)
             && (forall a :: a in h.mem ==> g.mem[a].next == if a == rest then n else if a == p && p != NULL then rest else h.mem[a].next)
             && (forall a :: a in h.mem ==> g.mem[a].prev == if a == rest then p else if a == n && n != NULL then rest else h.mem[a].prev)
    ensures var now := chain[f := rest];
            g.mem[now[j]].next == now[j + 1] && (j + 1 <= f + 1 ==> g.mem[now[j + 1]].prev == now[j])
  {
    assert chain[j] in chain && chain[j + 1] in chain && chain[j] in h.mem && chain[j + 1] in h.mem;
    assert h.mem[chain[j]].next == chain[j + 1];
    assert j + 1 <= f ==> h.mem[chain[j + 1]].prev == chain[j];
    assert f > 0 ==> chain[f - 1] != NULL;
    assert f + 1 < |chain| ==> chain[f + 1] != NULL;
  }

  /** The list after some requests of the second round: left-overs, none of them as long
      as the second size and all of them above block `n` - 1, and then the blocks not yet
      used. */
  ghost predicate Mid(h: Store, starts: seq<nat>, sizes: seq<nat>, n: nat, small: seq<nat>) {
    && |sizes| >= 2 && Recorded(h.mem, starts, sizes, n) && h.brk == starts[|sizes|]
    && Chain(h.mem, h.head, small + Blocks(starts, n)) && BackTo(h.mem, small + Blocks(starts, n), |small|)
    && Small(h.mem, sizes[1], starts[n], small)
  }

  ghost predicate Small(mem: Memory, length: nat, above: nat, small: seq<nat>) {
    forall k :: 0 <= k < |small| ==> small[k] in mem && mem[small[k]].length < length && small[k] > above
  }

  /** Strictly ascending, and so close together that no left-over can be used again. */
  ghost predicate Close(sizes: seq<nat>) {
    && |sizes| >= 2 && sizes[|sizes| - 1] < sizes[0] + sizes[1]
    && forall j, k :: 0 <= j < k < |sizes| ==> sizes[j] < sizes[k]
  }

  /** With `n` blocks left, the next request is for this size. */
  function Wanted(sizes: seq<nat>, n: nat): nat
    requires 0 < n <= |sizes|
  {
    sizes[|sizes| - n]
  }

  /** The request finds the next block, or nothing. */
  lemma {:induction false} FindsBlock(h: Store, starts: seq<nat>, sizes: seq<nat>, n: nat, small: seq<nat>)
    requires Close(sizes) && 0 < n <= |sizes| && Mid(h, starts, sizes, n, small) && (n == |sizes| ==> small == [])
    ensures Scan(h.mem, h.head, Wanted(sizes, n), h.mem.Keys) ==
            Some(if sizes[n - 1] >= Wanted(sizes, n) then starts[n - 1] else NULL)
  {
    var size := Wanted(sizes, n);
    var blocks := Blocks(starts, n);
    var chain := small + blocks;
    var f := if sizes[n - 1] >= size then |small| else |chain|;
    forall k | 0 <= k < f ensures h.mem[chain[k]].length < size {
      if k < |small| {
        assert chain[k] == small[k] && sizes[1] <= size;
      } else {
        var j := n - 1 - (k - |small|);
        assert chain[k] == blocks[k - |small|] == starts[j];
        assert h.mem[starts[j]].length == sizes[j] <= sizes[n - 1];
      }
    }
    assert chain[|small|] == blocks[0] == starts[n - 1];
    ScanPasses(h.mem, h.head, chain, 0, f, size, h.mem.Keys);
  }

  lemma {:induction false} BlocksNext(starts: seq<nat>, n: nat, small: seq<nat>, rest: nat)
    requires 0 < n <= |starts|
    ensures (small + Blocks(starts, n))[|small|] == starts[n - 1]
    ensures Removed(small + Blocks(starts, n), |small|) == small + Blocks(starts, n - 1)
    ensures (small + Blocks(starts, n))[|small| := rest] == small + [rest] + Blocks(starts, n - 1)
  {
    BlocksGrow(starts, n - 1);
  }

  /** The block is used whole. */
  lemma {:induction false} UsesWhole(h: Store, starts: seq<nat>, sizes: seq<nat>, n: nat, small: seq<nat>)
    requires Layout(starts, sizes) && 0 < n <= |sizes| && Mid(h, starts, sizes, n, small)
    ensures starts[n - 1] in h.mem && Mid(Remove(h, starts[n - 1]), starts, sizes, n - 1, small)
  {
    BlocksNext(starts, n, small, 0);
    RemovesEntry(h, small + Blocks(starts, n), |small|);
    assert starts[n - 1] < starts[n];
  }

  /** The new header of a cut lies inside its block, apart from all others. */
  lemma {:induction false} RestIsNew(h: Store, starts: seq<nat>, sizes: seq<nat>, n: nat, small: seq<nat>, rest: nat)
    requires Layout(starts, sizes) && 0 < n <= |sizes| && Mid(h, starts, sizes, n, small)
    requires starts[n - 1] < rest < starts[n]
    ensures rest !in small + Blocks(starts, n)
    ensures forall j :: 0 <= j < n ==> starts[j] != rest
  {
    forall j | 0 <= j < n ensures starts[j] != rest {
      assert j < n - 1 ==> starts[j] < starts[n - 1];
    }
    forall k | 0 <= k < n ensures Blocks(starts, n)[k] != rest {
      assert starts[n - 1 - k] != rest;
    }
  }

  /** A header that is not on the list put into memory. */
  lemma {:induction false} WithHeader(mem: Memory, head: nat, chain: seq<nat>, f: nat, rest: nat, header: Header)
    requires Chain(mem, head, chain) && BackTo(mem, chain, f) && rest !in chain
    ensures Chain(mem[rest := header], head, chain) && BackTo(mem[rest := header], chain, f)
  {
    assert forall k :: 0 <= k < |chain| ==> chain[k] in chain && chain[k] != rest;
  }

  /** The header of a cut put into memory, before it is linked. */
  lemma {:induction false} WithRest(h: Store, starts: seq<nat>, sizes: seq<nat>, n: nat, small: seq<nat>, rest: nat, header: Header)
    requires Layout(starts, sizes) && 0 < n <= |sizes| && Mid(h, starts, sizes, n, small)
    requires starts[n - 1] < rest < starts[n]
    ensures Mid(h.(mem := h.mem[rest := header]), starts, sizes, n, small)
  {
    RestIsNew(h, starts, sizes, n, small, rest);
    WithHeader(h.mem, h.head, small + Blocks(starts, n), |small|, rest, header);
    assert forall k :: 0 <= k < |small| ==> small[k] == (small + Blocks(starts, n))[k] != rest;
  }

  /** The block is cut in two. */
  lemma {:induction false} CutsBlock(h: Store, starts: seq<nat>, sizes: seq<nat>, n: nat, small: seq<nat>, rest: nat)
    requires Layout(starts, sizes) && 0 < n <= |sizes| && Mid(h, starts, sizes, n, small)
    requires starts[n - 1] < rest < starts[n] && rest in h.mem && h.mem[rest].length < sizes[1]
    ensures starts[n - 1] in h.mem && Mid(Replace(h, starts[n - 1], rest), starts, sizes, n - 1, small + [rest])
  {
    BlocksNext(starts, n, small, rest);
    RestIsNew(h, starts, sizes, n, small, rest);
    ReplacesEntry(h, small + Blocks(starts, n), |small|, rest);
    assert starts[n - 1] < starts[n];
    assert forall k :: 0 <= k < |small| ==> (small + [rest])[k] == small[k];
  }

  /** What a request does, by what its scan finds. */
  lemma {:induction false} RequestExtends(h: Store, size: nat)
    requires Scan(h.mem, h.head, size, h.mem.Keys) == Some(NULL)
    ensures exists g :: Do(h, A.DoMalloc(size)) == Some(g) && g.brk > h.brk
  {
    assert Do(h, A.DoMalloc(size)).Some?;
  }

  lemma {:induction false} RequestTakes(h: Store, size: nat, current: nat)
    requires Scan(h.mem, h.head, size, h.mem.Keys) == Some(current) && current != NULL && current in h.mem
    requires h.mem[current].length <= size + HEADER
    ensures Do(h, A.DoMalloc(size)) == Some(Remove(h, current))
  {
  }

  /** The store of a cut before the new header is linked. */
  function Cut(h: Store, current: nat, size: nat): Store
    requires current in h.mem && h.mem[current].length > size
  {
    h.(mem := h.mem[current + HEADER + size := Header(h.mem[current].length - size, NULL, NULL)])
  }

  lemma {:induction false} RequestCuts(h: Store, size: nat, current: nat)
    requires Scan(h.mem, h.head, size, h.mem.Keys) == Some(current) && current != NULL && current in h.mem
    requires h.mem[current].length > size + HEADER
    ensures current in Cut(h, current, size).mem
    ensures Do(h, A.DoMalloc(size)) == Some(Replace(Cut(h, current, size), current, current + HEADER + size))
  {
  }

  /** Block `n` - 1 cut in two, `size` bytes from its start. */
  lemma {:induction false} CutIsMid(h: Store, cut: Store, starts: seq<nat>, sizes: seq<nat>, n: nat, small: seq<nat>, size: nat)
    requires Layout(starts, sizes) && 0 < n <= |sizes| && Mid(h, starts, sizes, n, small)
    requires size + HEADER < sizes[n - 1] < size + sizes[1]
    requires starts[n - 1] in h.mem && h.mem[starts[n - 1]].length == sizes[n - 1] && cut == Cut(h, starts[n - 1], size)
    ensures starts[n - 1] in cut.mem
    ensures Mid(Replace(cut, starts[n - 1], starts[n - 1] + HEADER + size), starts, sizes, n - 1, small + [starts[n - 1] + HEADER + size])
  {
    var rest := starts[n - 1] + HEADER + size;
    assert starts[n - 1] + HEADER + sizes[n - 1] <= starts[n];
    WithRest(h, starts, sizes, n, small, rest, Header(sizes[n - 1] - size, NULL, NULL));
    CutsBlock(cut, starts, sizes, n, small, rest);
  }

  lemma {:induction false} MidBlock(h: Store, starts: seq<nat>, sizes: seq<nat>, n: nat, small: seq<nat>)
    requires Layout(starts, sizes) && 0 < n <= |sizes| && Mid(h, starts, sizes, n, small)
    ensures starts[n - 1] != NULL && starts[n - 1] in h.mem && h.mem[starts[n - 1]].length == sizes[n - 1]
  {
    assert starts[0] > 0;
    assert n > 1 ==> starts[0] < starts[n - 1];
  }

  /** The list is in shape when `n` blocks are left. */
  ghost predicate InShape(h: Store, starts: seq<nat>, sizes: seq<nat>, n: int) {
    && 0 <= n <= |sizes| && |starts| == |sizes| + 1
    && exists small :: Mid(h, starts, sizes, n, small) && (n == |sizes| ==> small == [])
  }

  lemma {:induction false} LeftOverIsSmall(sizes: seq<nat>, n: nat)
    requires Close(sizes) && 0 < n <= |sizes|
    ensures sizes[n - 1] < Wanted(sizes, n) + sizes[1]
  {
    assert n < |sizes| ==> sizes[0] < sizes[|sizes| - n] && sizes[n - 1] < sizes[|sizes| - 1];
  }

  lemma {:induction false} ServedByCut(h: Store, starts: seq<nat>, sizes: seq<nat>, n: nat, small: seq<nat>) returns (g: Store)
    requires Layout(starts, sizes) && Close(sizes) && 0 < n <= |sizes|
    requires Mid(h, starts, sizes, n, small) && (n == |sizes| ==> small == [])
    requires sizes[n - 1] > Wanted(sizes, n) + HEADER
    ensures Do(h, A.DoMalloc(Wanted(sizes, n))) == Some(g) && InShape(g, starts, sizes, n - 1)
  {
    var size, current := Wanted(sizes, n), starts[n - 1];
    FindsBlock(h, starts, sizes, n, small);
    MidBlock(h, starts, sizes, n, small);
    LeftOverIsSmall(sizes, n);
    RequestCuts(h, size, current);
    CutIsMid(h, Cut(h, current, size), starts, sizes, n, small, size);
    g := Replace(Cut(h, current, size), current, current + HEADER + size);
  }

  lemma {:induction false} ServedWhole(h: Store, starts: seq<nat>, sizes: seq<nat>, n: nat, small: seq<nat>) returns (g: Store)
    requires Layout(starts, sizes) && Close(sizes) && 0 < n <= |sizes|
    requires Mid(h, starts, sizes, n, small) && (n == |sizes| ==> small == [])
    requires Wanted(sizes, n) <= sizes[n - 1] <= Wanted(sizes, n) + HEADER
    ensures Do(h, A.DoMalloc(Wanted(sizes, n))) == Some(g) && InShape(g, starts, sizes, n - 1)
  {
    FindsBlock(h, starts, sizes, n, small);
    MidBlock(h, starts, sizes, n, small);
    UsesWhole(h, starts, sizes, n, small);
    RequestTakes(h, Wanted(sizes, n), starts[n - 1]);
    g := Remove(h, starts[n - 1]);
  }

  /** A request of the second round that a block is left for uses the next block. */
  lemma {:induction false} RequestServed(h: Store, starts: seq<nat>, sizes: seq<nat>, n: nat) returns (g: Store)
    requires Layout(starts, sizes) && Close(sizes) && 0 < n <= |sizes| && InShape(h, starts, sizes, n)
    requires sizes[n - 1] >= Wanted(sizes, n)
    ensures Do(h, A.DoMalloc(Wanted(sizes, n))) == Some(g) && InShape(g, starts, sizes, n - 1)
  {
    var small :| Mid(h, starts, sizes, n, small) && (n == |sizes| ==> small == []);
    if sizes[n - 1] > Wanted(sizes, n) + HEADER {
      g := ServedByCut(h, starts, sizes, n, small);
    } else {
      g := ServedWhole(h, starts, sizes, n, small);
    }
  }

  /** Any other moves the break. */
  lemma {:induction false} RequestNotServed(h: Store, starts: seq<nat>, sizes: seq<nat>, n: nat) returns (g: Store)
    requires Close(sizes) && 0 < n <= |sizes| && InShape(h, starts, sizes, n)
    requires sizes[n - 1] < Wanted(sizes, n)
    ensures Do(h, A.DoMalloc(Wanted(sizes, n))) == Some(g) && g.brk > h.brk && h.brk == starts[|sizes|]
  {
    var small :| Mid(h, starts, sizes, n, small) && (n == |sizes| ==> small == []);
    FindsBlock(h, starts, sizes, n, small);
    RequestExtends(h, Wanted(sizes, n));
    g := Do(h, A.DoMalloc(Wanted(sizes, n))).value;
  }

  /** These calls lead to a list in shape with `n` blocks left. */
  ghost predicate LeadsTo(h: Store, calls: seq<A.Call>, starts: seq<nat>, sizes: seq<nat>, n: int) {
    exists g :: Run(h, calls) == Some(g) && InShape(g, starts, sizes, n)
  }

  lemma {:induction false} LeadsOn(h: Store, calls: seq<A.Call>, starts: seq<nat>, sizes: seq<nat>, n: nat)
    requires Layout(starts, sizes) && Close(sizes) && 0 < n <= |sizes| && LeadsTo(h, calls, starts, sizes, n)
    requires sizes[n - 1] >= Wanted(sizes, n)
    ensures LeadsTo(h, calls + [A.DoMalloc(Wanted(sizes, n))], starts, sizes, n - 1)
  {
    var g :| Run(h, calls) == Some(g) && InShape(g, starts, sizes, n);
    var t := RequestServed(g, starts, sizes, n);
    RunConcat(h, calls, [A.DoMalloc(Wanted(sizes, n))], g);
    OneCall(g, A.DoMalloc(Wanted(sizes, n)));
  }

  /** As long as each request is met by the block it finds, the list stays in shape. */
  lemma {:induction false} Requests(h: Store, starts: seq<nat>, sizes: seq<nat>, i: nat)
    requires Layout(starts, sizes) && Close(sizes) && InShape(h, starts, sizes, |sizes|) && i <= |sizes|
    requires forall k :: 0 <= k < i ==> sizes[|sizes| - k - 1] >= sizes[k]
    ensures LeadsTo(h, S.Mallocs(sizes, i), starts, sizes, |sizes| - i)
  {
    if i == 0 {
      assert Run(h, S.Mallocs(sizes, 0)) == Some(h);
    } else {
      Requests(h, starts, sizes, i - 1);
      var n := |sizes| - (i - 1);
      assert Wanted(sizes, n) == sizes[i - 1] <= sizes[n - 1];
      LeadsOn(h, S.Mallocs(sizes, i - 1), starts, sizes, n);
    }
  }

  lemma {:induction false} HalfWay(sizes: seq<nat>) returns (k: nat)
    requires Close(sizes)
    ensures k < |sizes| && sizes[|sizes| - k - 1] < sizes[k]
    ensures forall j :: 0 <= j < k ==> sizes[|sizes| - j - 1] >= sizes[j]
  {
    k := (|sizes| + 1) / 2;
    assert |sizes| - k - 1 < k;
    forall j | 0 <= j < k ensures sizes[|sizes| - j - 1] >= sizes[j] {
      assert j < |sizes| - j - 1 || j == |sizes| - j - 1;
    }
  }

  lemma {:induction false} FreedIsInShape(h: Store, starts: seq<nat>, sizes: seq<nat>)
    requires |sizes| >= 2 && Freed(h, starts, sizes, |sizes|)
    ensures InShape(h, starts, sizes, |sizes|)
  {
    WithNothingInFront(h.mem, h.head, Blocks(starts, |sizes|));
    assert Mid(h, starts, sizes, |sizes|, []);
  }

  lemma {:induction false} WithNothingInFront(mem: Memory, head: nat, chain: seq<nat>)
    requires Chain(mem, head, chain) && BackTo(mem, chain, 0)
    ensures Chain(mem, head, [] + chain) && BackTo(mem, [] + chain, 0)
  {
    assert [] + chain == chain;
  }

  /** When the blocks left have become too small, the next request moves the break. */
  lemma {:induction false} MovesNow(h: Store, calls: seq<A.Call>, starts: seq<nat>, sizes: seq<nat>, n: nat) returns (later: Store)
    requires Close(sizes) && 0 < n <= |sizes| && |starts| == |sizes| + 1 && LeadsTo(h, calls, starts, sizes, n)
    requires sizes[n - 1] < Wanted(sizes, n)
    ensures Run(h, calls + [A.DoMalloc(Wanted(sizes, n))]) == Some(later) && later.brk > starts[|sizes|]
  {
    var g :| Run(h, calls) == Some(g) && InShape(g, starts, sizes, n);
    later := RequestNotServed(g, starts, sizes, n);
    RunConcat(h, calls, [A.DoMalloc(Wanted(sizes, n))], g);
    OneCall(g, A.DoMalloc(Wanted(sizes, n)));
  }

  /** For ascending sizes close together the code as written moves the break in the
      second round: the second half of the requests finds only blocks that are too small. */
  lemma {:induction false} CloseSizesMove(base: nat, sizes: seq<nat>) returns (freed: Store, i: nat, later: Store)
    requires base > 0 && Close(sizes)
    ensures Run(Store(map[], NULL, base), S.FirstRound(base, sizes, |sizes|)) == Some(freed)
    ensures i <= |sizes| && Run(freed, S.Mallocs(sizes, i)) == Some(later) && later.brk > freed.brk
  {
    var starts := LaidOut(base, sizes);
    freed := FirstRoundEnds(starts, sizes);
    i, later := SecondRoundMoves(freed, starts, sizes);
  }

  lemma {:induction false} SecondRoundMoves(freed: Store, starts: seq<nat>, sizes: seq<nat>) returns (i: nat, later: Store)
    requires Layout(starts, sizes) && Close(sizes) && Freed(freed, starts, sizes, |sizes|)
    ensures i <= |sizes| && Run(freed, S.Mallocs(sizes, i)) == Some(later) && later.brk > freed.brk
  {
    FreedIsInShape(freed, starts, sizes);
    var k := HalfWay(sizes);
    Requests(freed, starts, sizes, k);
    later := MovesNow(freed, S.Mallocs(sizes, k), starts, sizes, |sizes| - k);
    i := k + 1;
  }

  /** The program's own test, on the code it runs: the break moves although the comment
      says that it should not. */
  lemma {:induction false} OwnTestMovesAsWritten(base: nat) returns (freed: Store, i: nat, later: Store)
    requires base > 0
    ensures Run(Store(map[], NULL, base), S.FirstRound(base, S.OwnTest(), 100)) == Some(freed)
    ensures i <= 100 && Run(freed, S.Mallocs(S.OwnTest(), i)) == Some(later) && later.brk > freed.brk
  {
    freed, i, later := CloseSizesMove(base, S.OwnTest());
  }

  /** The plan and the code differ: for 0 bytes and then more than a header's length the
      break moves under the planned steps, but not in the code as written, which records
      what is left of the second block without subtracting its header. */
  lemma {:induction false} ZeroThenLong(base: nat, limit: nat, b: nat) returns (freed: Store, later: Store)
    requires base > 0 && b > HEADER && base + 2 * S.StartOf(0, [0, b], 2) <= limit
    ensures !S.BreakStays(base, limit, [0, b])
    ensures Run(Store(map[], NULL, base), S.FirstRound(base, [0, b], 2)) == Some(freed)
    ensures Run(freed, S.Mallocs([0, b], 2)) == Some(later) && later.brk == freed.brk
  {
    S.TwoSizesAgain(base, limit, 0, b);
    var sizes := [0, b];
    var starts := LaidOut(base, sizes);
    freed := FirstRoundEnds(starts, sizes);
    var g := CutForZero(freed, starts, b);
    RequestTakes(g, b, g.head);
    later := Remove(g, g.head);
    MallocsAre(sizes, 2);
    assert S.Mallocs(sizes, 2) == [A.DoMalloc(0)] + [A.DoMalloc(b)];
    OneCall(freed, A.DoMalloc(0));
    RunConcat(freed, [A.DoMalloc(0)], [A.DoMalloc(b)], g);
    OneCall(g, A.DoMalloc(b));
  }

  lemma {:induction false} CutForZero(h: Store, starts: seq<nat>, b: nat) returns (g: Store)
    requires Layout(starts, [0, b]) && b > HEADER && Freed(h, starts, [0, b], 2)
    ensures Do(h, A.DoMalloc(0)) == Some(g) && g.brk == h.brk
    ensures g.head != NULL && g.head in g.mem && g.mem[g.head].length == b
    ensures Scan(g.mem, g.head, b, g.mem.Keys) == Some(g.head)
  {
    var first, second := starts[0], starts[1];
    var rest := second + HEADER;
    var blocks := Blocks(starts, 2);
    assert blocks[0] == second && blocks[1] == first && first < second;
    assert h.mem[blocks[0]].next == blocks[1];
    assert h.mem[second].length == [0, b][1] == b;
    assert Scan(h.mem, h.head, 0, h.mem.Keys) == Some(second);
    RequestCuts(h, 0, second);
    var cut := Cut(h, second, 0);
    ReplaceLinks(cut, second, rest);
    g := Replace(cut, second, rest);
  }
}
