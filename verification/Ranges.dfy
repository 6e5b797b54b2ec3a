/** Ranges of integers laid end to end: sequence numbers handed out one after the
    other, or blocks of memory. */
module Ranges {
  import opened Sums

  /** The numbers start, start + 1, ..., start + len - 1, which belong to `owner`. */
  datatype Range<T> = Range(owner: T, start: int, len: int)

  predicate Covers<T>(g: Range<T>, x: int) {
    g.start <= x < g.start + g.len
  }

  /** Each range has a positive length and begins where the one before it ended. */
  predicate Consecutive<T>(gs: seq<Range<T>>, lo: int, hi: int) {
    if gs == [] then lo == hi
    else
      var g := gs[|gs| - 1];
      g.len > 0 && g.start + g.len == hi && Consecutive(gs[..|gs| - 1], lo, g.start)
  }

  lemma {:induction false} ConsecutiveAppend<T>(gs: seq<Range<T>>, lo: int, hi: int, g: Range<T>)
    requires Consecutive(gs, lo, hi) && g.len > 0 && g.start == hi
    ensures Consecutive(gs + [g], lo, hi + g.len)
  {
    assert (gs + [g])[..|gs|] == gs;
  }

  lemma {:induction false} Inside<T>(gs: seq<Range<T>>, lo: int, hi: int, i: nat)
    requires Consecutive(gs, lo, hi) && i < |gs|
    ensures lo <= gs[i].start && gs[i].start + gs[i].len <= hi && gs[i].len > 0
  {
    var k := |gs| - 1;
    Bounds(gs[..k], lo, gs[k].start);
    if i == k {
    } else {
      assert gs[..k][i] == gs[i];
      Inside(gs[..k], lo, gs[k].start, i);
    }
  }

  lemma {:induction false} Bounds<T>(gs: seq<Range<T>>, lo: int, hi: int)
    requires Consecutive(gs, lo, hi)
    ensures lo <= hi
  {
    if gs == [] {
    } else {
      Bounds(gs[..|gs| - 1], lo, gs[|gs| - 1].start);
    }
  }

  /** Ranges are in increasing order of their starts. */
  lemma {:induction false} StartsIncrease<T>(gs: seq<Range<T>>, lo: int, hi: int, i: nat, j: nat)
    requires Consecutive(gs, lo, hi) && i < j < |gs|
    ensures gs[i].start + gs[i].len <= gs[j].start && gs[i].len > 0 && gs[j].len > 0
    decreases |gs|
  {
    var k := |gs| - 1;
    assert gs[..k][i] == gs[i];
    if j == k {
      Inside(gs[..k], lo, gs[k].start, i);
    } else {
      assert gs[..k][j] == gs[j];
      StartsIncrease(gs[..k], lo, gs[k].start, i, j);
    }
  }

  /** Different ranges have no number in common. */
  lemma {:induction false} Disjoint<T>(gs: seq<Range<T>>, lo: int, hi: int, i: nat, j: nat, x: int)
    requires Consecutive(gs, lo, hi) && i < j < |gs|
    ensures !(Covers(gs[i], x) && Covers(gs[j], x))
  {
    StartsIncrease(gs, lo, hi, i, j);
  }

  /** A number belongs to some range exactly when it lies between the first
      and the last end; no number is skipped. */
  lemma {:induction false} Covered<T>(gs: seq<Range<T>>, lo: int, hi: int, x: int)
    requires Consecutive(gs, lo, hi)
    ensures lo <= x < hi <==> exists i :: 0 <= i < |gs| && Covers(gs[i], x)
  {
    if gs == [] {
    } else {
      var k := |gs| - 1;
      Covered(gs[..k], lo, gs[k].start, x);
      Bounds(gs[..k], lo, gs[k].start);
      if lo <= x < gs[k].start {
        var i :| 0 <= i < k && Covers(gs[..k][i], x);
        assert Covers(gs[i], x);
      }
      if i :| 0 <= i < |gs| && Covers(gs[i], x) {
        Inside(gs, lo, hi, i);
      }
    }
  }

  function Length<T>(g: Range<T>): nat {
    if g.len > 0 then g.len else 0
  }

  /** Together the ranges are as long as the stretch they cover. */
  lemma {:induction false} LengthsAddUp<T>(gs: seq<Range<T>>, lo: int, hi: int)
    requires Consecutive(gs, lo, hi)
    ensures lo + Sum(Length, gs) == hi
  {
    if gs == [] {
    } else {
      LengthsAddUp(gs[..|gs| - 1], lo, gs[|gs| - 1].start);
    }
  }

  /** Two ranges can take the place of one that they tile, and one the place of one. */
  lemma {:induction false} Replace<T>(gs: seq<Range<T>>, lo: int, hi: int, k: nat, parts: seq<Range<T>>)
    requires Consecutive(gs, lo, hi) && k < |gs|
    requires Consecutive(parts, gs[k].start, gs[k].start + gs[k].len)
    ensures Consecutive(gs[..k] + parts + gs[k + 1..], lo, hi)
  {
    var last := |gs| - 1;
    if k == last {
      assert gs[..k] + parts + gs[k + 1..] == gs[..k] + parts;
      Join(gs[..k], lo, gs[k].start, parts, hi);
    } else {
      var init := gs[..last];
      Replace(init, lo, gs[last].start, k, parts);
      var all := init[..k] + parts + init[k + 1..];
      assert gs[..k] + parts + gs[k + 1..] == all + [gs[last]];
      ConsecutiveAppend(all, lo, gs[last].start, gs[last]);
    }
  }

  lemma {:induction false} Join<T>(gs: seq<Range<T>>, lo: int, mid: int, more: seq<Range<T>>, hi: int)
    requires Consecutive(gs, lo, mid) && Consecutive(more, mid, hi)
    ensures Consecutive(gs + more, lo, hi)
  {
    if more == [] {
      assert gs + more == gs;
    } else {
      var k := |more| - 1;
      Join(gs, lo, mid, more[..k], more[k].start);
      assert gs + more == (gs + more[..k]) + [more[k]];
      ConsecutiveAppend(gs + more[..k], lo, more[k].start, more[k]);
    }
  }
}
