/** Sums over the processes or threads of a system. */
module Sums {

  function Bit(b: bool): nat { if b then 1 else 0 }

  function Sum<T>(f: T -> nat, s: seq<T>): nat {
    if s == [] then 0 else Sum(f, s[..|s| - 1]) + f(s[|s| - 1])
  }

  lemma {:induction false} SumAppend<T>(f: T -> nat, s: seq<T>, x: T)
    ensures Sum(f, s + [x]) == Sum(f, s) + f(x)
  {
    assert (s + [x])[..|s|] == s;
  }

  /** Replacing one element changes the sum by the difference. */
  lemma {:induction false} SumUpdate<T>(f: T -> nat, s: seq<T>, i: nat, x: T)
    requires i < |s|
    ensures Sum(f, s[i := x]) == Sum(f, s) - f(s[i]) + f(x)
  {
    var k := |s| - 1;
    if i == k {
      assert s[i := x][..k] == s[..k];
    } else {
      assert s[i := x][..k] == s[..k][i := x];
      SumUpdate(f, s[..k], i, x);
    }
  }

  /** One element is at most the whole sum, and a zero sum has only zero terms. */
  lemma {:induction false} SumAtLeast<T>(f: T -> nat, s: seq<T>, i: nat)
    requires i < |s|
    ensures f(s[i]) <= Sum(f, s)
  {
    var k := |s| - 1;
    if i == k {
    } else {
      assert s[i] == s[..k][i];
      SumAtLeast(f, s[..k], i);
    }
  }

  lemma {:induction false} SumMonotone<T>(f: T -> nat, g: T -> nat, s: seq<T>)
    requires forall i :: 0 <= i < |s| ==> f(s[i]) <= g(s[i])
    ensures Sum(f, s) <= Sum(g, s)
  {
    if s == [] {
    } else {
      SumMonotone(f, g, s[..|s| - 1]);
    }
  }

  lemma {:induction false} SumsMatch<T>(f: T -> nat, g: T -> nat, ps: seq<T>, qs: seq<T>)
    requires |ps| == |qs| && forall i :: 0 <= i < |ps| ==> f(ps[i]) == g(qs[i])
    ensures Sum(f, ps) == Sum(g, qs)
  {
    if ps == [] {
    } else {
      SumsMatch(f, g, ps[..|ps| - 1], qs[..|qs| - 1]);
    }
  }

  /** With no term above `m`, the sum is largest exactly if every term is `m`. */
  lemma {:induction false} SumBounded<T>(f: T -> nat, s: seq<T>, m: nat)
    requires forall i :: 0 <= i < |s| ==> f(s[i]) <= m
    ensures Sum(f, s) <= |s| * m
    ensures Sum(f, s) == |s| * m <==> forall i :: 0 <= i < |s| ==> f(s[i]) == m
  {
    if s == [] {
    } else {
      var k := |s| - 1;
      var init := s[..k];
      assert forall i :: 0 <= i < k ==> init[i] == s[i];
      SumBounded(f, init, m);
      assert |s| * m == k * m + m;
    }
  }
}
