/** benchmarkwrites.c: a shuffle whose random index is computed by integer
    division, and a benchmark that creates files in shuffled order and deletes
    them in numerical order. */
module BenchmarkWrites {
  import opened Decimal

  // ----- the shuffle

  /** a / b < m exactly when a < m * b. */
  lemma {:induction false} QuotientBelow(a: nat, b: nat, m: nat)
    requires b > 0
    ensures a / b < m <==> a < m * b
  {
    var q := a / b;
    assert a == q * b + a % b;
    if q < m {
      assert (q + 1) * b <= m * b;
    } else {
      assert m * b <= q * b;
    }
  }

  /** i + rand() / (RAND_MAX / (n - i) + 1): every possible value of rand() gives
      an index from i to n - 1. */
  function Pick(randMax: nat, n: nat, i: nat, r: nat): (j: nat)
    requires i < n && r <= randMax
    ensures i <= j < n
  {
    PickBelow(randMax, n - i, r);
    i + r / (randMax / (n - i) + 1)
  }

  lemma {:induction false} PickBelow(randMax: nat, m: nat, r: nat)
    requires m > 0 && r <= randMax
    ensures r / (randMax / m + 1) < m
  {
    var q := randMax / m;
    assert randMax == q * m + randMax % m;
    assert randMax < m * (q + 1);
    QuotientBelow(r, q + 1, m);
  }

  /** An index j is drawn by some value of rand() exactly when the smallest
      candidate does not exceed RAND_MAX. */
  lemma {:induction false} PickReaches(randMax: nat, n: nat, i: nat, j: nat)
    requires i <= j < n
    ensures (exists r: nat :: r <= randMax && Pick(randMax, n, i, r) == j)
            <==> (j - i) * (randMax / (n - i) + 1) <= randMax
  {
    var b := randMax / (n - i) + 1;
    var least := (j - i) * b;
    assert least / b == j - i by {
      QuotientBelow(least, b, j - i);
      QuotientBelow(least, b, j - i + 1);
      assert least < (j - i + 1) * b;
    }
    if least <= randMax {
      assert Pick(randMax, n, i, least) == j;
    }
    forall r: nat | r <= randMax && Pick(randMax, n, i, r) == j ensures least <= randMax {
      QuotientBelow(r, b, j - i);
    }
  }

  function Swap(s: seq<int>, i: nat, j: nat): (t: seq<int>)
    requires i < |s| && j < |s|
    ensures |t| == |s| && t[i] == s[j] && t[j] == s[i]
    ensures forall k :: 0 <= k < |s| && k != i && k != j ==> t[k] == s[k]
  {
    s[i := s[j]][j := s[i]]
  }

  /** Swap indices that the loop may draw. */
  predicate Drawn(js: seq<nat>, n: nat) {
    |js| == n && forall i :: 0 <= i < n ==> i <= js[i] < n
  }

  /** The loop from index `i` on, with the index drawn in each pass given by `js`. */
  function ShuffleFrom(s: seq<int>, i: nat, js: seq<nat>): seq<int>
    requires Drawn(js, |s|)
    decreases |s| - i
  {
    if i + 1 >= |s| then s else ShuffleFrom(Swap(s, i, js[i]), i + 1, js)
  }

  lemma {:induction false} SwapPermutes(s: seq<int>, i: nat, j: nat)
    requires i < |s| && j < |s|
    ensures multiset(Swap(s, i, j)) == multiset(s)
  {
  }

  lemma {:induction false} ShufflePermutes(s: seq<int>, i: nat, js: seq<nat>)
    requires Drawn(js, |s|)
    ensures multiset(ShuffleFrom(s, i, js)) == multiset(s)
    ensures |ShuffleFrom(s, i, js)| == |s|
    decreases |s| - i
  {
    if i + 1 >= |s| {
    } else {
      ShufflePermutes(Swap(s, i, js[i]), i + 1, js);
      SwapPermutes(s, i, js[i]);
    }
  }

  predicate Random(rands: seq<nat>, randMax: nat) {
    forall i :: 0 <= i < |rands| ==> rands[i] <= randMax
  }

  /** The indices drawn when successive calls of rand() return `rands`. */
  function Picks(randMax: nat, rands: seq<nat>): (js: seq<nat>)
    requires Random(rands, randMax)
    ensures Drawn(js, |rands|)
  {
    seq(|rands|, i requires 0 <= i < |rands| => Pick(randMax, |rands|, i, rands[i]))
  }

  method SwapElements(a: array<int>, i: nat, j: nat)
    requires i < a.Length && j < a.Length
    modifies a
    ensures a[..] == Swap(old(a[..]), i, j)
  {
    var t := a[j];
    a[j] := a[i];
    a[i] := t;
  }

  /** The shuffle, in place: within bounds, and it rearranges the elements. */
  method Shuffle(a: array<int>, randMax: nat, rands: seq<nat>)
    requires |rands| == a.Length && Random(rands, randMax)
    modifies a
    ensures a[..] == ShuffleFrom(old(a[..]), 0, Picks(randMax, rands))
    ensures multiset(a[..]) == multiset(old(a[..]))
  {
    var n := a.Length;
    ghost var js := Picks(randMax, rands);
    ghost var goal := ShuffleFrom(a[..], 0, js);
    if n > 1 {
      for i := 0 to n - 1
        invariant ShuffleFrom(a[..], i, js) == goal
      {
        var j := Pick(randMax, n, i, rands[i]);
        SwapElements(a, i, j);
      }
    }
    ShufflePermutes(old(a[..]), 0, js);
  }

  // ----- every arrangement can come out

  lemma {:induction false} TailMultiset(s: seq<int>)
    requires s != []
    ensures multiset(s[1..]) == multiset(s) - multiset{s[0]}
  {
    assert s == [s[0]] + s[1..];
  }

  lemma {:induction false} HeadStep(s: seq<int>, t: seq<int>) returns (k: nat)
    requires s != [] && t != [] && multiset(s) == multiset(t)
    ensures k < |s| && s[k] == t[0]
    ensures multiset(Swap(s, 0, k)[1..]) == multiset(t[1..])
  {
    assert t[0] in multiset(s);
    k :| 0 <= k < |s| && s[k] == t[0];
    SwapPermutes(s, 0, k);
    TailMultiset(Swap(s, 0, k));
    TailMultiset(t);
  }

  lemma {:induction false} SuffixStep(s: seq<int>, t: seq<int>, i: nat) returns (j: nat)
    requires |s| == |t| && i < |s| && multiset(s[i..]) == multiset(t[i..])
    ensures i <= j < |s|
    ensures Swap(s, i, j)[..i] == s[..i] && Swap(s, i, j)[i] == t[i]
    ensures multiset(Swap(s, i, j)[i + 1..]) == multiset(t[i + 1..])
  {
    var k := HeadStep(s[i..], t[i..]);
    j := i + k;
    assert Swap(s, i, j)[i + 1..] == Swap(s[i..], 0, k)[1..];
    assert t[i + 1..] == t[i..][1..];
  }

  /** Any rearrangement of the array is the result of some choice of indices. */
  lemma {:induction false} EveryArrangement(s: seq<int>, t: seq<int>, i: nat, js: seq<nat>) returns (ks: seq<nat>)
    requires |s| == |t| && i <= |s| && s[..i] == t[..i] && multiset(s[i..]) == multiset(t[i..])
    requires Drawn(js, |s|)
    ensures Drawn(ks, |s|) && ks[..i] == js[..i] && ShuffleFrom(s, i, ks) == t
    decreases |s| - i
  {
    if i + 1 >= |s| {
      ks := js;
      if i < |s| {
        var j := SuffixStep(s, t, i);
      }
      assert s == t;
    } else {
      var j := SuffixStep(s, t, i);
      var u := Swap(s, i, j);
      assert u[..i + 1] == s[..i] + [t[i]] == t[..i + 1];
      ks := EveryArrangement(u, t, i + 1, js[i := j]);
      assert ks[i] == ks[..i + 1][i] == j;
      assert ks[..i] == ks[..i + 1][..i] == js[i := j][..i] == js[..i];
    }
  }

  /** The smallest value of rand() that draws index n - 1 in pass `i`. */
  function ForLast(randMax: nat, n: nat, i: nat): nat
    requires i < n
  {
    (n - 1 - i) * (randMax / (n - i) + 1)
  }

  /** Every index can be drawn in every pass. */
  predicate AllDrawn(randMax: nat, n: nat) {
    forall i :: 0 <= i < n ==> ForLast(randMax, n, i) <= randMax
  }

  lemma {:induction false} Products(a: nat, b: nat, c: nat)
    requires a <= b
    ensures a * c <= b * c
  {
  }

  lemma {:induction false} DrawnInPass(randMax: nat, n: nat, i: nat, j: nat)
    requires i <= j < n && AllDrawn(randMax, n)
    ensures exists r: nat :: r <= randMax && Pick(randMax, n, i, r) == j
  {
    assert ForLast(randMax, n, i) <= randMax;
    Products(j - i, n - 1 - i, randMax / (n - i) + 1);
    PickReaches(randMax, n, i, j);
  }

  lemma {:induction false} RandsFor(js: seq<nat>, n: nat, randMax: nat, k: nat) returns (rands: seq<nat>)
    requires Drawn(js, n) && AllDrawn(randMax, n) && k <= n
    ensures |rands| == k && Random(rands, randMax)
    ensures forall i :: 0 <= i < k ==> Pick(randMax, n, i, rands[i]) == js[i]
  {
    if k == 0 {
      rands := [];
    } else {
      rands := RandsFor(js, n, randMax, k - 1);
      DrawnInPass(randMax, n, k - 1, js[k - 1]);
      var r: nat :| r <= randMax && Pick(randMax, n, k - 1, r) == js[k - 1];
      rands := rands + [r];
    }
  }

  /** Some sequence of rand() results makes the shuffle turn `s` into `t`. */
  ghost predicate Reached(s: seq<int>, t: seq<int>, randMax: nat) {
    exists rands: seq<nat> :: |rands| == |s| && Random(rands, randMax) && ShuffleFrom(s, 0, Picks(randMax, rands)) == t
  }

  lemma {:induction false} ShuffleReaches(s: seq<int>, t: seq<int>, randMax: nat)
    requires multiset(s) == multiset(t) && AllDrawn(randMax, |s|)
    ensures Reached(s, t, randMax)
  {
    var n := |s|;
    assert |s| == |multiset(s)| == |t|;
    assert s[0..] == s && t[0..] == t;
    var js := EveryArrangement(s, t, 0, seq(n, i => i));
    var rands := RandsFor(js, n, randMax, n);
    assert Picks(randMax, rands) == js;
  }

  // ----- and no other condition on RAND_MAX would do

  predicate AllDifferent(s: seq<int>) {
    forall i, j :: 0 <= i < j < |s| ==> s[i] != s[j]
  }

  /** What has been drawn stays in its place. */
  lemma {:induction false} ShuffleKeeps(s: seq<int>, i: nat, js: seq<nat>, k: nat)
    requires Drawn(js, |s|) && k < i && k < |s|
    ensures |ShuffleFrom(s, i, js)| == |s| && ShuffleFrom(s, i, js)[k] == s[k]
    decreases |s| - i
  {
    if i + 1 >= |s| {
    } else {
      ShuffleKeeps(Swap(s, i, js[i]), i + 1, js, k);
    }
  }

  /** With different elements, the result shows every index that was drawn. */
  lemma {:induction false} ShuffleInjective(s: seq<int>, i: nat, js: seq<nat>, ks: seq<nat>, k: nat)
    requires AllDifferent(s) && Drawn(js, |s|) && Drawn(ks, |s|) && i <= k < |s| - 1
    requires ShuffleFrom(s, i, js) == ShuffleFrom(s, i, ks)
    ensures js[k] == ks[k]
    decreases |s| - i
  {
    ShuffleKeeps(Swap(s, i, js[i]), i + 1, js, i);
    ShuffleKeeps(Swap(s, i, ks[i]), i + 1, ks, i);
    assert s[js[i]] == s[ks[i]];
    if i == k {
    } else {
      ShuffleInjective(Swap(s, i, js[i]), i + 1, js, ks, k);
    }
  }

  /** If index n - 1 cannot be drawn in pass `i`, the arrangement that needs it is not
      reached. */
  lemma {:induction false} NotReached(s: seq<int>, randMax: nat, i: nat) returns (t: seq<int>)
    requires AllDifferent(s) && i < |s| && ForLast(randMax, |s|, i) > randMax
    ensures multiset(t) == multiset(s) && !Reached(s, t, randMax)
  {
    var n := |s|;
    assert ForLast(randMax, n, n - 1) == 0;
    var js := seq(n, k requires 0 <= k < n => if k == i then n - 1 else k);
    t := ShuffleFrom(s, 0, js);
    ShufflePermutes(s, 0, js);
    forall rands: seq<nat> | |rands| == n && Random(rands, randMax) ensures ShuffleFrom(s, 0, Picks(randMax, rands)) != t {
      if ShuffleFrom(s, 0, Picks(randMax, rands)) == t {
        ShuffleInjective(s, 0, Picks(randMax, rands), js, i);
        PickReaches(randMax, n, i, n - 1);
      }
    }
  }

  /** For different elements every arrangement can come out if and only if every index
      can be drawn in every pass. */
  lemma {:induction false} ReachesAllExactly(s: seq<int>, randMax: nat)
    requires AllDifferent(s)
    ensures (forall t :: multiset(t) == multiset(s) ==> Reached(s, t, randMax)) <==> AllDrawn(randMax, |s|)
  {
    if AllDrawn(randMax, |s|) {
      forall t | multiset(t) == multiset(s) ensures Reached(s, t, randMax) {
        ShuffleReaches(s, t, randMax);
      }
    } else {
      var i :| 0 <= i < |s| && ForLast(randMax, |s|, i) > randMax;
      var t := NotReached(s, randMax, i);
    }
  }

  /** Below its square, a number divided leaves a quotient that is at least as large. */
  lemma {:induction false} SquareBound(randMax: nat, m: nat)
    requires m > 0 && m * m <= randMax
    ensures (m - 1) * (randMax / m + 1) <= randMax
  {
    var q := randMax / m;
    QuotientBelow(randMax, m, m);
    assert m * q <= randMax;
    assert (m - 1) * (q + 1) == m * q + m - q - 1;
  }

  /** It is enough that RAND_MAX is at least the square of the number of elements. */
  lemma {:induction false} SquareIsEnough(randMax: nat, n: nat)
    requires n * n <= randMax
    ensures AllDrawn(randMax, n)
  {
    forall i | 0 <= i < n ensures ForLast(randMax, n, i) <= randMax {
      Products(n - i, n, n - i);
      Products(n - i, n, n);
      SquareBound(randMax, n - i);
    }
  }

  // ----- the benchmark

  /** What open returns; `writable` if opened with O_WRONLY or O_RDWR. */
  datatype Fd = Failed | Fd(name: string, writable: bool)

  /** A file opened or unlinked, whether it was there or not. */
  datatype Operation = Opened(name: string) | Unlinked(name: string)

  /** A directory: the contents of its files by name, how many more files the file
      system has room for, and, as history, what was done to it. */
  class Directory {
    var files: map<string, string>
    var room: nat
    ghost var log: seq<Operation>

    constructor (files: map<string, string>, room: nat)
      ensures this.files == files && this.room == room && log == []
    {
      this.files, this.room, log := files, room, [];
    }

    /** open(name, flags) with O_CREAT among the flags. */
    method Open(name: string, writable: bool) returns (fd: Fd)
      modifies this
      ensures fd == if name in old(files) || old(room) > 0 then Fd(name, writable) else Failed
      ensures files == if name in old(files) || old(room) == 0 then old(files) else old(files)[name := ""]
      ensures room == if name in old(files) || old(room) == 0 then old(room) else old(room) - 1
      ensures log == old(log) + [Opened(name)]
    {
      log := log + [Opened(name)];
      if name !in files {
        if room == 0 {
          return Failed;
        }
        files, room := files[name := ""], room - 1;
      }
      fd := Fd(name, writable);
    }

    /** write(2) at the end of a file just opened; -1 if not opened for writing. */
    method Write(fd: Fd, text: string) returns (r: int)
      requires fd.Fd? && fd.name in files
      modifies this
      ensures r == if fd.writable then |text| else -1
      ensures log == old(log) && room == old(room) && files == if fd.writable then old(files)[fd.name := text] else old(files)
    {
      if !fd.writable {
        return -1;
      }
      files := files[fd.name := text];
      r := |text|;
    }

    method Unlink(name: string) returns (r: int)
      modifies this
      ensures r == if name in old(files) then 0 else -1
      ensures files == old(files) - {name} && log == old(log) + [Unlinked(name)]
    {
      log := log + [Unlinked(name)];
      r := if name in files then 0 else -1;
      files, room := files - {name}, room + if name in files then 1 else 0;
    }
  }

  const FILE_CONTENTS := "z"

  /** FILENAME_FMT within the directory: "x%06d". */
  function Name(k: nat): string {
    "x" + Padded(6, k)
  }

  /** Name `k` is an x and at least six digits that read as `k`, and more than six only
      if the first is not 0. */
  lemma {:induction false} NameIs(k: nat)
    ensures var name := Name(k);
            && |name| >= 7 && name[0] == 'x' && AllDigits(name[1..]) && Value(name[1..]) == k
            && (|name| > 7 ==> name[1] != '0')
  {
    assert Name(k)[1..] == Padded(6, k);
    ValueOfDigits(k);
    NoLeadingZero(k);
    if |Digits(k)| < 6 {
      ValueWithZeros(6 - |Digits(k)|, Digits(k));
    }
  }

  lemma {:induction false} NameInjective(a: nat, b: nat)
    requires Name(a) == Name(b)
    ensures a == b
  {
    assert Name(a)[1..] == Padded(6, a) && Name(b)[1..] == Padded(6, b);
    PaddedInjective(6, a, b);
  }

  /** `name` is one of the names the benchmark uses for `n` files. */
  ghost predicate IsName(name: string, n: nat) {
    exists k: nat :: k < n && name == Name(k)
  }

  /** Files that were there are as they were, and only names of the benchmark are new,
      for empty files. */
  ghost predicate OnlyAdds(was: map<string, string>, now: map<string, string>, n: nat) {
    && (forall name :: name in was ==> name in now && now[name] == was[name])
    && (forall name :: name in now && name !in was ==> IsName(name, n) && now[name] == "")
  }

  /** One file: open with O_CREAT alone, so not for writing, and write. */
  method CreateOne(dir: Directory, number: nat, ghost n: nat, ghost was: map<string, string>) returns (ok: bool)
    requires number < n && OnlyAdds(was, dir.files, n)
    modifies dir
    ensures OnlyAdds(was, dir.files, n) && old(dir.files.Keys) <= dir.files.Keys
    ensures ok ==> Name(number) in dir.files && dir.room >= old(dir.room) - 1
    ensures dir.log == old(dir.log) + [Opened(Name(number))]
    ensures !ok ==> old(dir.room) == 0
  {
    assert IsName(Name(number), n);
    var fd := dir.Open(Name(number), false);
    if fd == Failed {
      return false;
    }
    var w := dir.Write(fd, FILE_CONTENTS);
    return true;
  }

  function OpenAll(numbers: seq<int>): seq<Operation>
    requires forall i :: 0 <= i < |numbers| ==> numbers[i] >= 0
  {
    seq(|numbers|, i requires 0 <= i < |numbers| => Opened(Name(numbers[i])))
  }

  function UnlinkAll(n: nat): seq<Operation> {
    seq(n, i requires 0 <= i < n => Unlinked(Name(i)))
  }

  /** Files are created in the order of `numbers`, which holds 0 to n - 1 in some order;
      1 as soon as one cannot be. They stay empty: opened with O_CREAT alone, they are
      not open for writing, and the write of FILE_CONTENTS fails. */
  method CreateAll(dir: Directory, numbers: array<int>) returns (r: int)
    requires forall x :: x in numbers[..] <==> 0 <= x < numbers.Length
    modifies dir
    ensures r == 0 || (r == 1 && old(dir.room) < numbers.Length)
    ensures OnlyAdds(old(dir.files), dir.files, numbers.Length)
    ensures r == 0 ==> forall k: nat :: k < numbers.Length ==> Name(k) in dir.files
    ensures forall i :: 0 <= i < numbers.Length ==> numbers[i] >= 0
    ensures old(dir.log) <= dir.log <= old(dir.log) + OpenAll(numbers[..])
    ensures r == 0 ==> dir.log == old(dir.log) + OpenAll(numbers[..])
  {
    var n := numbers.Length;
    forall i | 0 <= i < n ensures numbers[i] >= 0 {
      assert numbers[i] in numbers[..];
    }
    for i := 0 to n
      invariant dir.log == old(dir.log) + OpenAll(numbers[..i])
      invariant dir.room >= old(dir.room) - i
      invariant OnlyAdds(old(dir.files), dir.files, n)
      invariant forall k :: 0 <= k < i ==> numbers[k] >= 0 && Name(numbers[k]) in dir.files
    {
      assert numbers[i] in numbers[..];
      var ok := CreateOne(dir, numbers[i], n, old(dir.files));
      OneMoreOpened(numbers[..], i);
      if !ok {
        return 1;
      }
    }
    forall k: nat | k < n ensures Name(k) in dir.files {
      assert k in numbers[..];
    }
    return 0;
  }

  lemma {:induction false} OneMoreOpened(numbers: seq<int>, i: nat)
    requires i < |numbers| && forall k :: 0 <= k < |numbers| ==> numbers[k] >= 0
    ensures OpenAll(numbers[..i + 1]) == OpenAll(numbers[..i]) + [Opened(Name(numbers[i]))]
    ensures OpenAll(numbers[..i + 1]) <= OpenAll(numbers) && numbers[..|numbers|] == numbers
  {
  }

  /** Exactly the first `n` names of the benchmark are gone. */
  ghost predicate OnlyRemoves(was: map<string, string>, now: map<string, string>, n: nat) {
    && (forall name :: name in now <==> name in was && !IsName(name, n))
    && (forall name :: name in now ==> now[name] == was[name])
  }

  lemma {:induction false} NextName(name: string, i: nat)
    ensures IsName(name, i + 1) <==> IsName(name, i) || name == Name(i)
    ensures !IsName(Name(i), i)
  {
    forall k: nat | k < i ensures Name(k) != Name(i) {
      if Name(k) == Name(i) { NameInjective(k, i); }
    }
  }

  /** One file more is deleted, if it was there. */
  method DeleteOne(dir: Directory, i: nat, ghost was: map<string, string>) returns (r: int)
    requires OnlyRemoves(was, dir.files, i) && Name(i) in was
    modifies dir
    ensures r == 0 && OnlyRemoves(was, dir.files, i + 1) && dir.log == old(dir.log) + [Unlinked(Name(i))]
  {
    forall name ensures IsName(name, i + 1) <==> IsName(name, i) || name == Name(i) {
      NextName(name, i);
    }
    NextName("", i);
    r := dir.Unlink(Name(i));
  }

  lemma {:induction false} OneMoreUnlinked(log: seq<Operation>, i: nat)
    ensures log + UnlinkAll(i) + [Unlinked(Name(i))] == log + UnlinkAll(i + 1)
    ensures log + UnlinkAll(0) == log
  {
    assert UnlinkAll(i + 1) == UnlinkAll(i) + [Unlinked(Name(i))];
    assert UnlinkAll(0) == [];
  }

  /** Files are deleted in numerical order; 1 as soon as one is not there. */
  method DeleteAll(dir: Directory, ordered: array<int>) returns (r: int)
    requires forall k :: 0 <= k < ordered.Length ==> ordered[k] == k
    requires forall k: nat :: k < ordered.Length ==> Name(k) in dir.files
    modifies dir
    ensures r == 0
    ensures OnlyRemoves(old(dir.files), dir.files, ordered.Length)
    ensures dir.log == old(dir.log) + UnlinkAll(ordered.Length)
  {
    ghost var was, log := dir.files, dir.log;
    r := 0;
    for i := 0 to ordered.Length
      invariant r == 0 && OnlyRemoves(was, dir.files, i) && dir.log == log + UnlinkAll(i)
    {
      OneMoreUnlinked(log, i);
      r := DeleteOne(dir, ordered[i], was);
      if r != 0 {
        return 1;
      }
    }
  }

  /** The arrays before the shuffle. */
  method InOrder(n: nat) returns (a: array<int>)
    ensures fresh(a) && a.Length == n && a[..] == seq(n, i => i)
  {
    a := new int[n];
    for i := 0 to n
      invariant forall k :: 0 <= k < i ==> a[k] == k
    {
      a[i] := i;
    }
  }

  lemma {:induction false} SameNumbers(s: seq<int>, inOrder: seq<int>)
    requires multiset(s) == multiset(inOrder) && inOrder == seq(|inOrder|, i => i)
    ensures forall x :: x in s <==> 0 <= x < |inOrder|
  {
    forall x ensures x in s <==> 0 <= x < |inOrder| {
      assert x in s <==> x in multiset(s);
      assert x in inOrder <==> x in multiset(inOrder);
      assert 0 <= x < |inOrder| ==> inOrder[x] == x;
    }
  }

  /** The order of creation. */
  function CreationOrder(n: nat, randomize: bool, randMax: nat, rands: seq<nat>): (order: seq<int>)
    requires |rands| == n && Random(rands, randMax)
    ensures multiset(order) == multiset(seq(n, i => i))
    ensures forall i :: 0 <= i < |order| ==> order[i] >= 0
  {
    var inOrder := seq(n, i => i);
    var order := if randomize then ShuffleFrom(inOrder, 0, Picks(randMax, rands)) else inOrder;
    assert multiset(order) == multiset(inOrder) by {
      ShufflePermutes(inOrder, 0, Picks(randMax, rands));
    }
    SameNumbers(order, inOrder);
    assert forall i :: 0 <= i < |order| ==> order[i] in order;
    order
  }

  /** Fill both arrays, shuffle one if asked to, create, delete. With room for the
      files every unlink succeeds, exactly the benchmark's own names are gone in the
      end, and an empty directory is empty again; without, a failing open stops it and
      leaves behind only files of its own names, empty. The files are created in the order
      of the shuffled numbers and unlinked in numerical order. */
  method RunBenchmark(dir: Directory, n: nat, randomize: bool, randMax: nat, rands: seq<nat>) returns (r: int)
    requires |rands| == n && Random(rands, randMax)
    modifies dir
    ensures r == 0 || (r == 1 && old(dir.room) < n && OnlyAdds(old(dir.files), dir.files, n))
    ensures r == 0 ==> forall name :: name in dir.files <==> name in old(dir.files) && !IsName(name, n)
    ensures r == 0 ==> forall name :: name in dir.files ==> dir.files[name] == old(dir.files)[name]
    ensures r == 0 ==> dir.log == old(dir.log) + OpenAll(CreationOrder(n, randomize, randMax, rands)) + UnlinkAll(n)
  {
    var numbers := InOrder(n);
    var ordered := InOrder(n);
    ghost var inOrder := ordered[..];
    if randomize {
      Shuffle(numbers, randMax, rands);
    }
    assert numbers[..] == CreationOrder(n, randomize, randMax, rands);
    SameNumbers(numbers[..], inOrder);
    r := CreateAll(dir, numbers);
    if r != 0 {
      return 1;
    }
    r := DeleteAll(dir, ordered);
  }
}
