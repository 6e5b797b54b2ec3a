/** pstree.c: a linked list of processes is turned into a forest by parent process
    id, and printed by a pre-order traversal from every process without a parent.

    Nodes are named by their position in the list that starts at `ll_head`; NO_NODE
    is the null pointer. The functions here say what the forest and the printed lines
    are; module PsTreeProgram computes them as the program does. */
module PsTree {
  import opened Sums

  datatype Process = Process(name: string, pid: int, ppid: int)

  const NO_NODE := -1

  /** find_node_with_pid: the first node with that process id. */
  function Find(ps: seq<Process>, pid: int): (r: int)
    ensures -1 <= r < |ps|
    ensures r >= 0 ==> ps[r].pid == pid && forall j :: 0 <= j < r ==> ps[j].pid != pid
    ensures r == NO_NODE <==> forall j :: 0 <= j < |ps| ==> ps[j].pid != pid
  {
    FindFrom(ps, pid, 0)
  }

  function FindFrom(ps: seq<Process>, pid: int, i: nat): (r: int)
    requires i <= |ps|
    ensures r == NO_NODE || i <= r < |ps|
    ensures r != NO_NODE ==> ps[r].pid == pid && forall j :: i <= j < r ==> ps[j].pid != pid
    ensures r == NO_NODE ==> forall j :: i <= j < |ps| ==> ps[j].pid != pid
    decreases |ps| - i
  {
    if i == |ps| then NO_NODE else if ps[i].pid == pid then i else FindFrom(ps, pid, i + 1)
  }

  /** The node of the parent; NO_NODE if that process is not in the list (any more). */
  function Parent(ps: seq<Process>, i: nat): (p: int)
    requires i < |ps|
    ensures -1 <= p < |ps|
  {
    Find(ps, ps[i].ppid)
  }

  /** The children of `p` among the first `n` nodes, in list order. */
  function Kids(ps: seq<Process>, p: int, n: nat): seq<nat>
    requires n <= |ps|
  {
    if n == 0 then []
    else if Parent(ps, n - 1) == p then Kids(ps, p, n - 1) + [n - 1]
    else Kids(ps, p, n - 1)
  }

  lemma {:induction false} KidsAre(ps: seq<Process>, p: int, n: nat)
    requires n <= |ps|
    ensures forall j :: 0 <= j < |Kids(ps, p, n)| ==> Kids(ps, p, n)[j] < n && Parent(ps, Kids(ps, p, n)[j]) == p
    ensures forall i, j :: 0 <= i < j < |Kids(ps, p, n)| ==> Kids(ps, p, n)[i] < Kids(ps, p, n)[j]
  {
    if n == 0 {
    } else {
      KidsAre(ps, p, n - 1);
    }
  }

  lemma {:induction false} KidsComplete(ps: seq<Process>, p: int, n: nat, i: nat)
    requires i < n <= |ps| && Parent(ps, i) == p
    ensures i in Kids(ps, p, n)
  {
    if i == n - 1 {
    } else {
      KidsComplete(ps, p, n - 1, i);
    }
  }

  /** The nodes whose parent is `p`, each once, in list order. */
  function Children(ps: seq<Process>, p: int): (ks: seq<nat>)
    ensures forall j :: 0 <= j < |ks| ==> ks[j] < |ps| && Parent(ps, ks[j]) == p
    ensures forall i, j :: 0 <= i < j < |ks| ==> ks[i] < ks[j]
  {
    KidsAre(ps, p, |ps|);
    Kids(ps, p, |ps|)
  }

  /** Following parent links `k` times from `i` ends at a process without a parent. */
  predicate IsDist(ps: seq<Process>, i: nat, k: nat)
    requires i < |ps|
    decreases k
  {
    if k == 0 then Parent(ps, i) == NO_NODE
    else Parent(ps, i) != NO_NODE && IsDist(ps, Parent(ps, i), k - 1)
  }

  /** Some process without a parent is above `i`; false only on a cycle of links. */
  ghost predicate Rooted(ps: seq<Process>, i: nat)
    requires i < |ps|
  {
    exists k: nat :: IsDist(ps, i, k)
  }

  lemma {:induction false} DistUnique(ps: seq<Process>, i: nat, k: nat, m: nat)
    requires i < |ps| && IsDist(ps, i, k) && IsDist(ps, i, m)
    ensures k == m
    decreases k
  {
    if k == 0 || m == 0 {
    } else {
      DistUnique(ps, Parent(ps, i), k - 1, m - 1);
    }
  }

  /** `i` and everything above it, for a node at distance `k` from its root. */
  function Above(ps: seq<Process>, i: nat, k: nat): set<nat>
    requires i < |ps| && IsDist(ps, i, k)
    decreases k
  {
    {i} + if k == 0 then {} else Above(ps, Parent(ps, i), k - 1)
  }

  lemma {:induction false} AboveDist(ps: seq<Process>, i: nat, k: nat, a: nat) returns (m: nat)
    requires i < |ps| && IsDist(ps, i, k) && a in Above(ps, i, k)
    ensures m <= k && a < |ps| && IsDist(ps, a, m)
    decreases k
  {
    if a == i {
      m := k;
    } else {
      m := AboveDist(ps, Parent(ps, i), k - 1, a);
    }
  }

  lemma {:induction false} NotAboveItself(ps: seq<Process>, i: nat, k: nat)
    requires i < |ps| && k > 0 && IsDist(ps, i, k)
    ensures i !in Above(ps, Parent(ps, i), k - 1)
  {
    if i in Above(ps, Parent(ps, i), k - 1) {
      var m := AboveDist(ps, Parent(ps, i), k - 1, i);
      DistUnique(ps, i, k, m);
    }
  }

  lemma {:induction false} AboveSize(ps: seq<Process>, i: nat, k: nat)
    requires i < |ps| && IsDist(ps, i, k)
    ensures |Above(ps, i, k)| == k + 1
    decreases k
  {
    if k == 0 {
    } else {
      AboveSize(ps, Parent(ps, i), k - 1);
      NotAboveItself(ps, i, k);
    }
  }

  lemma {:induction false} BelowSize(n: nat, s: set<nat>)
    requires forall x :: x in s ==> x < n
    ensures |s| <= n
  {
    if n == 0 {
      assert s == {};
    } else {
      BelowSize(n - 1, s - {n - 1});
    }
  }

  /** A path to a root never visits a node twice, so it is shorter than the list. */
  lemma {:induction false} DistBound(ps: seq<Process>, i: nat, k: nat)
    requires i < |ps| && IsDist(ps, i, k)
    ensures k < |ps|
  {
    AboveSize(ps, i, k);
    forall a | a in Above(ps, i, k) ensures a < |ps| {
      var m := AboveDist(ps, i, k, a);
    }
    BelowSize(|ps|, Above(ps, i, k));
  }

  /** A child is one step further from the root. */
  lemma {:induction false} KidDist(ps: seq<Process>, r: nat, level: nat, j: nat)
    requires r < |ps| && IsDist(ps, r, level) && j < |Children(ps, r)|
    ensures Children(ps, r)[j] < |ps| && IsDist(ps, Children(ps, r)[j], level + 1) && level + 1 < |ps|
  {
    DistBound(ps, Children(ps, r)[j], level + 1);
  }

  // ----- what is printed

  datatype Line = Line(node: nat, level: nat)

  /** print_tree, and its loop over the first `m` children. No assumption about
      cycles is needed: what hangs below a root is a tree. */
  function PrintTree(ps: seq<Process>, root: nat, level: nat): seq<Line>
    requires root < |ps| && IsDist(ps, root, level)
    decreases |ps| - level, 1, 0
  {
    [Line(root, level)] + PrintKids(ps, root, level, |Children(ps, root)|)
  }

  function PrintKids(ps: seq<Process>, root: nat, level: nat, m: nat): seq<Line>
    requires root < |ps| && IsDist(ps, root, level) && m <= |Children(ps, root)|
    decreases |ps| - level, 0, m
  {
    if m == 0 then []
    else
      KidDist(ps, root, level, m - 1);
      var kid := Children(ps, root)[m - 1];
      PrintKids(ps, root, level, m - 1) + PrintTree(ps, kid, level + 1)
  }

  /** What the loop of main prints for node `r`. */
  function PrintRoot(ps: seq<Process>, r: nat): seq<Line>
    requires r < |ps|
  {
    if Parent(ps, r) == NO_NODE then PrintTree(ps, r, 0) else []
  }

  /** The loop of main over the first `n` nodes. */
  function PrintRoots(ps: seq<Process>, n: nat): seq<Line>
    requires n <= |ps|
  {
    if n == 0 then [] else PrintRoots(ps, n - 1) + PrintRoot(ps, n - 1)
  }

  // ----- every rooted process exactly once, at its distance, after its parent

  /** How often node `i` is printed. */
  function Count(lines: seq<Line>, i: nat): nat {
    if lines == [] then 0 else Count(lines[..|lines| - 1], i) + if lines[|lines| - 1].node == i then 1 else 0
  }

  lemma {:induction false} CountConcat(a: seq<Line>, b: seq<Line>, i: nat)
    ensures Count(a + b, i) == Count(a, i) + Count(b, i)
  {
    if b == [] {
      assert a + b == a;
    } else {
      assert (a + b)[..|a + b| - 1] == a + b[..|b| - 1];
      CountConcat(a, b[..|b| - 1], i);
    }
  }

  lemma {:induction false} SumOfCounts(a: seq<Line>, b: seq<Line>, c: seq<Line>, i: nat)
    requires c == a + b
    ensures Count(c, i) == Count(a, i) + Count(b, i)
  {
    CountConcat(a, b, i);
  }

  /** The ancestor of `i` that is `k` links up. */
  function Ancestor(ps: seq<Process>, i: nat, d: nat, k: nat): (a: nat)
    requires i < |ps| && IsDist(ps, i, d) && k <= d
    ensures a < |ps| && IsDist(ps, a, d - k)
    decreases k
  {
    if k == 0 then i else Ancestor(ps, Parent(ps, i), d - 1, k - 1)
  }

  lemma {:induction false} AncestorNext(ps: seq<Process>, i: nat, d: nat, k: nat)
    requires i < |ps| && IsDist(ps, i, d) && k < d
    ensures Ancestor(ps, i, d, k + 1) == Parent(ps, Ancestor(ps, i, d, k))
    decreases k
  {
    if k == 0 {
    } else {
      AncestorNext(ps, Parent(ps, i), d - 1, k - 1);
    }
  }

  /** Node `r`, at distance `level` from its root, is `i` itself or above it. */
  predicate OnPath(ps: seq<Process>, r: nat, level: nat, i: nat, d: nat)
    requires i < |ps| && IsDist(ps, i, d)
  {
    level <= d && Ancestor(ps, i, d, d - level) == r
  }

  lemma {:induction false} CountTree(ps: seq<Process>, r: nat, level: nat, i: nat, d: nat)
    requires r < |ps| && IsDist(ps, r, level) && i < |ps| && IsDist(ps, i, d)
    ensures Count(PrintTree(ps, r, level), i) == Bit(OnPath(ps, r, level, i, d))
    decreases |ps| - level, 1, 0
  {
    DistBound(ps, r, level);
    var n := |Children(ps, r)|;
    CountKids(ps, r, level, n, i, d);
    CountConcat([Line(r, level)], PrintKids(ps, r, level, n), i);
    assert Count([Line(r, level)], i) == Bit(r == i) by {
      assert [Line(r, level)][..0] == [];
    }
    PathStep(ps, r, level, i, d);
  }

  /** The path to `i` passes through `r` if it ends there or goes on to a child of `r`. */
  lemma {:induction false} PathStep(ps: seq<Process>, r: nat, level: nat, i: nat, d: nat)
    requires r < |ps| && IsDist(ps, r, level) && i < |ps| && IsDist(ps, i, d)
    ensures Bit(OnPath(ps, r, level, i, d)) == Bit(r == i) + Hits(ps, r, level, |Children(ps, r)|, i, d)
  {
    if r == i {
      DistUnique(ps, i, level, d);
    }
    if level < d {
      AncestorNext(ps, i, d, d - level - 1);
      var a := Ancestor(ps, i, d, d - level - 1);
      if Parent(ps, a) == r {
        KidsComplete(ps, r, |ps|, a);
      }
    }
  }

  /** `a` is one of the first `m` elements. */
  predicate Among(kids: seq<nat>, m: nat, a: nat)
    requires m <= |kids|
  {
    exists j :: 0 <= j < m && kids[j] == a
  }

  lemma {:induction false} AmongNext(kids: seq<nat>, m: nat, a: nat)
    requires 0 < m <= |kids| && forall i, j :: 0 <= i < j < |kids| ==> kids[i] < kids[j]
    ensures Bit(Among(kids, m, a)) == Bit(Among(kids, m - 1, a)) + Bit(kids[m - 1] == a)
  {
  }

  /** 1 if the next node on the path from `r` down to `i` is among the first `m` children. */
  function Hits(ps: seq<Process>, r: nat, level: nat, m: nat, i: nat, d: nat): nat
    requires m <= |Children(ps, r)| && i < |ps| && IsDist(ps, i, d)
  {
    if level < d then Bit(Among(Children(ps, r), m, Ancestor(ps, i, d, d - level - 1))) else 0
  }

  lemma {:induction false} HitsNext(ps: seq<Process>, r: nat, level: nat, m: nat, i: nat, d: nat)
    requires 0 < m <= |Children(ps, r)| && i < |ps| && IsDist(ps, i, d)
    ensures Hits(ps, r, level, m, i, d)
         == Hits(ps, r, level, m - 1, i, d) + Bit(OnPath(ps, Children(ps, r)[m - 1], level + 1, i, d))
  {
    if level < d {
      AmongNext(Children(ps, r), m, Ancestor(ps, i, d, d - level - 1));
    }
  }

  /** Among the first `m` subtrees, only that of the next node on the path has `i`. */
  lemma {:induction false} CountKids(ps: seq<Process>, r: nat, level: nat, m: nat, i: nat, d: nat)
    requires r < |ps| && IsDist(ps, r, level) && m <= |Children(ps, r)| && i < |ps| && IsDist(ps, i, d)
    ensures Count(PrintKids(ps, r, level, m), i) == Hits(ps, r, level, m, i, d)
    decreases |ps| - level, 0, m
  {
    if m == 0 {
    } else {
      KidDist(ps, r, level, m - 1);
      var kid := Children(ps, r)[m - 1];
      CountKids(ps, r, level, m - 1, i, d);
      CountTree(ps, kid, level + 1, i, d);
      SumOfCounts(PrintKids(ps, r, level, m - 1), PrintTree(ps, kid, level + 1), PrintKids(ps, r, level, m), i);
      HitsNext(ps, r, level, m, i, d);
    }
  }

  lemma {:induction false} CountRoot(ps: seq<Process>, r: nat, i: nat, d: nat)
    requires r < |ps| && i < |ps| && IsDist(ps, i, d)
    ensures Count(PrintRoot(ps, r), i) == Bit(Ancestor(ps, i, d, d) == r)
  {
    if Parent(ps, r) == NO_NODE {
      CountTree(ps, r, 0, i, d);
    }
  }

  /** The first `n` pieces of output, one after the other. */
  function Flat(pieces: seq<seq<Line>>, n: nat): seq<Line>
    requires n <= |pieces|
  {
    if n == 0 then [] else Flat(pieces, n - 1) + pieces[n - 1]
  }

  /** If only piece `k` prints `i`, and once, so do the pieces up to it. */
  lemma {:induction false} CountFlat(pieces: seq<seq<Line>>, n: nat, i: nat, k: nat)
    requires n <= |pieces| && forall r :: 0 <= r < |pieces| ==> Count(pieces[r], i) == Bit(k == r)
    ensures Count(Flat(pieces, n), i) == Bit(k < n)
  {
    if n == 0 {
    } else {
      CountFlat(pieces, n - 1, i, k);
      CountConcat(Flat(pieces, n - 1), pieces[n - 1], i);
    }
  }

  lemma {:induction false} RootsAreFlat(ps: seq<Process>, pieces: seq<seq<Line>>, n: nat)
    requires n <= |ps| == |pieces| && forall r :: 0 <= r < |ps| ==> pieces[r] == PrintRoot(ps, r)
    ensures PrintRoots(ps, n) == Flat(pieces, n)
  {
    if n == 0 {
    } else {
      RootsAreFlat(ps, pieces, n - 1);
    }
  }

  lemma {:induction false} CountRoots(ps: seq<Process>, n: nat, i: nat, d: nat)
    requires n <= |ps| && i < |ps| && IsDist(ps, i, d)
    ensures Count(PrintRoots(ps, n), i) == Bit(Ancestor(ps, i, d, d) < n)
  {
    var pieces := seq(|ps|, r requires 0 <= r < |ps| => PrintRoot(ps, r));
    forall r | 0 <= r < |ps| ensures Count(pieces[r], i) == Bit(Ancestor(ps, i, d, d) == r) {
      CountRoot(ps, r, i, d);
    }
    RootsAreFlat(ps, pieces, n);
    CountFlat(pieces, n, i, Ancestor(ps, i, d, d));
  }

  /** Every line is right: an existing node, at its distance from its root, and,
      unless it is a root, after the line of its parent. */
  ghost predicate GoodLines(ps: seq<Process>, before: seq<Line>, lines: seq<Line>) {
    forall x :: 0 <= x < |lines| ==> GoodLine(ps, before + lines[..x], lines[x])
  }

  ghost predicate GoodLine(ps: seq<Process>, before: seq<Line>, line: Line) {
    && line.node < |ps| && IsDist(ps, line.node, line.level)
    && (line.level > 0 ==> Line(Parent(ps, line.node), line.level - 1) in before)
  }

  lemma {:induction false} GoodConcat(ps: seq<Process>, before: seq<Line>, a: seq<Line>, b: seq<Line>)
    requires GoodLines(ps, before, a) && GoodLines(ps, before + a, b)
    ensures GoodLines(ps, before, a + b)
  {
    forall x | 0 <= x < |a + b| ensures GoodLine(ps, before + (a + b)[..x], (a + b)[x]) {
      if x < |a| {
        assert (a + b)[..x] == a[..x];
      } else {
        assert before + (a + b)[..x] == before + a + b[..x - |a|];
      }
    }
  }

  lemma {:induction false} GoodTree(ps: seq<Process>, before: seq<Line>, r: nat, level: nat)
    requires r < |ps| && IsDist(ps, r, level)
    requires level > 0 ==> Line(Parent(ps, r), level - 1) in before
    ensures GoodLines(ps, before, PrintTree(ps, r, level))
    decreases |ps| - level, 1, 0
  {
    var top := [Line(r, level)];
    assert GoodLines(ps, before, top) by {
      assert before + top[..0] == before;
    }
    GoodKids(ps, before + top, r, level, |Children(ps, r)|);
    GoodConcat(ps, before, top, PrintKids(ps, r, level, |Children(ps, r)|));
  }

  lemma {:induction false} GoodKids(ps: seq<Process>, before: seq<Line>, r: nat, level: nat, m: nat)
    requires r < |ps| && IsDist(ps, r, level) && m <= |Children(ps, r)| && Line(r, level) in before
    ensures GoodLines(ps, before, PrintKids(ps, r, level, m))
    decreases |ps| - level, 0, m
  {
    if m == 0 {
    } else {
      KidDist(ps, r, level, m - 1);
      var kid := Children(ps, r)[m - 1];
      GoodKids(ps, before, r, level, m - 1);
      GoodTree(ps, before + PrintKids(ps, r, level, m - 1), kid, level + 1);
      GoodConcat(ps, before, PrintKids(ps, r, level, m - 1), PrintTree(ps, kid, level + 1));
    }
  }

  lemma {:induction false} GoodRoot(ps: seq<Process>, before: seq<Line>, r: nat)
    requires r < |ps|
    ensures GoodLines(ps, before, PrintRoot(ps, r))
  {
    if Parent(ps, r) == NO_NODE {
      GoodTree(ps, before, r, 0);
    }
  }

  lemma {:induction false} GoodRoots(ps: seq<Process>, n: nat)
    requires n <= |ps|
    ensures GoodLines(ps, [], PrintRoots(ps, n))
  {
    if n == 0 {
    } else {
      var before := PrintRoots(ps, n - 1);
      GoodRoots(ps, n - 1);
      GoodRoot(ps, [] + before, n - 1);
      GoodConcat(ps, [], before, PrintRoot(ps, n - 1));
    }
  }

  // ----- what the indents mean

  /** The last line before `x` with a smaller level is line `w`. */
  ghost predicate LastOuter(lines: seq<Line>, w: int, x: int) {
    && 0 <= w < x < |lines| && lines[w].level < lines[x].level
    && forall v :: w < v < x ==> lines[v].level >= lines[x].level
  }

  predicate IsParentLine(ps: seq<Process>, line: Line, kid: Line)
    requires kid.node < |ps|
  {
    line.node == Parent(ps, kid.node) && line.level + 1 == kid.level
  }

  /** Line `x` is below the line of its parent. */
  ghost predicate BelowParent(ps: seq<Process>, lines: seq<Line>, x: int) {
    && 0 <= x < |lines| && lines[x].node < |ps| && lines[x].level > 0
    && exists w :: LastOuter(lines, w, x) && IsParentLine(ps, lines[w], lines[x])
  }

  ghost predicate NestedAt(ps: seq<Process>, lines: seq<Line>, base: nat, x: int) {
    0 <= x < |lines| && lines[x].level > base ==> BelowParent(ps, lines, x)
  }

  predicate AtLeast(lines: seq<Line>, base: nat) {
    forall x :: 0 <= x < |lines| ==> lines[x].level >= base
  }

  /** No line is less indented than `base`, and each that is more is below its parent. */
  ghost predicate Nested(ps: seq<Process>, lines: seq<Line>, base: nat) {
    AtLeast(lines, base) && forall x :: NestedAt(ps, lines, base, x)
  }

  lemma {:induction false} BelowInFirst(ps: seq<Process>, a: seq<Line>, b: seq<Line>, x: int)
    requires BelowParent(ps, a, x)
    ensures BelowParent(ps, a + b, x)
  {
    var w :| LastOuter(a, w, x) && IsParentLine(ps, a[w], a[x]);
    var c := a + b;
    assert c[x] == a[x] && c[w] == a[w] && LastOuter(c, w, x);
  }

  lemma {:induction false} BelowInSecond(ps: seq<Process>, a: seq<Line>, b: seq<Line>, x: int)
    requires BelowParent(ps, b, x)
    ensures BelowParent(ps, a + b, |a| + x)
  {
    var w :| LastOuter(b, w, x) && IsParentLine(ps, b[w], b[x]);
    var c := a + b;
    assert c[|a| + x] == b[x] && c[|a| + w] == b[w];
    forall v | |a| + w < v < |a| + x ensures c[v].level >= c[|a| + x].level {
      assert c[v] == b[v - |a|];
    }
    assert LastOuter(c, |a| + w, |a| + x);
  }

  lemma {:induction false} NestedConcatAt(ps: seq<Process>, a: seq<Line>, b: seq<Line>, base: nat, x: int)
    requires NestedAt(ps, a, base, x) && NestedAt(ps, b, base, x - |a|)
    ensures NestedAt(ps, a + b, base, x)
  {
    if 0 <= x < |a + b| && (a + b)[x].level > base {
      if x < |a| {
        BelowInFirst(ps, a, b, x);
      } else {
        BelowInSecond(ps, a, b, x - |a|);
      }
    }
  }

  lemma {:induction false} NestedConcat(ps: seq<Process>, a: seq<Line>, b: seq<Line>, base: nat)
    requires Nested(ps, a, base) && Nested(ps, b, base)
    ensures Nested(ps, a + b, base)
  {
    forall x ensures NestedAt(ps, a + b, base, x) {
      NestedConcatAt(ps, a, b, base, x);
    }
  }

  /** The lines one level below `top` are those of its children. */
  ghost predicate OfKids(ps: seq<Process>, top: Line, lines: seq<Line>) {
    forall x :: 0 <= x < |lines| && lines[x].level == top.level + 1 ==>
                  lines[x].node < |ps| && Parent(ps, lines[x].node) == top.node
  }

  lemma {:induction false} BelowTop(ps: seq<Process>, top: Line, lines: seq<Line>, x: nat)
    requires x < |lines| && lines[x].level == top.level + 1 && OfKids(ps, top, lines)
    requires AtLeast(lines, top.level + 1)
    ensures BelowParent(ps, [top] + lines, x + 1)
  {
    var c := [top] + lines;
    assert c[x + 1] == lines[x];
    forall v | 0 < v < x + 1 ensures c[v].level >= c[x + 1].level {
      assert c[v] == lines[v - 1];
    }
    assert LastOuter(c, 0, x + 1);
  }

  lemma {:induction false} NestedUnderAt(ps: seq<Process>, top: Line, lines: seq<Line>, x: int)
    requires AtLeast(lines, top.level + 1) && NestedAt(ps, lines, top.level + 1, x - 1) && OfKids(ps, top, lines)
    ensures NestedAt(ps, [top] + lines, top.level, x)
  {
    if 0 < x <= |lines| {
      if lines[x - 1].level > top.level + 1 {
        BelowInSecond(ps, [top], lines, x - 1);
      } else {
        BelowTop(ps, top, lines, x - 1);
      }
    }
  }

  /** A line in front of everything below it. */
  lemma {:induction false} NestedUnder(ps: seq<Process>, top: Line, lines: seq<Line>)
    requires Nested(ps, lines, top.level + 1) && OfKids(ps, top, lines)
    ensures Nested(ps, [top] + lines, top.level)
  {
    forall x ensures NestedAt(ps, [top] + lines, top.level, x) {
      NestedUnderAt(ps, top, lines, x);
    }
  }

  lemma {:induction false} NestedTree(ps: seq<Process>, r: nat, level: nat)
    requires r < |ps| && IsDist(ps, r, level)
    ensures Nested(ps, PrintTree(ps, r, level), level)
    ensures PrintTree(ps, r, level) != [] && PrintTree(ps, r, level)[0] == Line(r, level)
    ensures AtLeast(PrintTree(ps, r, level)[1..], level + 1)
    decreases |ps| - level, 1, 0
  {
    DistBound(ps, r, level);
    var n := |Children(ps, r)|;
    NestedKids(ps, r, level, n);
    NestedUnder(ps, Line(r, level), PrintKids(ps, r, level, n));
    assert PrintTree(ps, r, level)[1..] == PrintKids(ps, r, level, n);
  }

  /** The tree of one more child. */
  lemma {:induction false} OneMoreKid(ps: seq<Process>, top: Line, a: seq<Line>, b: seq<Line>, kid: nat)
    requires Nested(ps, a, top.level + 1) && OfKids(ps, top, a) && Nested(ps, b, top.level + 1)
    requires kid < |ps| && Parent(ps, kid) == top.node
    requires b != [] && b[0] == Line(kid, top.level + 1) && AtLeast(b[1..], top.level + 2)
    ensures Nested(ps, a + b, top.level + 1) && OfKids(ps, top, a + b)
  {
    NestedConcat(ps, a, b, top.level + 1);
    forall x | |a| < x < |a + b| ensures (a + b)[x].level > top.level + 1 {
      assert (a + b)[x] == b[1..][x - |a| - 1];
    }
  }

  lemma {:induction false} NestedKids(ps: seq<Process>, r: nat, level: nat, m: nat)
    requires r < |ps| && IsDist(ps, r, level) && m <= |Children(ps, r)|
    ensures Nested(ps, PrintKids(ps, r, level, m), level + 1) && OfKids(ps, Line(r, level), PrintKids(ps, r, level, m))
    decreases |ps| - level, 0, m
  {
    if m == 0 {
    } else {
      KidDist(ps, r, level, m - 1);
      var kid := Children(ps, r)[m - 1];
      NestedKids(ps, r, level, m - 1);
      NestedTree(ps, kid, level + 1);
      OneMoreKid(ps, Line(r, level), PrintKids(ps, r, level, m - 1), PrintTree(ps, kid, level + 1), kid);
    }
  }

  lemma {:induction false} NestedRoots(ps: seq<Process>, n: nat)
    requires n <= |ps|
    ensures Nested(ps, PrintRoots(ps, n), 0)
  {
    if n == 0 {
    } else {
      NestedRoots(ps, n - 1);
      if Parent(ps, n - 1) == NO_NODE {
        NestedTree(ps, n - 1, 0);
      }
      NestedConcat(ps, PrintRoots(ps, n - 1), PrintRoot(ps, n - 1), 0);
    }
  }

  // ----- the order among siblings

  /** Lines `x` and `y` have the same indent, and nothing between them has a smaller one. */
  ghost predicate Beside(lines: seq<Line>, x: int, y: int) {
    && 0 <= x < y < |lines| && lines[x].level == lines[y].level
    && forall v :: x < v < y ==> lines[v].level >= lines[x].level
  }

  /** Of two such lines, the earlier is for the process earlier in the list. */
  ghost predicate ListOrder(lines: seq<Line>) {
    forall x, y :: Beside(lines, x, y) ==> lines[x].node < lines[y].node
  }

  /** All lines of `a` at level `base` are for nodes below `n`. */
  ghost predicate NodesBelow(a: seq<Line>, base: nat, n: nat) {
    forall x :: 0 <= x < |a| && a[x].level == base ==> a[x].node < n
  }

  /** One more tree, for node `n`, after trees for smaller nodes. */
  lemma {:induction false} ListOrderConcat(a: seq<Line>, b: seq<Line>, base: nat, n: nat)
    requires ListOrder(a) && ListOrder(b)
    requires NodesBelow(a, base, n) && AtLeast(a, base)
    requires b != [] && b[0] == Line(n, base) && AtLeast(b[1..], base + 1)
    ensures ListOrder(a + b) && NodesBelow(a + b, base, n + 1)
  {
    var c := a + b;
    assert c[|a|] == b[0];
    forall v | |a| < v < |c| ensures c[v].level > base {
      assert c[v] == b[1..][v - |a| - 1];
    }
    forall x, y | Beside(c, x, y) ensures c[x].node < c[y].node {
      if y < |a| {
        forall v | x < v < y ensures a[v].level >= a[x].level {
          assert c[v] == a[v];
        }
        assert c[x] == a[x] && c[y] == a[y] && Beside(a, x, y);
      } else if x >= |a| {
        forall v | x - |a| < v < y - |a| ensures b[v].level >= b[x - |a|].level {
          assert c[|a| + v] == b[v];
        }
        assert c[x] == b[x - |a|] && c[y] == b[y - |a|] && Beside(b, x - |a|, y - |a|);
      } else {
        assert c[x] == a[x];
      }
    }
  }

  lemma {:induction false} ListOrderUnder(top: Line, lines: seq<Line>)
    requires ListOrder(lines) && AtLeast(lines, top.level + 1)
    ensures ListOrder([top] + lines)
  {
    var c := [top] + lines;
    forall x, y | Beside(c, x, y) ensures c[x].node < c[y].node {
      assert c[y] == lines[y - 1];
      if x > 0 {
        forall v | x - 1 < v < y - 1 ensures lines[v].level >= lines[x - 1].level {
          assert c[v + 1] == lines[v];
        }
        assert c[x] == lines[x - 1] && Beside(lines, x - 1, y - 1);
      }
    }
  }

  lemma {:induction false} OrderedTree(ps: seq<Process>, r: nat, level: nat)
    requires r < |ps| && IsDist(ps, r, level)
    ensures ListOrder(PrintTree(ps, r, level))
    decreases |ps| - level, 1, 0
  {
    DistBound(ps, r, level);
    var n := |Children(ps, r)|;
    OrderedKids(ps, r, level, n);
    NestedKids(ps, r, level, n);
    ListOrderUnder(Line(r, level), PrintKids(ps, r, level, n));
  }

  /** The number after the last of the first `m` children. */
  function Past(kids: seq<nat>, m: nat): nat
    requires m <= |kids|
  {
    if m == 0 then 0 else kids[m - 1] + 1
  }

  lemma {:induction false} OrderedKids(ps: seq<Process>, r: nat, level: nat, m: nat)
    requires r < |ps| && IsDist(ps, r, level) && m <= |Children(ps, r)|
    ensures ListOrder(PrintKids(ps, r, level, m))
    ensures NodesBelow(PrintKids(ps, r, level, m), level + 1, Past(Children(ps, r), m))
    decreases |ps| - level, 0, m
  {
    if m == 0 {
    } else {
      KidDist(ps, r, level, m - 1);
      var kid := Children(ps, r)[m - 1];
      OrderedKids(ps, r, level, m - 1);
      OrderedTree(ps, kid, level + 1);
      NestedKids(ps, r, level, m - 1);
      NestedTree(ps, kid, level + 1);
      assert Past(Children(ps, r), m - 1) <= kid;
      ListOrderConcat(PrintKids(ps, r, level, m - 1), PrintTree(ps, kid, level + 1), level + 1, kid);
    }
  }

  lemma {:induction false} OrderedRoots(ps: seq<Process>, n: nat)
    requires n <= |ps|
    ensures ListOrder(PrintRoots(ps, n)) && NodesBelow(PrintRoots(ps, n), 0, n)
  {
    if n == 0 {
    } else {
      OrderedRoots(ps, n - 1);
      if Parent(ps, n - 1) == NO_NODE {
        OrderedTree(ps, n - 1, 0);
        NestedTree(ps, n - 1, 0);
        ListOrderConcat(PrintRoots(ps, n - 1), PrintTree(ps, n - 1, 0), 0, n - 1);
      } else {
        assert PrintRoots(ps, n) == PrintRoots(ps, n - 1);
      }
    }
  }

  lemma {:induction false} OneLine(lines: seq<Line>, i: nat, u: nat, v: nat)
    requires Count(lines, i) <= 1 && u < v < |lines|
    ensures !(lines[u].node == i && lines[v].node == i)
  {
    var k := |lines| - 1;
    if v == k {
      if lines[u].node == i && lines[v].node == i {
        assert lines[..k][u].node == i;
        Occurs(lines[..k], i, u);
      }
    } else {
      OneLine(lines[..k], i, u, v);
    }
  }

  lemma {:induction false} Occurs(lines: seq<Line>, i: nat, u: nat)
    requires u < |lines| && lines[u].node == i
    ensures Count(lines, i) >= 1
  {
    if u < |lines| - 1 {
      Occurs(lines[..|lines| - 1], i, u);
    }
  }

  /** Exactly the roots are not indented. */
  ghost predicate RootsAtZero(ps: seq<Process>, lines: seq<Line>) {
    forall x :: 0 <= x < |lines| ==> lines[x].node < |ps| && (lines[x].level == 0 <==> Parent(ps, lines[x].node) == NO_NODE)
  }

  lemma {:induction false} GoodLevels(ps: seq<Process>, lines: seq<Line>)
    requires GoodLines(ps, [], lines)
    ensures RootsAtZero(ps, lines)
  {
    forall x | 0 <= x < |lines|
      ensures lines[x].node < |ps| && (lines[x].level == 0 <==> Parent(ps, lines[x].node) == NO_NODE)
    {
      assert GoodLine(ps, [] + lines[..x], lines[x]);
    }
  }

  lemma {:induction false} SameOuter(lines: seq<Line>, u: int, x: int, y: int)
    requires LastOuter(lines, u, x) && LastOuter(lines, u, y) && x < y && lines[x].level == lines[y].level
    ensures Beside(lines, x, y)
  {
  }

  /** Lines of processes with the same parent are beside each other. */
  lemma {:induction false} SiblingsBeside(ps: seq<Process>, lines: seq<Line>, x: int, y: int)
    requires RootsAtZero(ps, lines) && Nested(ps, lines, 0) && forall i: nat :: Count(lines, i) <= 1
    requires 0 <= x < y < |lines| && Siblings(ps, lines[x].node, lines[y].node)
    ensures Beside(lines, x, y)
  {
    if Parent(ps, lines[x].node) != NO_NODE {
      assert NestedAt(ps, lines, 0, x) && NestedAt(ps, lines, 0, y);
      var u :| LastOuter(lines, u, x) && IsParentLine(ps, lines[u], lines[x]);
      var v :| LastOuter(lines, v, y) && IsParentLine(ps, lines[v], lines[y]);
      SameNodeSameLine(lines, u, v);
      SameOuter(lines, u, x, y);
    }
  }

  lemma {:induction false} SameNodeSameLine(lines: seq<Line>, u: int, v: int)
    requires forall i: nat :: Count(lines, i) <= 1
    requires 0 <= u < |lines| && 0 <= v < |lines| && lines[u].node == lines[v].node
    ensures u == v
  {
    if u < v {
      OneLine(lines, lines[u].node, u, v);
    } else if v < u {
      OneLine(lines, lines[u].node, v, u);
    }
  }

  /** What every output must satisfy: a process is printed exactly once if its parent
      links lead to a root and not at all if they run in a cycle; with an indent equal
      to its distance from the root; below the line of its parent, which is the last
      earlier line with a smaller indent; and after the children of that parent, or the
      roots, that come before it in the list. */
  ghost predicate IsForest(ps: seq<Process>, lines: seq<Line>) {
    && (forall i :: 0 <= i < |ps| ==> Count(lines, i) == if Rooted(ps, i) then 1 else 0)
    && GoodLines(ps, [], lines) && Nested(ps, lines, 0)
    && forall x, y :: 0 <= x < y < |lines| && Siblings(ps, lines[x].node, lines[y].node) ==> lines[x].node < lines[y].node
  }

  /** Two processes with the same parent, or two roots. */
  predicate Siblings(ps: seq<Process>, i: nat, j: nat) {
    i < |ps| && j < |ps| && Parent(ps, i) == Parent(ps, j)
  }

  lemma {:induction false} OnlyNodes(ps: seq<Process>, lines: seq<Line>, i: nat)
    requires GoodLines(ps, [], lines) && i >= |ps|
    ensures Count(lines, i) == 0
  {
    forall x | 0 <= x < |lines| ensures lines[x].node != i {
      assert GoodLine(ps, [] + lines[..x], lines[x]);
    }
    NotCounted(lines, i);
  }

  /** The output is such a forest. */
  lemma {:induction false} PrintsForest(ps: seq<Process>)
    ensures IsForest(ps, PrintRoots(ps, |ps|))
  {
    var lines := PrintRoots(ps, |ps|);
    GoodRoots(ps, |ps|);
    NestedRoots(ps, |ps|);
    OrderedRoots(ps, |ps|);
    forall i: nat ensures Count(lines, i) <= 1 && (i < |ps| ==> Count(lines, i) == if Rooted(ps, i) then 1 else 0) {
      if i < |ps| {
        PrintedOnce(ps, i);
      } else {
        OnlyNodes(ps, lines, i);
      }
    }
    GoodLevels(ps, lines);
    forall x, y | 0 <= x < y < |lines| && Siblings(ps, lines[x].node, lines[y].node) ensures lines[x].node < lines[y].node {
      SiblingsBeside(ps, lines, x, y);
    }
  }

  // ----- nothing else would do

  lemma {:induction false} ForestCounts(ps: seq<Process>, lines: seq<Line>, i: nat)
    requires IsForest(ps, lines)
    ensures Count(lines, i) == if i < |ps| && Rooted(ps, i) then 1 else 0
  {
    if i >= |ps| {
      OnlyNodes(ps, lines, i);
    }
  }

  lemma {:induction false} Position(lines: seq<Line>, i: nat) returns (x: nat)
    requires Count(lines, i) > 0
    ensures x < |lines| && lines[x].node == i
  {
    var k := |lines| - 1;
    if lines[k].node == i {
      x := k;
    } else {
      x := Position(lines[..k], i);
    }
  }

  /** Two outputs that agree in their first `x` lines: what comes next in one comes in
      the other as well, at the same level, and not before. */
  lemma {:induction false} ComesLater(ps: seq<Process>, a: seq<Line>, b: seq<Line>, x: nat) returns (z: nat)
    requires IsForest(ps, a) && IsForest(ps, b) && x < |b| && x <= |a| && a[..x] == b[..x]
    ensures x <= z < |a| && a[z] == b[x]
  {
    var j := b[x].node;
    ForestCounts(ps, a, j);
    ForestCounts(ps, b, j);
    Occurs(b, j, x);
    z := Position(a, j);
    if z < x {
      assert a[..x][z] == b[..x][z];
      OneLine(b, j, z, x);
    }
    assert GoodLine(ps, [] + a[..z], a[z]) && GoodLine(ps, [] + b[..x], b[x]);
    DistUnique(ps, j, a[z].level, b[x].level);
  }

  /** The line next in `b`, if indented, is not further in than the line next in `a`. */
  lemma {:induction false} NotFurtherIn(ps: seq<Process>, a: seq<Line>, b: seq<Line>, x: nat, z: nat)
    requires IsForest(ps, a) && IsForest(ps, b) && x < |b| && x < z < |a| && a[..x] == b[..x]
    requires a[z] == b[x] && b[x].level > 0
    ensures a[x].level >= b[x].level
  {
    assert NestedAt(ps, b, 0, x) && NestedAt(ps, a, 0, z);
    var w :| LastOuter(b, w, x) && IsParentLine(ps, b[w], b[x]);
    var u :| LastOuter(a, u, z) && IsParentLine(ps, a[u], a[z]);
    assert a[..x][w] == b[..x][w];
    forall i: nat ensures Count(a, i) <= 1 {
      ForestCounts(ps, a, i);
    }
    SameNodeSameLine(a, u, w);
  }

  /** The last line with a smaller level is the same in both. */
  lemma {:induction false} SameLastOuter(a: seq<Line>, b: seq<Line>, x: nat, u: int, w: int)
    requires x < |a| && x < |b| && a[..x] == b[..x] && a[x].level == b[x].level
    requires LastOuter(a, u, x) && LastOuter(b, w, x)
    ensures u == w && a[u] == b[w]
  {
    assert forall v :: 0 <= v < x ==> a[..x][v] == a[v] && b[..x][v] == b[v];
  }

  lemma {:induction false} SameParent(ps: seq<Process>, a: seq<Line>, b: seq<Line>, x: nat)
    requires RootsAtZero(ps, a) && RootsAtZero(ps, b) && Nested(ps, a, 0) && Nested(ps, b, 0)
    requires x < |a| && x < |b| && a[..x] == b[..x] && a[x].level == b[x].level
    ensures Siblings(ps, a[x].node, b[x].node)
  {
    if a[x].level > 0 {
      assert NestedAt(ps, a, 0, x) && NestedAt(ps, b, 0, x);
      var u :| LastOuter(a, u, x) && IsParentLine(ps, a[u], a[x]);
      var w :| LastOuter(b, w, x) && IsParentLine(ps, b[w], b[x]);
      SameLastOuter(a, b, x, u, w);
    }
  }

  lemma {:induction false} NextIsSame(ps: seq<Process>, a: seq<Line>, b: seq<Line>, x: nat)
    requires IsForest(ps, a) && IsForest(ps, b) && x < |a| && x < |b| && a[..x] == b[..x]
    ensures a[x] == b[x]
  {
    var z := ComesLater(ps, a, b, x);
    var y := ComesLater(ps, b, a, x);
    if a[x] != b[x] {
      if b[x].level > 0 {
        NotFurtherIn(ps, a, b, x, z);
      }
      if a[x].level > 0 {
        NotFurtherIn(ps, b, a, x, y);
      }
      GoodLevels(ps, a);
      GoodLevels(ps, b);
      SameParent(ps, a, b, x);
    }
  }

  /** Where two sequences part: at a difference, or where one ends. */
  lemma {:induction false} Parting(a: seq<Line>, b: seq<Line>) returns (x: nat)
    ensures x <= |a| && x <= |b| && a[..x] == b[..x]
    ensures x == |a| || x == |b| || a[x] != b[x]
  {
    x := 0;
    while x < |a| && x < |b| && a[x] == b[x]
      invariant x <= |a| && x <= |b| && a[..x] == b[..x]
    {
      x := x + 1;
    }
  }

  lemma {:induction false} ForestsAgree(ps: seq<Process>, a: seq<Line>, b: seq<Line>)
    requires IsForest(ps, a) && IsForest(ps, b)
    ensures a == b
  {
    var x := Parting(a, b);
    if x < |a| {
      if x < |b| {
        NextIsSame(ps, a, b, x);
      } else {
        var z := ComesLater(ps, b, a, x);
      }
    } else if x < |b| {
      var z := ComesLater(ps, a, b, x);
    }
  }

  /** The output of the program is the only one with these properties. */
  lemma {:induction false} OnlyForest(ps: seq<Process>, lines: seq<Line>)
    ensures IsForest(ps, lines) <==> lines == PrintRoots(ps, |ps|)
  {
    PrintsForest(ps);
    if IsForest(ps, lines) {
      ForestsAgree(ps, lines, PrintRoots(ps, |ps|));
    }
  }

  /** The whole output: a process is printed exactly once if its parent links lead
      to a root and not at all if they run in a cycle; with an indent equal to its
      distance from the root; and after its parent. */
  lemma {:induction false} PrintedOnce(ps: seq<Process>, i: nat)
    requires i < |ps|
    ensures Rooted(ps, i) ==> Count(PrintRoots(ps, |ps|), i) == 1
    ensures !Rooted(ps, i) ==> Count(PrintRoots(ps, |ps|), i) == 0
    ensures GoodLines(ps, [], PrintRoots(ps, |ps|))
  {
    GoodRoots(ps, |ps|);
    if d: nat :| IsDist(ps, i, d) {
      CountRoots(ps, |ps|, i, d);
    } else {
      forall x | 0 <= x < |PrintRoots(ps, |ps|)| ensures PrintRoots(ps, |ps|)[x].node != i {
        assert GoodLine(ps, [] + PrintRoots(ps, |ps|)[..x], PrintRoots(ps, |ps|)[x]);
      }
      NotCounted(PrintRoots(ps, |ps|), i);
    }
  }

  lemma {:induction false} NotCounted(lines: seq<Line>, i: nat)
    requires forall x :: 0 <= x < |lines| ==> lines[x].node != i
    ensures Count(lines, i) == 0
  {
    if lines == [] {
    } else {
      NotCounted(lines[..|lines| - 1], i);
    }
  }
}
