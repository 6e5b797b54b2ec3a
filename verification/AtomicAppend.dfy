/** atomic_append.c: several processes add bytes to the end of one file, each
    either with O_APPEND, where seek-to-end and write are one atomic step
    (POSIX.1-2008, write), or with a separate lseek and write. */
module AtomicAppend {
  import opened FileIO
  import opened Runs
  import opened Sums
  import opened Actions

  const X: Byte := 120        // 'x'

  datatype Mode = Append | Lseek

  /** `At(offset)`: between the lseek, which found the end at `offset`, and the write. */
  datatype Position = Unknown | At(offset: nat)

  /** A process that wants to write `goal` bytes and has written some of them. */
  datatype Process = Process(mode: Mode, goal: nat, written: nat, pos: Position)

  datatype State = State(initial: seq<Byte>, file: seq<Byte>, procs: seq<Process>)

  /** The next system call of process `i`. */
  predicate Enabled(s: State, i: nat) {
    i < |s.procs| && s.procs[i].written < s.procs[i].goal
  }

  /** write(fd, "x", 1) at an offset. */
  function WriteAt(file: seq<Byte>, offset: nat): seq<Byte> {
    Put(file, offset, X)
  }

  function Apply(s: State, i: nat): State
    requires Enabled(s, i)
  {
    var p := s.procs[i];
    if p.mode == Append then
      s.(file := WriteAt(s.file, |s.file|), procs := s.procs[i := p.(written := p.written + 1)])
    else if p.pos == Unknown then
      s.(procs := s.procs[i := p.(pos := At(|s.file|))])
    else
      s.(file := WriteAt(s.file, p.pos.offset), procs := s.procs[i := p.(written := p.written + 1, pos := Unknown)])
  }

  ghost predicate Step(s: State, t: State) {
    exists i :: Enabled(s, i) && t == Apply(s, i)
  }

  ghost predicate Init(s: State) {
    && s.file == s.initial
    && forall i :: 0 <= i < |s.procs| ==> s.procs[i].written == 0 && s.procs[i].pos == Unknown
  }

  predicate Finished(s: State) {
    forall i :: 0 <= i < |s.procs| ==> s.procs[i].written == s.procs[i].goal
  }

  function Written(p: Process): nat { p.written }

  function Appended(p: Process): nat { if p.mode == Append then p.written else 0 }

  function Goal(p: Process): nat { p.goal }

  function AppendGoal(p: Process): nat { if p.mode == Append then p.goal else 0 }

  /** What one process knows: its own bytes have each made the file longer than
      the offset it started them from. */
  ghost predicate ProcessInv(s: State, p: Process) {
    && p.written <= p.goal
    && |s.initial| + p.written <= |s.file|
    && (p.pos.At? ==> |s.initial| + p.written <= p.pos.offset <= |s.file| && p.mode == Lseek)
  }

  ghost predicate Contents(s: State) {
    && s.initial <= s.file
    && forall k :: |s.initial| <= k < |s.file| ==> s.file[k] == X
  }

  ghost predicate Inv(s: State) {
    && Contents(s)
    && (forall i :: 0 <= i < |s.procs| ==> ProcessInv(s, s.procs[i]))
    && |s.initial| + Sum(Appended, s.procs) <= |s.file| <= |s.initial| + Sum(Written, s.procs)
  }

  /** A write between the initial contents and the end of the file. */
  lemma {:induction false} WriteKeepsContents(s: State, offset: nat)
    requires Contents(s) && |s.initial| <= offset <= |s.file|
    ensures Contents(s.(file := WriteAt(s.file, offset)))
    ensures |WriteAt(s.file, offset)| == if offset == |s.file| then |s.file| + 1 else |s.file|
  {
  }

  lemma {:induction false} StepKeepsInv(s: State, i: nat)
    requires Inv(s) && Enabled(s, i)
    ensures Inv(Apply(s, i))
  {
    var t := Apply(s, i);
    assert ProcessInv(s, s.procs[i]);
    if s.procs[i].mode == Append {
      WriteKeepsContents(s, |s.file|);
    } else if s.procs[i].pos.At? {
      WriteKeepsContents(s, s.procs[i].pos.offset);
    }
    SumUpdate(Appended, s.procs, i, t.procs[i]);
    SumUpdate(Written, s.procs, i, t.procs[i]);
    forall k | 0 <= k < |t.procs| ensures ProcessInv(t, t.procs[k]) {
      assert ProcessInv(s, s.procs[k]);
    }
  }

  lemma {:induction false} InitSums(procs: seq<Process>)
    requires forall i :: 0 <= i < |procs| ==> procs[i].written == 0
    ensures Sum(Written, procs) == 0 && Sum(Appended, procs) == 0
  {
    if procs == [] {
    } else {
      InitSums(procs[..|procs| - 1]);
    }
  }

  /** What no step changes: the processes' modes and goals. */
  ghost predicate SamePlan(s: State, t: State) {
    && s.initial == t.initial && |s.procs| == |t.procs|
    && forall i :: 0 <= i < |s.procs| ==> s.procs[i].mode == t.procs[i].mode && s.procs[i].goal == t.procs[i].goal
  }

  lemma {:induction false} EveryRunInv(run: seq<State>, k: nat)
    requires IsRun(Init, Step, run) && k < |run|
    ensures Inv(run[k]) && SamePlan(run[0], run[k])
  {
    var same := s => SamePlan(run[0], s);
    forall s, t | same(s) && Step(s, t) ensures same(t) {
      var i :| Enabled(s, i) && t == Apply(s, i);
    }
    Invariance(s => s == run[0], Step, same, run);
    assert same(run[k]);
    forall s, t | Inv(s) && Step(s, t) ensures Inv(t) {
      var i :| Enabled(s, i) && t == Apply(s, i);
      StepKeepsInv(s, i);
    }
    forall s | Init(s) ensures Inv(s) {
      InitSums(s.procs);
      assert forall i :: 0 <= i < |s.procs| ==> ProcessInv(s, s.procs[i]);
    }
    Invariance(Init, Step, Inv, run);
  }

  /** Any mix of modes, any interleaving: the initial contents are never altered,
      only x's follow them, and when all are done the file has grown by at least
      every single n_i, at least what was appended with O_APPEND, and at most the sum
      of all n_i. */
  lemma {:induction false} SizeBounds(run: seq<State>, k: nat)
    requires IsRun(Init, Step, run) && k < |run|
    ensures run[0].file <= run[k].file
    ensures forall i :: |run[0].file| <= i < |run[k].file| ==> run[k].file[i] == X
    ensures Finished(run[k]) ==>
              && |run[k].file| <= |run[0].file| + Sum(Goal, run[0].procs)
              && |run[k].file| >= |run[0].file| + Sum(AppendGoal, run[0].procs)
              && forall i :: 0 <= i < |run[0].procs| ==> |run[k].file| >= |run[0].file| + run[0].procs[i].goal
  {
    EveryRunInv(run, k);
    var s := run[k];
    if Finished(s) {
      SumsMatch(Written, Goal, s.procs, run[0].procs);
      SumsMatch(Appended, AppendGoal, s.procs, run[0].procs);
      forall i | 0 <= i < |s.procs| ensures |s.file| >= |s.initial| + s.procs[i].goal {
        assert ProcessInv(s, s.procs[i]);
      }
    }
  }

  /** With O_APPEND everywhere nothing is lost: at every moment the file is the
      initial contents and one x for each write made, whatever the interleaving. */
  lemma {:induction false} AppendLosesNothing(run: seq<State>, k: nat)
    requires IsRun(Init, Step, run) && k < |run|
    requires forall i :: 0 <= i < |run[0].procs| ==> run[0].procs[i].mode == Append
    ensures run[k].file == run[0].file + seq(Sum(Written, run[k].procs), _ => X)
    ensures Finished(run[k]) ==> |run[k].file| == |run[0].file| + Sum(Goal, run[0].procs)
  {
    EveryRunInv(run, k);
    var s := run[k];
    SumsMatch(Written, Appended, s.procs, s.procs);
    if Finished(s) {
      SumsMatch(Written, Goal, s.procs, run[0].procs);
    }
  }

  // ----- which writes make the file longer

  ghost predicate By(s: State, i: nat, t: State) {
    Enabled(s, i) && t == Apply(s, i)
  }

  /** Before system call `k` of the run, the last one of process `i` was number `j`. */
  predicate LastMove(acts: seq<nat>, i: nat, j: nat, k: nat) {
    j < k <= |acts| && acts[j] == i && forall m :: j < m < k ==> acts[m] != i
  }

  /** System call `k` is a write at the end of the file, as it is then: always with
      O_APPEND, and otherwise if the file is as long as it was at the lseek before. */
  ghost predicate AtEnd(run: seq<State>, acts: seq<nat>, k: nat)
    requires |run| == |acts| + 1 && k < |acts|
  {
    var i := acts[k];
    && i < |run[k].procs| == |run[k + 1].procs|
    && run[k + 1].procs[i].written > run[k].procs[i].written
    && (run[k].procs[i].mode == Append || exists j: nat :: LastMove(acts, i, j, k) && |run[j].file| == |run[k].file|)
  }

  lemma {:induction false} ActionsAreRun(run: seq<State>, acts: seq<nat>)
    requires Performs(By, acts, run) && Init(run[0])
    ensures IsRun(Init, Step, run)
  {
    forall i, j | 0 <= i && j == i + 1 < |run| ensures Step(run[i], run[j]) {
      assert By(run[i], acts[i], run[j]);
    }
  }

  /** The offset a process writes at is where the file ended at its last lseek. */
  lemma {:induction false} SoughtTheEnd(run: seq<State>, acts: seq<nat>, i: nat, k: nat) returns (j: nat)
    requires Performs(By, acts, run) && Init(run[0]) && k <= |acts|
    requires i < |run[k].procs| && run[k].procs[i].pos.At?
    ensures LastMove(acts, i, j, k) && run[k].procs[i].pos.offset == |run[j].file|
  {
    ActionsAreRun(run, acts);
    EveryRunInv(run, k);
    assert ProcessInv(run[k], run[k].procs[i]);
    assert By(run[k - 1], acts[k - 1], run[k]);
    if acts[k - 1] == i {
      j := k - 1;
    } else {
      j := SoughtTheEnd(run, acts, i, k - 1);
    }
  }

  /** A system call makes the file longer, by one byte, exactly if it is a write at
      the end. */
  lemma {:induction false} GrowsExactly(run: seq<State>, acts: seq<nat>, k: nat)
    requires Performs(By, acts, run) && Init(run[0]) && k < |acts|
    ensures |run[k + 1].file| == |run[k].file| + Bit(AtEnd(run, acts, k))
  {
    ActionsAreRun(run, acts);
    EveryRunInv(run, k);
    var s, i := run[k], acts[k];
    assert By(s, i, run[k + 1]);
    assert ProcessInv(s, s.procs[i]);
    if s.procs[i].pos.At? {
      var j := SoughtTheEnd(run, acts, i, k);
      assert forall m :: LastMove(acts, i, m, k) ==> m == j;
      WriteKeepsContents(s, s.procs[i].pos.offset);
    }
  }

  ghost function GrowingWrites(run: seq<State>, acts: seq<nat>, k: nat): nat
    requires |run| == |acts| + 1 && k <= |acts|
  {
    if k == 0 then 0 else GrowingWrites(run, acts, k - 1) + Bit(AtEnd(run, acts, k - 1))
  }

  /** So the file has grown by the number of writes made at its end. */
  lemma {:induction false} GrowthIsWritesAtEnd(run: seq<State>, acts: seq<nat>, k: nat)
    requires Performs(By, acts, run) && Init(run[0]) && k <= |acts|
    ensures |run[k].file| == |run[0].file| + GrowingWrites(run, acts, k)
  {
    if k == 0 {
    } else {
      GrowthIsWritesAtEnd(run, acts, k - 1);
      GrowsExactly(run, acts, k - 1);
    }
  }

  // ----- every size between the bounds is reached

  function Left(p: Process): nat { if p.written < p.goal then p.goal - p.written else 0 }

  function AppendLeft(p: Process): nat { if p.mode == Append then Left(p) else 0 }

  /** No process is between its lseek and its write. */
  ghost predicate AtRest(s: State) {
    forall i :: 0 <= i < |s.procs| ==> s.procs[i].pos == Unknown && s.procs[i].written <= s.procs[i].goal
  }

  predicate Seeks(p: Process) {
    p.mode == Lseek && p.written < p.goal
  }

  function Sought(p: Process, end: nat): Process {
    if Seeks(p) then p.(pos := At(end)) else p
  }

  function Wrote(p: Process): Process {
    if Seeks(p) then p.(written := p.written + 1, pos := Unknown) else p
  }

  /** The first `i` processes that use lseek have done so. */
  function Seeking(s: State, i: nat): State {
    s.(procs := seq(|s.procs|, k requires 0 <= k < |s.procs| => if k < i then Sought(s.procs[k], |s.file|) else s.procs[k]))
  }

  predicate SomeSeeks(procs: seq<Process>, i: nat) {
    exists k :: 0 <= k < i && k < |procs| && Seeks(procs[k])
  }

  /** All have done their lseek, to `end`, and the first `i` have written. */
  function Writing(s: State, end: nat, i: nat): State
    requires end <= |s.file|
  {
    s.(file := if SomeSeeks(s.procs, i) then s.file[..end] + [X] else s.file,
    procs := seq(|s.procs|, k requires 0 <= k < |s.procs| => if k < i then Wrote(s.procs[k]) else Sought(s.procs[k], end)))
  }

  lemma {:induction false} SeekOne(s: State, i: nat)
    requires AtRest(s) && i < |s.procs|
    ensures Seeking(s, i) == Seeking(s, i + 1) || Step(Seeking(s, i), Seeking(s, i + 1))
  {
    var t, u := Seeking(s, i), Seeking(s, i + 1);
    if Seeks(s.procs[i]) {
      assert u.procs == t.procs[i := Sought(s.procs[i], |s.file|)];
      assert Enabled(t, i) && u == Apply(t, i);
    } else {
      assert u.procs == t.procs;
    }
  }

  /** The file ends at `end`, or one x behind it. */
  ghost predicate EndsAt(s: State, end: nat) {
    |s.file| == end || (|s.file| == end + 1 && s.file[end] == X)
  }

  lemma {:induction false} WriteOne(s: State, end: nat, i: nat)
    requires AtRest(s) && EndsAt(s, end) && i < |s.procs|
    ensures Writing(s, end, i) == Writing(s, end, i + 1) || Step(Writing(s, end, i), Writing(s, end, i + 1))
  {
    var t, u := Writing(s, end, i), Writing(s, end, i + 1);
    if Seeks(s.procs[i]) {
      assert u.procs == t.procs[i := Wrote(s.procs[i])];
      assert u.file == WriteAt(t.file, end);
      assert Enabled(t, i) && u == Apply(t, i);
    } else {
      assert u.procs == t.procs;
      assert SomeSeeks(s.procs, i + 1) == SomeSeeks(s.procs, i);
    }
  }

  lemma {:induction false} SeekAll(s: State)
    requires AtRest(s)
    ensures Reaches(Step, s, Seeking(s, |s.procs|))
  {
    var n := |s.procs|;
    var stages := seq(n + 1, i requires 0 <= i <= n => Seeking(s, i));
    assert stages[0].procs == s.procs;
    forall i, j | 0 <= i && j == i + 1 < |stages| ensures stages[i] == stages[j] || Step(stages[i], stages[j]) {
      SeekOne(s, i);
    }
    ReachesLast(Step, stages);
  }

  lemma {:induction false} WriteAll(s: State, end: nat)
    requires AtRest(s) && EndsAt(s, end)
    ensures Reaches(Step, Writing(s, end, 0), Writing(s, end, |s.procs|))
  {
    var n := |s.procs|;
    var stages := seq(n + 1, i requires 0 <= i <= n => Writing(s, end, i));
    forall i, j | 0 <= i && j == i + 1 < |stages| ensures stages[i] == stages[j] || Step(stages[i], stages[j]) {
      WriteOne(s, end, i);
    }
    ReachesLast(Step, stages);
  }

  predicate CanAppend(procs: seq<Process>, a: nat) {
    a < |procs| && procs[a].mode == Append && procs[a].written < procs[a].goal
  }

  /** The state after process `a`, if it is one that can, has appended a byte. */
  function AfterAppend(s: State, a: nat): State {
    if CanAppend(s.procs, a) then Apply(s, a) else s
  }

  /** A round in which everything is written at one offset: all do their lseek, process
      `a` appends, and all write. */
  function Round(s: State, a: nat): State {
    Writing(AfterAppend(s, a), |s.file|, |s.procs|)
  }

  lemma {:induction false} AppendBetween(s: State, a: nat)
    requires AtRest(s)
    ensures var n := |s.procs|; Reaches(Step, Seeking(s, n), Writing(AfterAppend(s, a), |s.file|, 0))
  {
    var n := |s.procs|;
    var t, u := Seeking(s, n), Writing(AfterAppend(s, a), |s.file|, 0);
    ReachesSelf(Step, t);
    if CanAppend(s.procs, a) {
      assert u.procs == t.procs[a := AfterAppend(s, a).procs[a]];
      assert Enabled(t, a) && u == Apply(t, a);
      ReachesStep(Step, t, t, u);
    } else {
      assert u.procs == t.procs;
    }
  }

  /** A round makes the file one byte longer. */
  lemma {:induction false} RoundReached(s: State, a: nat)
    requires AtRest(s) && (CanAppend(s.procs, a) || SomeSeeks(s.procs, |s.procs|))
    ensures AtRest(Round(s, a)) && Reaches(Step, s, Round(s, a)) && Round(s, a).file == s.file + [X]
  {
    var n, mid := |s.procs|, AfterAppend(s, a);
    SeekAll(s);
    AppendBetween(s, a);
    ReachesTrans(Step, s, Seeking(s, n), Writing(mid, |s.file|, 0));
    WriteAll(mid, |s.file|);
    ReachesTrans(Step, s, Writing(mid, |s.file|, 0), Round(s, a));
    assert !CanAppend(s.procs, a) ==> mid == s && s.file[..|s.file|] == s.file;
  }

  /** One process on its own makes the file one byte longer. */
  lemma {:induction false} AloneReached(s: State, i: nat) returns (t: State)
    requires AtRest(s) && Enabled(s, i)
    ensures Reaches(Step, s, t) && t == s.(file := s.file + [X], procs := s.procs[i := s.procs[i].(written := s.procs[i].written + 1)])
  {
    ReachesSelf(Step, s);
    var u := Apply(s, i);
    assert Step(s, u);
    ReachesStep(Step, s, s, u);
    if s.procs[i].mode == Append {
      t := u;
    } else {
      assert Enabled(u, i);
      t := Apply(u, i);
      assert Step(u, t);
      ReachesStep(Step, s, u, t);
      assert t.procs == s.procs[i := s.procs[i].(written := s.procs[i].written + 1)];
    }
  }

  /** What remains to be written with O_APPEND, and by each process, is at most `g`. */
  ghost predicate Low(procs: seq<Process>, g: nat) {
    Sum(AppendLeft, procs) <= g && forall i :: 0 <= i < |procs| ==> Left(procs[i]) <= g
  }

  lemma {:induction false} SomePositive<T>(f: T -> nat, s: seq<T>) returns (i: nat)
    requires Sum(f, s) > 0
    ensures i < |s| && f(s[i]) > 0
  {
    var k := |s| - 1;
    if f(s[k]) > 0 {
      i := k;
    } else {
      i := SomePositive(f, s[..k]);
    }
  }

  lemma {:induction false} RoundSums(s: State, a: nat)
    requires AtRest(s) && (CanAppend(s.procs, a) || Sum(AppendLeft, s.procs) == 0)
    ensures Sum(AppendLeft, Round(s, a).procs) == Sum(AppendLeft, s.procs) - Bit(CanAppend(s.procs, a))
  {
    var mid := AfterAppend(s, a);
    if CanAppend(s.procs, a) {
      SumUpdate(AppendLeft, s.procs, a, mid.procs[a]);
    }
    SumsMatch(AppendLeft, AppendLeft, mid.procs, Round(s, a).procs);
  }

  /** Process `a` is the one to append in a round: any that can, if there is one. */
  ghost predicate Appender(s: State, a: nat) {
    AtRest(s) && (CanAppend(s.procs, a) || Sum(AppendLeft, s.procs) == 0)
  }

  /** What a round leaves to each process. */
  lemma {:induction false} RoundLeaves(s: State, a: nat, g: nat, i: nat)
    requires Appender(s, a) && g > 0 && Low(s.procs, g) && i < |s.procs|
    ensures Left(Round(s, a).procs[i]) <= g - 1
    ensures Left(s.procs[i]) <= Left(Round(s, a).procs[i]) + 1
  {
    RoundSums(s, a);
    if s.procs[i].mode == Append {
      SumAtLeast(AppendLeft, Round(s, a).procs, i);
      SumAtLeast(AppendLeft, s.procs, i);
    }
  }

  /** When `g` is the least growth possible, a round leaves `g` - 1, which is again
      possible. */
  lemma {:induction false} RoundFits(s: State, a: nat, g: nat)
    requires Appender(s, a) && g > 0 && Low(s.procs, g) && !Low(s.procs, g - 1)
    ensures CanAppend(s.procs, a) || SomeSeeks(s.procs, |s.procs|)
    ensures Low(Round(s, a).procs, g - 1) && g - 1 <= Sum(Left, Round(s, a).procs)
  {
    var now := Round(s, a).procs;
    RoundSums(s, a);
    forall i | 0 <= i < |now| ensures Left(now[i]) <= g - 1 {
      RoundLeaves(s, a, g, i);
    }
    if i :| 0 <= i < |s.procs| && Left(s.procs[i]) == g {
      RoundLeaves(s, a, g, i);
      SumAtLeast(Left, now, i);
      if s.procs[i].mode == Append {
        SumAtLeast(AppendLeft, s.procs, i);
      } else {
        assert Seeks(s.procs[i]);
      }
    } else {
      SumMonotone(AppendLeft, Left, now);
    }
  }

  lemma {:induction false} SomeAppender(s: State) returns (a: nat)
    requires AtRest(s)
    ensures Appender(s, a)
  {
    a := |s.procs|;
    if Sum(AppendLeft, s.procs) > 0 {
      a := SomePositive(AppendLeft, s.procs);
    }
  }

  /** What one process writes alone leaves `g` - 1 possible. */
  lemma {:induction false} AloneFits(s: State, i: nat, t: State, g: nat)
    requires AtRest(s) && Enabled(s, i) && g > 0 && Low(s.procs, g - 1) && g <= Sum(Left, s.procs)
    requires t == s.(file := s.file + [X], procs := s.procs[i := s.procs[i].(written := s.procs[i].written + 1)])
    ensures AtRest(t) && Low(t.procs, g - 1) && g - 1 <= Sum(Left, t.procs)
  {
    SumUpdate(Left, s.procs, i, t.procs[i]);
    SumUpdate(AppendLeft, s.procs, i, t.procs[i]);
  }

  /** Any growth from the larger of the O_APPEND bytes and the longest single request
      up to the sum of all requests is reached: alone while there is room, then in
      rounds. */
  lemma {:induction false} GrowthReached(s: State, g: nat) returns (t: State)
    requires AtRest(s) && Low(s.procs, g) && g <= Sum(Left, s.procs)
    ensures Reaches(Step, s, t) && Finished(t) && |t.file| == |s.file| + g
    decreases g
  {
    if g == 0 {
      t := s;
      ReachesSelf(Step, s);
    } else {
      var u;
      if Low(s.procs, g - 1) {
        var i := SomePositive(Left, s.procs);
        u := AloneReached(s, i);
        AloneFits(s, i, u, g);
      } else {
        var a := SomeAppender(s);
        RoundFits(s, a, g);
        RoundReached(s, a);
        u := Round(s, a);
      }
      t := GrowthReached(u, g - 1);
      ReachesTrans(Step, s, u, t);
    }
  }

  /** At least what is appended with O_APPEND and at least each single request, at most
      all requests together. */
  ghost predicate WithinBounds(procs: seq<Process>, g: nat) {
    && Sum(AppendGoal, procs) <= g <= Sum(Goal, procs)
    && forall i :: 0 <= i < |procs| ==> procs[i].goal <= g
  }

  lemma {:induction false} InitIsLow(s: State, g: nat)
    requires Init(s) && WithinBounds(s.procs, g)
    ensures AtRest(s) && Low(s.procs, g) && g <= Sum(Left, s.procs)
  {
    SumsMatch(Left, Goal, s.procs, s.procs);
    SumsMatch(AppendLeft, AppendGoal, s.procs, s.procs);
  }

  /** For any number of processes, any mix of modes and all n_i: the file can end up
      `g` bytes longer exactly if `g` is within these bounds. */
  lemma {:induction false} SizesExactly(s: State, g: nat)
    requires Init(s)
    ensures (exists t :: Reaches(Step, s, t) && Finished(t) && |t.file| == |s.file| + g) <==> WithinBounds(s.procs, g)
  {
    if WithinBounds(s.procs, g) {
      InitIsLow(s, g);
      var t := GrowthReached(s, g);
    }
    forall t | Reaches(Step, s, t) && Finished(t) && |t.file| == |s.file| + g ensures WithinBounds(s.procs, g) {
      var run :| Leads(Step, s, t, run);
      SizeBounds(run, |run| - 1);
    }
  }

  // ----- the race with lseek only

  /** `k` is the largest number of bytes any process wants to write. */
  ghost predicate IsMaxGoal(procs: seq<Process>, k: nat) {
    && (forall i :: 0 <= i < |procs| ==> procs[i].goal <= k)
    && (k > 0 ==> exists i :: 0 <= i < |procs| && procs[i].goal == k)
  }

  ghost predicate AllLseek(s: State) {
    forall i :: 0 <= i < |s.procs| ==> s.procs[i].mode == Lseek
  }

  lemma {:induction false} NothingAppended(procs: seq<Process>)
    requires forall i :: 0 <= i < |procs| ==> procs[i].mode == Lseek
    ensures Sum(AppendGoal, procs) == 0
  {
    if procs == [] {
    } else {
      NothingAppended(procs[..|procs| - 1]);
    }
  }

  /** For every number of processes and all n_i, some interleaving of the lseek
      form leaves the file only max(n_i) bytes longer, and some other one loses nothing. */
  lemma {:induction false} LowerBoundIsReached(s: State, k: nat) returns (t: State, u: State)
    requires Init(s) && AllLseek(s) && IsMaxGoal(s.procs, k)
    ensures Reaches(Step, s, t) && Finished(t) && |t.file| == |s.initial| + k
    ensures Reaches(Step, s, u) && Finished(u) && |u.file| == |s.initial| + Sum(Goal, s.procs)
  {
    NothingAppended(s.procs);
    forall i | 0 <= i < |s.procs| ensures s.procs[i].goal <= Sum(Goal, s.procs) {
      SumAtLeast(Goal, s.procs, i);
    }
    SizesExactly(s, k);
    t :| Reaches(Step, s, t) && Finished(t) && |t.file| == |s.file| + k;
    SizesExactly(s, Sum(Goal, s.procs));
    u :| Reaches(Step, s, u) && Finished(u) && |u.file| == |s.file| + Sum(Goal, s.procs);
  }
}
