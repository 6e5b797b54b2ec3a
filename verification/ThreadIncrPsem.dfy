/** thread_incr_psem.c: threads that increment a shared counter through a local
    copy, inside a critical section guarded by a semaphore (POSIX.1-2008,
    sem_wait and sem_post). */
module ThreadIncrPsem {
  import opened Runs
  import opened Sums

  /** The next thing a thread does; `Loading`, `Storing` and `Posting` are inside
      the critical section. */
  datatype Pc = Acquiring | Loading | Storing | Posting | Finished

  datatype Thread = Thread(pc: Pc, j: nat, loc: int)

  datatype State = State(loops: nat, sem: nat, glob: int, threads: seq<Thread>)

  /** One action of thread `i`. */
  predicate Enabled(s: State, i: nat) {
    && i < |s.threads|
    && s.threads[i].pc != Finished
    && (s.threads[i].pc == Acquiring ==> s.sem > 0)
  }

  function Apply(s: State, i: nat): State
    requires Enabled(s, i)
  {
    var t := s.threads[i];
    match t.pc
    case Acquiring => s.(sem := s.sem - 1, threads := s.threads[i := t.(pc := Loading)])
    case Loading => s.(threads := s.threads[i := t.(loc := s.glob, pc := Storing)])
    case Storing => s.(glob := t.loc + 1, threads := s.threads[i := t.(loc := t.loc + 1, pc := Posting)])
    case Posting =>
      s.(sem := s.sem + 1,
      threads := s.threads[i := t.(j := t.j + 1, pc := if t.j + 1 < s.loops then Acquiring else Finished)])
  }

  ghost predicate Step(s: State, t: State) {
    exists i :: Enabled(s, i) && t == Apply(s, i)
  }

  ghost predicate Stuck(s: State) {
    forall i :: !Enabled(s, i)
  }

  /** As after sem_init, with the value 1, and pthread_create. */
  ghost predicate Init(s: State) {
    && s.loops > 0 && s.sem == 1 && s.glob == 0
    && forall i :: 0 <= i < |s.threads| ==> s.threads[i].pc == Acquiring && s.threads[i].j == 0
  }

  function Inside(t: Thread): nat {
    if t.pc in {Loading, Storing, Posting} then 1 else 0
  }

  /** Increments this thread has made visible. */
  function Stored(t: Thread): nat {
    t.j + if t.pc == Posting then 1 else 0
  }

  ghost predicate ThreadInv(s: State, t: Thread) {
    && t.j <= s.loops && (t.pc == Finished <==> t.j == s.loops)
    && (t.pc == Storing ==> t.loc == s.glob)
  }

  ghost predicate Inv(s: State) {
    && s.loops > 0
    && s.sem + Sum(Inside, s.threads) == 1
    && s.glob == Sum(Stored, s.threads)
    && forall i :: 0 <= i < |s.threads| ==> ThreadInv(s, s.threads[i])
  }

  /** With the semaphore accounted for, two threads are never inside together. */
  lemma {:induction false} MutualExclusion(threads: seq<Thread>, i: nat, j: nat)
    requires Sum(Inside, threads) <= 1
    requires i < j < |threads|
    ensures Inside(threads[i]) + Inside(threads[j]) <= 1
  {
    var k := |threads| - 1;
    if j == k {
      SumAtLeast(Inside, threads[..k], i);
    } else {
      MutualExclusion(threads[..k], i, j);
    }
  }

  lemma {:induction false} StepKeepsInv(s: State, i: nat)
    requires Inv(s) && Enabled(s, i)
    ensures Inv(Apply(s, i))
  {
    var t := Apply(s, i);
    SumUpdate(Inside, s.threads, i, t.threads[i]);
    SumUpdate(Stored, s.threads, i, t.threads[i]);
    forall k | 0 <= k < |t.threads| ensures ThreadInv(t, t.threads[k]) {
      assert ThreadInv(s, s.threads[k]);
      if k < i {
        MutualExclusion(s.threads, k, i);
      } else if i < k {
        MutualExclusion(s.threads, i, k);
      }
    }
  }

  lemma {:induction false} InitSums(threads: seq<Thread>)
    requires forall i :: 0 <= i < |threads| ==> threads[i].pc == Acquiring && threads[i].j == 0
    ensures Sum(Inside, threads) == 0 && Sum(Stored, threads) == 0 && Sum(Steps, threads) == 0
  {
    if threads == [] {
    } else {
      InitSums(threads[..|threads| - 1]);
    }
  }

  /** Steps a thread has taken so far: four for each finished pass of its loop. */
  function Steps(t: Thread): nat {
    4 * t.j + match t.pc
      case Acquiring => 0
      case Loading => 1
      case Storing => 2
      case Posting => 3
      case Finished => 0
  }

  lemma {:induction false} StepTakesOne(s: State, i: nat)
    requires Enabled(s, i)
    ensures Sum(Steps, Apply(s, i).threads) == Sum(Steps, s.threads) + 1
  {
    SumUpdate(Steps, s.threads, i, Apply(s, i).threads[i]);
  }

  /** No thread takes more than 4 * loops steps, and all have taken that many exactly
      if all have finished; then each has stored `loops` times. */
  lemma {:induction false} StepsOfAll(s: State)
    requires Inv(s)
    ensures Sum(Steps, s.threads) <= |s.threads| * (4 * s.loops)
    ensures Sum(Steps, s.threads) == |s.threads| * (4 * s.loops) <==> AllFinished(s)
    ensures AllFinished(s) ==> Sum(Stored, s.threads) == |s.threads| * s.loops
  {
    forall i | 0 <= i < |s.threads|
      ensures Steps(s.threads[i]) <= 4 * s.loops && Stored(s.threads[i]) <= s.loops
      ensures Steps(s.threads[i]) == 4 * s.loops <==> s.threads[i].pc == Finished
      ensures s.threads[i].pc == Finished ==> Stored(s.threads[i]) == s.loops
    {
      assert ThreadInv(s, s.threads[i]);
    }
    SumBounded(Steps, s.threads, 4 * s.loops);
    SumBounded(Stored, s.threads, s.loops);
  }

  predicate AllFinished(s: State) {
    forall i :: 0 <= i < |s.threads| ==> s.threads[i].pc == Finished
  }

  /** Only finished threads have nothing to do: the semaphore is never waited for in
      vain. */
  lemma {:induction false} StuckMeansFinished(s: State)
    requires Inv(s)
    ensures Stuck(s) <==> AllFinished(s)
  {
    if Stuck(s) {
      if s.sem == 0 {
        var i := SomeInside(s.threads);
        assert Enabled(s, i);
      }
      forall i | 0 <= i < |s.threads| ensures s.threads[i].pc == Finished {
        assert !Enabled(s, i);
      }
    }
  }

  /** A thread has to wait exactly if it is at the semaphore and another one is inside. */
  lemma {:induction false} WaitsExactly(s: State, i: nat)
    requires Inv(s) && i < |s.threads|
    ensures !Enabled(s, i) <==>
            || s.threads[i].pc == Finished
            || (s.threads[i].pc == Acquiring && exists k :: 0 <= k < |s.threads| && s.threads[k].pc in {Loading, Storing, Posting})
  {
    if s.sem == 0 {
      var k := SomeInside(s.threads);
    } else if k :| 0 <= k < |s.threads| && s.threads[k].pc in {Loading, Storing, Posting} {
      SumAtLeast(Inside, s.threads, k);
    }
  }

  lemma {:induction false} SomeInside(threads: seq<Thread>) returns (i: nat)
    requires Sum(Inside, threads) > 0
    ensures i < |threads| && Inside(threads[i]) == 1
  {
    var k := |threads| - 1;
    if Inside(threads[k]) == 1 {
      i := k;
    } else {
      i := SomeInside(threads[..k]);
    }
  }

  /** For every number of threads and every interleaving: the semaphore plus the
      threads inside is 1 and the counter is the number of stores made, after any
      number of steps. */
  lemma {:induction false} EveryRunSafe(run: seq<State>, i: nat)
    requires IsRun(Init, Step, run) && i < |run|
    ensures run[i].sem + Sum(Inside, run[i].threads) == 1
    ensures run[i].glob == Sum(Stored, run[i].threads)
    ensures |run[i].threads| == |run[0].threads| && run[i].loops == run[0].loops
    ensures Inv(run[i]) && Sum(Steps, run[i].threads) == i
  {
    if i == 0 {
      InitSums(run[0].threads);
    } else {
      EveryRunSafe(run, i - 1);
      NextSafe(run[i - 1], run[i]);
    }
  }

  lemma {:induction false} NextSafe(s: State, t: State)
    requires Inv(s) && Step(s, t)
    ensures Inv(t) && Sum(Steps, t.threads) == Sum(Steps, s.threads) + 1
    ensures |t.threads| == |s.threads| && t.loops == s.loops
  {
    var i :| Enabled(s, i) && t == Apply(s, i);
    StepKeepsInv(s, i);
    StepTakesOne(s, i);
  }

  /** No run of k threads has more than k * 4 * loops steps; it cannot go on exactly
      when it has that many, and then the counter is k * loops. */
  lemma {:induction false} EveryRunCounts(run: seq<State>)
    requires IsRun(Init, Step, run)
    ensures |run| - 1 <= |run[0].threads| * (4 * run[0].loops)
    ensures Stuck(run[|run| - 1]) <==> |run| - 1 == |run[0].threads| * (4 * run[0].loops)
    ensures Stuck(run[|run| - 1]) ==> run[|run| - 1].glob == |run[0].threads| * run[0].loops
  {
    var last := run[|run| - 1];
    EveryRunSafe(run, |run| - 1);
    StepsOfAll(last);
    StuckMeansFinished(last);
  }

  // ----- why the semaphore starts at 1

  /** Two threads at the same point of their loops, when the semaphore started at 2. */
  function Both(loops: nat, glob: int, pc: Pc, j: nat, loc: int): State {
    State(loops, if pc in {Loading, Storing, Posting} then 0 else 2, glob, [Thread(pc, j, loc), Thread(pc, j, loc)])
  }

  /** First one, then the other takes a step. */
  lemma {:induction false} EachMoves(s: State, t: State, u: State)
    requires Reaches(Step, s, t) && Enabled(t, 0) && Enabled(Apply(t, 0), 1) && u == Apply(Apply(t, 0), 1)
    ensures Reaches(Step, s, u)
  {
    assert Step(t, Apply(t, 0)) && Step(Apply(t, 0), u);
    ReachesStep(Step, s, t, Apply(t, 0));
    ReachesStep(Step, s, Apply(t, 0), u);
  }

  /** A pass of both loops in which both load the same value: one increment is lost. */
  lemma {:induction false} LosesOne(loops: nat, glob: int, j: nat, loc: int)
    requires j < loops
    ensures Reaches(Step, Both(loops, glob, Acquiring, j, loc),
                    Both(loops, glob + 1, if j + 1 < loops then Acquiring else Finished, j + 1, glob + 1))
  {
    var s := Both(loops, glob, Acquiring, j, loc);
    ReachesSelf(Step, s);
    EachMoves(s, s, Both(loops, glob, Loading, j, loc));
    EachMoves(s, Both(loops, glob, Loading, j, loc), Both(loops, glob, Storing, j, glob));
    EachMoves(s, Both(loops, glob, Storing, j, glob), Both(loops, glob + 1, Posting, j, glob + 1));
    EachMoves(s, Both(loops, glob + 1, Posting, j, glob + 1),
              Both(loops, glob + 1, if j + 1 < loops then Acquiring else Finished, j + 1, glob + 1));
  }

  lemma {:induction false} LosesHalf(loops: nat, j: nat)
    requires 0 < j <= loops
    ensures Reaches(Step, Both(loops, 0, Acquiring, 0, 0), Both(loops, j, if j < loops then Acquiring else Finished, j, j))
  {
    if j == 1 {
      LosesOne(loops, 0, 0, 0);
    } else {
      LosesHalf(loops, j - 1);
      LosesOne(loops, j - 1, j - 1, j - 1);
      ReachesTrans(Step, Both(loops, 0, Acquiring, 0, 0), Both(loops, j - 1, Acquiring, j - 1, j - 1),
                   Both(loops, j, if j < loops then Acquiring else Finished, j, j));
    }
  }

  /** With the semaphore at 2 in the beginning, two threads can lose half of their
      increments, for every number of passes. */
  lemma {:induction false} TwoInsideLoseHalf(loops: nat) returns (s: State, t: State)
    requires loops > 0
    ensures s.sem == 2 && Init(s.(sem := 1)) && |s.threads| == 2 && s.loops == loops
    ensures Reaches(Step, s, t) && AllFinished(t) && t.glob == loops
  {
    s, t := Both(loops, 0, Acquiring, 0, 0), Both(loops, loops, Finished, loops, loops);
    LosesHalf(loops, loops);
  }
}
