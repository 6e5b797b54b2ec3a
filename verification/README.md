# Verified models of the system-programming examples

The repository is a collection of small C programs about the Linux system interface.
This project models the ones with real state, loops or interleaving, in Dafny 4.11, and
proves what they promise. `dafny verify dfyconfig.toml` checks everything.

| modules | program | what is proved |
|---|---|---|
| `MultiSigchld` | `multi_SIGCHLD.c` | children are reaped through a signal that does not queue |
| `MessageQueue`, `MqNotifySig`, `MqNotifyThread` | `mq_notify_sig.c`, `mq_notify_thread.c` | a one-shot notification, re-armed before draining, strands no message |
| `PingPong` | `sig_speed_sigsuspend.c` | two processes pass one token through pending bits |
| `AtomicAppend` | `atomic_append.c` | appending, atomically or by seek and write |
| `Ranges`, `FifoSeqnum`, `IsSeqnum` | `fifo_seqnum_*.c`, `is_seqnum_sv.c` | ranges of sequence numbers are handed out without overlap, and to whom |
| `ThreadIncrPsem` | `thread_incr_psem.c` | a semaphore guards a counter |
| `FreeList`, `Arena`, `Allocator`, `SecondRound`, `AsWritten`, `AsWrittenRounds` | `po_malloc_free.c` | a first-fit allocator with an intrusive free list tiles the heap |
| `PsTree`, `PsTreeProgram` | `pstree.c` | a list becomes a forest, and what is printed is the one rendering of it |
| `Setenv` | `setenv.c` | the environment, compacted in place |
| `BenchmarkWrites`, `Decimal` | `benchmarkwrites.c` | a shuffle and a create/delete benchmark |
| `FileIO`, `ReadLine` | `read_line.c`, `read_line_buf.c` | the buffered reader equals the plain one |
| `VectorIO` | `vector_fileio.c` | scatter and gather on top of read and write |
| `Cpholes` | `cpholes.c` | a sparse copy |
| `AclText`, `AclList`, `AclUpdate` | `acl_update.c` | a text form that round-trips, a list that is a map |

`Runs`, `Actions`, `Sums`, `Sequences` and `Limits` hold what several models share: runs
of a transition system, invariants and measures over them, and reachability; the actions
that make a run; sums over sequences; options and removal; limits of the C types.

## How the models are built

**Protocols** are step relations: a state, actions that are enabled or not, and the
state after each action. A run is any sequence of states linked by steps, so a lemma
about every run covers every interleaving. Kernel objects (pending bit, signal mask,
message queue with its registration slot, file, FIFO, semaphore) are part of the state,
with the meaning given to them by POSIX.1-2008: section 2.4 of System Interfaces (Signal
Concepts) and the pages mq_notify, mq_receive, sigsuspend, waitpid, open, write, close and
sem_wait.

**Data structures and byte streams** are classes and methods with loops, proved against
functions on sequences and maps. Short reads and writes, interruptions, errors and the
values of `rand()` are left open in the model, so the results hold for all of them.

**The allocator.** `FreeList` has `ll_remove`, `ll_replace` and the push of `po_free`
exactly as written. `Arena` has the plan of the comments (lines 84-95 and 147-158).
`Allocator` carries the plan out on headers in memory and departs from the code in four
labelled places: (1) line 108 does not subtract the new header; (2) lines 105-109 never
set the allocated part's length; (3) line 175 stores the user pointer, not the header, as
the back link; (4) line 129 looks for a failing `sbrk` as NULL. `CutTilesExactly` shows
that (1) and (2) are both needed, and `FreeAsWritten` that (3) breaks every list that was
not empty. `AsWritten` has the code without corrections and shows where (3) leads: two
callers are given the same block. `AsWrittenRounds` runs the file's own test on it.

## Where the code and its description differ

The models follow the code, except that `Arena`, `Allocator` and `SecondRound` follow the
plan in the comments. Each difference is stated as a lemma or in a contract.

- `cpholes.c` always overwrites the last byte with NUL, and makes a one-byte copy of an
  empty source: `Cpholes.CopyEqualsSourceExactly`.
- `vector_fileio.c` says that after a failure the file pointer is unchanged. Of the vectors
  that are not refused, that holds, whatever the writes do, exactly for those whose areas
  but the last are empty and whose last is at most INT_MAX long:
  `VectorIO.FailsCleanlyExactly`, with a failing call in `VectorIO.FailsAfterWriting`.
- The same file's length check accepts a vector that is too long exactly if its sums escape
  the check and one area is longer than 2^63 bytes (`VectorIO.AcceptedWronglyExactly`), and
  its `int` counters miscount areas above INT_MAX (`VectorIO.CountsExactly`).
- `po_malloc_free.c` expects the break not to move when the same sizes are allocated
  again. In its own test it does, in the code as written
  (`AsWrittenRounds.OwnTestMovesAsWritten`) as well as under the planned steps.
  `SecondRound` settles the planned steps for all sizes in any order: `StaysExactly` says
  when the break stays, as a first-fit packing of the sizes into themselves backwards, and
  three lemmas give short conditions. The code as written differs from the plan here, too:
  `AsWrittenRounds.ZeroThenLong`.
- `fifo_seqnum_client.c` tolerates a FIFO left behind by a killed process with its id, and
  may then be told the range of that process: `FifoSeqnum.ItsOwnExactly`. Until that
  happens, the server waits for a reader of that FIFO and serves nobody:
  `FifoSeqnum.HangsForEverybody`.
- `is_seqnum_sv.c` hands numbers out twice once more than 2^32 were asked for:
  `IsSeqnum.DisjointExactly`.
- `acl_update.c` accepts any numeral up to LONG_MAX as a user or group number and reduces
  it modulo 2^32: `AclText.NumeralParses`.
- `mq_notify_sig.c` and `mq_notify_thread.c` never read anything if the queue holds
  messages when they first register: the two `BacklogIsNeverRead` lemmas.
- `benchmarkwrites.c` is meant to create 1-byte files, but opens them without write
  access, so they stay empty: `BenchmarkWrites.CreateAll`.

## Model

| member | source | states |
|---|---|---|
| `MultiSigchld.StepKeepsInv` | tlpi-dist/procexec/multi_SIGCHLD.c:26-111 | every step of parent, handler or child, whether waitpid clears a pending SIGCHLD or not, keeps the invariant: a dead unreaped child while the handler is outside its waitpid loop means SIGCHLD is pending, numLiveChildren is N minus the reaped, and every signal taken was set by a death |
| `MultiSigchld.StepLowersMeasure` | tlpi-dist/procexec/multi_SIGCHLD.c:41-111 | every step lowers a bound on the steps left, so no schedule runs forever |
| `MultiSigchld.EveryRunSafe` | tlpi-dist/procexec/multi_SIGCHLD.c:26-111 | for every N and interleaving: the pending-bit property, the value of numLiveChildren, sigCnt at most N, and the loop over only when all are reaped |
| `MultiSigchld.NeverStuck` | tlpi-dist/procexec/multi_SIGCHLD.c:104-111 | a state that is not finished always has a step; a parent suspended with nothing pending still has a running child |
| `MultiSigchld.DoneMeansAllReaped` | tlpi-dist/procexec/multi_SIGCHLD.c:107-114 | when the loop ends all N children exist and are reaped, numLiveChildren is 0 and between 1 and N signals were counted |
| `MultiSigchld.EveryRunEndsReaped` | tlpi-dist/procexec/multi_SIGCHLD.c:57-114 | total correctness under every scheduler: at most 21N + 5 steps, and a run that cannot go on has reaped all N |
| `MultiSigchld.CountsDeliveries` | tlpi-dist/procexec/multi_SIGCHLD.c:39-55 | on every run sigCnt is the number of signals delivered, less one while the last is being handled |
| `MultiSigchld.PendingExactly` | tlpi-dist/procexec/multi_SIGCHLD.c:86-111 | on every run SIGCHLD is pending if and only if some child has died since the signal was last delivered or cleared by waitpid |
| `MultiSigchld.ParentWaitsExactly` | tlpi-dist/procexec/multi_SIGCHLD.c:93-111 | the parent has to wait for a death if and only if it has finished or is in sigsuspend with nothing pending; a running child can die at any time |
| `MultiSigchld.SignalsExactly` | tlpi-dist/procexec/multi_SIGCHLD.c:104-114 | N children can be reaped with k signals if and only if k is from 1 to N, children dying after the handler's last waitpid included |
| `MultiSigchld.OneWaitGetsStuck` | tlpi-dist/procexec/multi_SIGCHLD.c:39-46 | the loop is needed: with one waitpid call per signal, for every N of at least 2 some run leaves the parent suspended forever with N - 1 zombies |
| `MessageQueue.Next` | tlpi-dist/pmsg/mq_notify_sig.c:91-92 | the position of the oldest of the messages with the highest priority |
| `MessageQueue.ReceiveDelivers` | tlpi-dist/pmsg/mq_notify_sig.c:91-92 | mq_receive delivers a message such that none queued has a higher priority and none of its priority is older, and changes nothing else |
| `MessageQueue.ArriveConserves` | tlpi-dist/pmsg/mq_notify_sig.c:91-92 | an arriving message keeps received + queued == sent, as multisets and, in order, within every priority |
| `MessageQueue.ReceiveConserves` | tlpi-dist/pmsg/mq_notify_sig.c:91-92 | so does a received message |
| `MessageQueue.EmptyMeansAllReceived` | tlpi-dist/pmsg/mq_notify_sig.c:91-95 | with the queue empty everything sent has been received, each priority in its order |
| `MessageQueue.OnePriorityInOrder` | tlpi-dist/pmsg/mq_notify_sig.c:91-92 | with one priority only, received is sent, in order |
| `MqNotifySig.StepKeepsInv` | tlpi-dist/pmsg/mq_notify_sig.c:83-96 | every arrival and every step of the loop keeps the invariant that ties registration, pending signal and queue together |
| `MqNotifySig.EveryRunSafe` | tlpi-dist/pmsg/mq_notify_sig.c:61-96 | from an empty queue, at sigsuspend either the registration is live and the queue empty or the signal is pending; mq_notify never finds a registration; a waiting program has received everything sent, in order within each priority |
| `MqNotifySig.DrainsInBoundedTime` | tlpi-dist/pmsg/mq_notify_sig.c:83-96 | between arrivals the program takes at most queue length + 7 steps, so it always gets back to waiting |
| `MqNotifySig.SentIsArrivals` | tlpi-dist/pmsg/mq_notify_sig.c:83-96 | on every run what was sent is, in order, what arrived, and one message was received for each successful mq_receive |
| `MqNotifySig.EachIsNext` | tlpi-dist/pmsg/mq_notify_sig.c:91-92 | on every run each message received was at that moment the oldest of the highest priority |
| `MqNotifySig.DrainsByPriority` | tlpi-dist/pmsg/mq_notify_sig.c:91-92 | on every run between arrivals messages are received by falling priority, and none queued should have come earlier |
| `MqNotifySig.CatchesUp` | tlpi-dist/pmsg/mq_notify_sig.c:83-96 | at any moment of any run any messages can arrive, and the program can then receive everything sent |
| `MqNotifySig.StrandedForever` | tlpi-dist/pmsg/mq_notify_sig.c:83-96 | once waiting with a live registration and a non-empty queue, nothing is ever received again, whatever arrives, and all that is queued stays |
| `MqNotifySig.BacklogIsNeverRead` | tlpi-dist/pmsg/mq_notify_sig.c:78-84 | the empty queue at first registration is necessary: with a backlog every run receives nothing |
| `MqNotifySig.DrainFirstStrandsExactly` | tlpi-dist/pmsg/mq_notify_sig.c:84-95 | with the drain moved before line 88, a run is stranded exactly if some message slipped in between drain and registration |
| `MqNotifySig.DrainFirstLosesMessages` | tlpi-dist/pmsg/mq_notify_sig.c:84-95 | such a run exists for any two messages, from an empty queue |
| `MqNotifyThread.StepKeepsInv` | tlpi-dist/pmsg/mq_notify_thread.c:24-71 | with any number of threads, every step keeps the registration a single token held by the slot or by the one thread about to restore it, and a non-empty queue has a thread that has not seen EAGAIN |
| `MqNotifyThread.EveryRunSafe` | tlpi-dist/pmsg/mq_notify_thread.c:24-87 | for every interleaving from an empty queue: a non-empty queue has an active thread, mq_notify never meets a live registration, and when no thread can move all messages were received, in order within each priority |
| `MqNotifyThread.WaitingIsDrained` | tlpi-dist/pmsg/mq_notify_thread.c:48-55 | when no thread can move, everything sent has been received and the slot is armed |
| `MqNotifyThread.DrainsInBoundedTime` | tlpi-dist/pmsg/mq_notify_thread.c:44-56 | between arrivals all threads together take at most one step per queued message plus two per thread |
| `MqNotifyThread.SentIsArrivals` | tlpi-dist/pmsg/mq_notify_thread.c:48-55 | on every run what was sent is what arrived, and one message was received for each successful mq_receive of any thread |
| `MqNotifyThread.EachIsNext` | tlpi-dist/pmsg/mq_notify_thread.c:48-50 | on every run each message received, by whatever thread, was the oldest of the highest priority |
| `MqNotifyThread.CatchesUp` | tlpi-dist/pmsg/mq_notify_thread.c:24-71 | at any moment of any run any messages can arrive, and the threads can then receive everything sent |
| `MqNotifyThread.BacklogIsNeverRead` | tlpi-dist/pmsg/mq_notify_thread.c:73-87 | with messages queued at first registration no thread ever starts and nothing is received |
| `PingPong.StepKeepsInv` | tlpi-dist/signals/sig_speed_sigsuspend.c:64-91 | every kill or sigsuspend step keeps the single-token invariant and advances the state's own clock by one |
| `PingPong.EveryRunSafe` | tlpi-dist/signals/sig_speed_sigsuspend.c:64-91 | on every run exactly one token exists until both are finished; the process a signal is sent to has none pending and is in sigsuspend, so that the signal wakes it; state i is exactly i steps in |
| `PingPong.OneMover` | tlpi-dist/signals/sig_speed_sigsuspend.c:71-91 | at most one action is possible in any state, and none exactly when both loops are finished |
| `PingPong.EveryRunFinishes` | tlpi-dist/signals/sig_speed_sigsuspend.c:74-90 | a run cannot be extended exactly when it has 4 * numSigs steps, with numSigs rounds done by each process |
| `PingPong.RunsAreEqual` | tlpi-dist/signals/sig_speed_sigsuspend.c:64-91 | two runs for the same numSigs go through the same states |
| `ThreadIncrPsem.MutualExclusion` | tlpi-dist/psem/thread_incr_psem.c:31-41 | if the threads inside the critical section number at most one, no two different threads are inside |
| `ThreadIncrPsem.StepKeepsInv` | tlpi-dist/psem/thread_incr_psem.c:31-41 | every step of any thread keeps semaphore + threads inside == 1 and glob equal to the stores made |
| `ThreadIncrPsem.EveryRunSafe` | tlpi-dist/psem/thread_incr_psem.c:25-79 | for k threads, after any number of steps of any interleaving: semaphore + inside == 1, glob is the number of stores, and the threads have taken exactly that number of steps |
| `ThreadIncrPsem.StuckMeansFinished` | tlpi-dist/psem/thread_incr_psem.c:31-41 | no deadlock: only a state in which all threads have finished has no step |
| `ThreadIncrPsem.EveryRunCounts` | tlpi-dist/psem/thread_incr_psem.c:25-79 | a run of k threads has at most k * 4 * loops steps, cannot go on exactly when it has that many, and then glob == k * loops |
| `ThreadIncrPsem.WaitsExactly` | tlpi-dist/psem/thread_incr_psem.c:31-39 | a thread that has not finished has to wait if and only if it is at sem_wait and some thread is inside |
| `ThreadIncrPsem.TwoInsideLoseHalf` | tlpi-dist/psem/thread_incr_psem.c:31-41 | the initial value 1 is needed: from 2, two threads can lose half of their increments, for every number of passes |
| `AtomicAppend.StepKeepsInv` | tlpi-dist/fileio/atomic_append.c:54-60 | an lseek or write by any process, in either mode, keeps the initial contents and the bounds on the size |
| `AtomicAppend.SizeBounds` | tlpi-dist/fileio/atomic_append.c:46-60 | any mix of modes, any interleaving: initial contents never altered, only x's follow, and at the end the growth is at least every n_i, at least the sum of the n_i with O_APPEND, and at most the sum of all n_i |
| `AtomicAppend.AppendLosesNothing` | tlpi-dist/fileio/atomic_append.c:46-60 | with O_APPEND the file is at every moment the initial contents and one x per write made; at the end it has grown by the sum of all n_i |
| `AtomicAppend.SoughtTheEnd` | tlpi-dist/fileio/atomic_append.c:55-58 | on every run the offset of a write is where the file ended at the lseek just before it in the same process |
| `AtomicAppend.GrowsExactly` | tlpi-dist/fileio/atomic_append.c:54-60 | on every run a system call makes the file longer, by one byte, if and only if it is a write with O_APPEND or the file is as long as at the lseek before |
| `AtomicAppend.GrowthIsWritesAtEnd` | tlpi-dist/fileio/atomic_append.c:54-60 | so at any moment the file has grown by the number of writes made at its end |
| `AtomicAppend.SizesExactly` | tlpi-dist/fileio/atomic_append.c:46-60 | for any number of processes, any mix of modes and all n_i: some complete run grows the file by g if and only if g is at least every n_i, at least the sum of the n_i with O_APPEND, and at most the sum of all |
| `AtomicAppend.LowerBoundIsReached` | tlpi-dist/fileio/atomic_append.c:54-60 | with lseek alone: some interleaving grows the file by the largest n_i only, and some other one loses nothing |
| `Ranges.Disjoint` | tlpi-dist/pipes/fifo_seqnum_server.c:79-88 | consecutive ranges have no number in common |
| `Ranges.Covered` | tlpi-dist/pipes/fifo_seqnum_server.c:79-88 | a number is in some range exactly if it lies between the two ends |
| `Ranges.LengthsAddUp` | tlpi-dist/pipes/fifo_seqnum_server.c:88-88 | the lengths of consecutive ranges add up to the stretch they cover |
| `FifoSeqnum.StepKeepsInv` | tlpi-dist/pipes/fifo_seqnum_server.c:62-89 | every step of the server and of a client, a failing open or write, and the death of a client, by a signal or by exit, keep the granted ranges end to end, requests genuine, process ids of running clients unique, and the traffic of clients with a clean start their own |
| `FifoSeqnum.RangesPartition` | tlpi-dist/pipes/fifo_seqnum_server.c:62-89 | for any clients and interleaving, with process ids used again, handled requests own pairwise disjoint ranges which are exactly the numbers up to the counter, and the counter is the sum of their lengths |
| `FifoSeqnum.ClientsGetTheirOwn` | tlpi-dist/pipes/fifo_seqnum_client.c:56-79 | a client with a clean start reads only the start of a range granted to its own request; any client, of one granted to its process id |
| `FifoSeqnum.ToldAreDisjoint` | tlpi-dist/pipes/fifo_seqnum_client.c:56-79 | what two clients with a clean start are told never overlaps |
| `FifoSeqnum.OneGrantEach` | tlpi-dist/pipes/fifo_seqnum_server.c:62-89 | on every run no client is granted more than one range |
| `FifoSeqnum.AnswerArrives` | tlpi-dist/pipes/fifo_seqnum_server.c:79-82 | on every run, when the server writes for a client that waits, the start just granted goes into the FIFO it reads, and it can read; with a clean start it is then told that start |
| `FifoSeqnum.AnsweredInTime` | tlpi-dist/pipes/fifo_seqnum_server.c:62-89 | from any moment of any run, whatever all clients do, a waiting client's reply is in its FIFO once the server has taken 4 steps for each request then queued and 3 more; until then the server can move unless it is in the open of a FIFO without a reader |
| `FifoSeqnum.CanBeTold` | tlpi-dist/pipes/fifo_seqnum_client.c:56-79 | at any moment of any run at which a client with a clean start waits, some continuation tells it the start of its own range |
| `FifoSeqnum.FirstReplyCounts` | tlpi-dist/pipes/fifo_seqnum_client.c:72-79 | the first reply that is unread is what a waiting client is told, if it is told anything, whatever is written later |
| `FifoSeqnum.UnreadIsOpen` | tlpi-dist/pipes/fifo_seqnum_server.c:79-87 | on every run a FIFO holds data only while a process has it open for reading or the server for writing |
| `FifoSeqnum.UncleanIsUnsafe` | tlpi-dist/pipes/fifo_seqnum_client.c:44-79 | a client that starts while a request with its process id is queued or held, or a reply unread, is on some run told the start of another client's range |
| `FifoSeqnum.ItsOwnExactly` | tlpi-dist/pipes/fifo_seqnum_client.c:44-79 | a client that starts at the end of any run is sure to be told only its own range if and only if nothing is left over from an earlier process with its id |
| `FifoSeqnum.StaleRequestIsAnswered` | tlpi-dist/pipes/fifo_seqnum_client.c:44-79 | such a run: a client killed after sending, a new one with its process id, told the start of the dead client's shorter range |
| `FifoSeqnum.ServerWaitsExactly` | tlpi-dist/pipes/fifo_seqnum_server.c:63-77 | the server has no step if and only if it waits for a request or is in the open of a FIFO that exists and has no reader |
| `FifoSeqnum.HangsForEverybody` | tlpi-dist/pipes/fifo_seqnum_server.c:62-89 | blocked there with no reply on its way, it stays blocked and no client is told anything, on every run in which no process has the id it waits for |
| `FifoSeqnum.OneKillBlocks` | tlpi-dist/pipes/fifo_seqnum_server.c:69-77 | one client killed after sending its request is enough to get there |
| `IsSeqnum.Printed` | tlpi-dist/sockets/is_seqnum_sv.c:130-131 | the number sent is the int congruent to the unsigned counter modulo 2^32 |
| `IsSeqnum.Wanted` | tlpi-dist/sockets/is_seqnum_sv.c:119-128 | a good request asks for as many numbers as its line says, and any other for none |
| `IsSeqnum.RepliesInSteps` | tlpi-dist/sockets/is_seqnum_sv.c:119-134 | the first answer is the initial value, and each further one is the answer before it plus the length asked for then, modulo 2^32 |
| `IsSeqnum.Serve` | tlpi-dist/sockets/is_seqnum_sv.c:99-138 | each good request, and no other, is answered, with the initial value plus all earlier good lengths modulo 2^32 |
| `IsSeqnum.SmallTotalsAreDisjoint` | tlpi-dist/sockets/is_seqnum_sv.c:119-134 | up to 2^32 numbers in all, no number goes to two connections |
| `IsSeqnum.LargeTotalsOverlap` | tlpi-dist/sockets/is_seqnum_sv.c:119-134 | beyond that, two connections are given the initial number |
| `IsSeqnum.DisjointExactly` | tlpi-dist/sockets/is_seqnum_sv.c:119-134 | the ranges handed out, counted with wrap-around, are pairwise disjoint if and only if the lengths total at most 2^32 |
| `ReadLine.ReadLine` | tlpi-dist/sockets/read_line.c:27-71 | returns the first line up to n - 1 bytes, consumes the whole line, terminates it, restarts after EINTR; on another error only bytes of the current line are gone; bad arguments change nothing |
| `ReadLine.ReadLineBuf.constructor` | tlpi-dist/sockets/read_line_buf.c:20-26 | an initialised buffer holds nothing: what is pending is the file |
| `ReadLine.ReadLineBuf.Refill` | tlpi-dist/sockets/read_line_buf.c:52-60 | a refill, of any size, leaves buffer followed by file unchanged |
| `ReadLine.ReadLineBuf.NextByte` | tlpi-dist/sockets/read_line_buf.c:52-64 | takes exactly the first pending byte; end of file only when nothing is pending |
| `ReadLine.ReadLineBuf.ReadLine` | tlpi-dist/sockets/read_line_buf.c:32-74 | returns the first pending line up to n bytes and leaves exactly what follows it, however the kernel split the input |
| `ReadLine.LineEnds` | tlpi-dist/sockets/read_line.c:64-65 | a line ends just after its first newline or where the input ends |
| `ReadLine.ReadOnce` | tlpi-dist/sockets/read_line_buf.c:32-74 | readLine with size n + 1 and readLineBuf with size n return the same bytes and leave the same input |
| `ReadLine.ReadBoth` | tlpi-dist/sockets/read_line_buf.c:32-74 | the same for every sequence of calls, every stream and every schedule of short reads on both sides |
| `ReadLine.NothingLost` | tlpi-dist/sockets/read_line_buf.c:47-71 | with room for every line, the pieces returned and the input left make up the original input |
| `Setenv.Environment.CloseGap` | tlpi-dist/proc/setenv.c:41-42 | the inner loop removes one entry in place and keeps one terminator |
| `Setenv.Environment.Unsetenv` | tlpi-dist/proc/setenv.c:21-51 | leaves exactly the entries not defining the name, in order; a bad name changes nothing |
| `Setenv.Environment.Getenv` | tlpi-dist/proc/setenv.c:64-64 | the value in the first entry that defines the name, or nothing |
| `Setenv.Environment.Putenv` | tlpi-dist/proc/setenv.c:74-78 | adds one entry at the end of a new array, or fails and changes nothing |
| `Setenv.Environment.Setenv` | tlpi-dist/proc/setenv.c:53-79 | all outcomes: bad arguments, existing name kept when overwrite is 0, assignment, and removal only when malloc or putenv fails |
| `Setenv.DefinesOne` | tlpi-dist/proc/setenv.c:36-36 | an entry defines at most one name without '=' |
| `Setenv.DefinesExactly` | tlpi-dist/proc/setenv.c:36-36 | an entry defines a name if and only if it is the name, '=' and some value |
| `Setenv.WithoutExactly` | tlpi-dist/proc/setenv.c:35-48 | what unsetenv leaves is exactly the entries that do not define the name, malformed ones included, in their order |
| `Setenv.LookupExactly` | tlpi-dist/proc/setenv.c:64-65 | getenv gives the value in the first definition, and none if and only if no entry defines the name |
| `Setenv.UnsetLaws` | tlpi-dist/proc/setenv.c:35-48 | the name has no definition left; every other name keeps its value and its number of definitions |
| `Setenv.SetLaws` | tlpi-dist/proc/setenv.c:67-78 | exactly one definition with exactly this value, even with '=' inside; every other name as before |
| `Setenv.SetUndo` | tlpi-dist/proc/setenv.c:67-78 | the last setenv wins, and unsetenv undoes setenv |
| `Cpholes.CopyByte` | 04-file-io-universal-io-model/cpholes.c:78-86 | one source byte, whether NUL, after a hole or plain: the output stays the source up to the pending hole |
| `Cpholes.CopyChunk` | 04-file-io-universal-io-model/cpholes.c:77-87 | the same for all bytes of one read |
| `Cpholes.Finish` | 04-file-io-universal-io-model/cpholes.c:90-92 | the final one-byte write; lseek fails on an empty source and the byte is written anyway |
| `Cpholes.Copy` | 04-file-io-universal-io-model/cpholes.c:74-92 | for every source and schedule of short reads: the exact contents, and the offsets written are exactly the non-NUL ones and the last |
| `Cpholes.CopyEqualsSourceExactly` | 04-file-io-universal-io-model/cpholes.c:90-92 | the copy is the source with its last byte NUL, so equal to the source if and only if it is non-empty and ended in NUL |
| `VectorIO.TooLong` | 05-file-io-further-details/vector_fileio.c:84-91 | the running unsigned sum refuses exactly if some partial sum modulo 2^64 exceeds SSIZE_MAX |
| `VectorIO.RefusalIsRight` | 05-file-io-further-details/vector_fileio.c:84-91 | what is refused is in truth too long |
| `VectorIO.AcceptedWronglyExactly` | 05-file-io-further-details/vector_fileio.c:84-91 | an accepted vector is in truth too long if and only if one area alone is longer than 2^63 bytes |
| `VectorIO.CheckIsRightExactly` | 05-file-io-further-details/vector_fileio.c:84-91 | refusing agrees with a true total above SSIZE_MAX for all vectors of areas of up to m bytes if and only if m is at most 2^63 |
| `VectorIO.SmallAreasAreChecked` | 05-file-io-further-details/vector_fileio.c:84-91 | with areas of up to 2^63 bytes a total above SSIZE_MAX is always refused |
| `VectorIO.WrapIsAccepted` | 05-file-io-further-details/vector_fileio.c:84-91 | a family of too long vectors that wrap the counter and are accepted |
| `VectorIO.Writev` | 05-file-io-further-details/vector_fileio.c:69-109 | for every schedule of write outcomes: the exact result, and what reaches the file is a leading part of the concatenated buffers, of exactly the length moved; a refused call changes nothing |
| `VectorIO.WriteOne` | 05-file-io-further-details/vector_fileio.c:98-106 | one pass of the loop, with every outcome of write; the count passes through an int |
| `VectorIO.WriteAreas` | 05-file-io-further-details/vector_fileio.c:97-108 | the transfer loop, stopping at the first short or failing write |
| `VectorIO.ResultCounts` | 05-file-io-further-details/vector_fileio.c:99-108 | with areas an int can count the result is -1 or the bytes written, and -1 only if a write failed |
| `VectorIO.FullTransfer` | 05-file-io-further-details/vector_fileio.c:97-108 | without short or failing writes everything is written and counted |
| `VectorIO.CountsExactly` | 05-file-io-further-details/vector_fileio.c:69-109 | under every schedule the result is -1 or the bytes written, if and only if the vector is refused or no area exceeds INT_MAX |
| `VectorIO.SecondWriteFails` | 05-file-io-further-details/vector_fileio.c:99-105 | two areas, the second write fails: the result is -1 and the first area is written |
| `VectorIO.FailsAfterWriting` | 05-file-io-further-details/vector_fileio.c:69-109 | the same as a call: -1 and a changed file |
| `VectorIO.FailsCleanlyExactly` | 05-file-io-further-details/vector_fileio.c:49-109 | after a failure the file is unchanged under every schedule if and only if the vector is refused, or all areas but the last are empty and the last is at most INT_MAX long |
| `VectorIO.Validate` | 05-file-io-further-details/vector_fileio.c:154-165 | turned down exactly for a count of at most 0 or a refused vector |
| `VectorIO.RefusedExactly` | 05-file-io-further-details/vector_fileio.c:154-165 | for areas of up to 2^63 bytes that is a count of at most 0 or a true total above SSIZE_MAX |
| `VectorIO.ReadInto` | 05-file-io-further-details/vector_fileio.c:169-170 | one read fills the beginning of one area and nothing else |
| `VectorIO.FillStep` | 05-file-io-further-details/vector_fileio.c:167-177 | reading into the first area not full extends the contiguous filling |
| `VectorIO.ReadNext` | 05-file-io-further-details/vector_fileio.c:169-173 | the same for one pass of the loop, with every outcome of read |
| `VectorIO.FillOne` | 05-file-io-further-details/vector_fileio.c:168-176 | the same with the count passed through an int: the loop goes on or the result is as reported |
| `VectorIO.FillAreas` | 05-file-io-further-details/vector_fileio.c:167-179 | the bytes taken from the file, and then the old bytes, are what the areas hold end to end, up to the first short read; the result in every case, also for a count that no int holds |
| `VectorIO.ReportedCounts` | 05-file-io-further-details/vector_fileio.c:169-175 | the result is -1 after a failed read, the bytes moved if an int holds the last count, and not the bytes moved otherwise |
| `VectorIO.DeliveredInto` | 05-file-io-further-details/vector_fileio.c:167-177 | area by area: its share of the bytes read, then its old bytes |
| `VectorIO.Readv` | 05-file-io-further-details/vector_fileio.c:147-180 | the same for the whole call, with every cause of -1; areas beyond iovcnt are untouched |
| `VectorIO.Restored` | 05-file-io-further-details/vector_fileio.c:221-226 | areas that received the concatenated buffers hold the buffers |
| `VectorIO.RoundTrip` | 05-file-io-further-details/vector_fileio.c:210-226 | writev then readv into the same shape restores every buffer whenever both are complete, and on regular files both are |
| `BenchmarkWrites.Pick` | 14-file-systems/benchmarkwrites.c:60-60 | for every rand() result and RAND_MAX the index lies in [i, n) |
| `BenchmarkWrites.PickBelow` | 14-file-systems/benchmarkwrites.c:60-60 | the quotient r / (RAND_MAX / m + 1) is below m |
| `BenchmarkWrites.PickReaches` | 14-file-systems/benchmarkwrites.c:60-60 | index j can be drawn if and only if (j - i) * (RAND_MAX / (n - i) + 1) <= RAND_MAX |
| `BenchmarkWrites.ShufflePermutes` | 14-file-systems/benchmarkwrites.c:58-64 | whatever indices are drawn, the elements are rearranged |
| `BenchmarkWrites.Shuffle` | 14-file-systems/benchmarkwrites.c:53-66 | in place, within bounds, a permutation |
| `BenchmarkWrites.EveryArrangement` | 14-file-systems/benchmarkwrites.c:58-64 | every rearrangement is the result of some choice of indices |
| `BenchmarkWrites.ShuffleReaches` | 14-file-systems/benchmarkwrites.c:53-66 | and, when every index can be drawn in every pass, of some sequence of rand() results |
| `BenchmarkWrites.ShuffleInjective` | 14-file-systems/benchmarkwrites.c:58-64 | with different elements the result shows every index that was drawn |
| `BenchmarkWrites.ReachesAllExactly` | 14-file-systems/benchmarkwrites.c:46-66 | for different elements every arrangement can come out if and only if (n - 1 - i) * (RAND_MAX / (n - i) + 1) <= RAND_MAX for every i |
| `BenchmarkWrites.SquareIsEnough` | 14-file-systems/benchmarkwrites.c:46-52 | it is enough that RAND_MAX is at least n * n |
| `BenchmarkWrites.NameIs` | 14-file-systems/benchmarkwrites.c:142-142 | a file name is an x and at least six digits that read as its number, more than six only without a leading 0 |
| `BenchmarkWrites.NameInjective` | 14-file-systems/benchmarkwrites.c:142-142 | different numbers make different file names, also beyond six digits |
| `BenchmarkWrites.CreateOne` | 14-file-systems/benchmarkwrites.c:142-150 | one file is opened without write access: a new one stays empty, an old one untouched |
| `BenchmarkWrites.CreateAll` | 14-file-systems/benchmarkwrites.c:139-151 | files are opened in the order of the array, until an open fails; old files are untouched, all names of the benchmark exist in the end, and the new files are empty, because they are not opened for writing |
| `BenchmarkWrites.DeleteAll` | 14-file-systems/benchmarkwrites.c:158-165 | every unlink succeeds, in numerical order; exactly the benchmark's names are gone, all other files are untouched |
| `BenchmarkWrites.RunBenchmark` | 14-file-systems/benchmarkwrites.c:130-165 | create in the order of the shuffled numbers, delete in numerical order: an empty directory is empty again; it fails only if there is no room, leaving only empty files of its own |
| `FreeList.RemoveKeepsList` | 07-memory-allocation/po_malloc_free.c:37-54 | linking the neighbours of any position gives a well-formed list without that element |
| `FreeList.ReplaceKeepsList` | 07-memory-allocation/po_malloc_free.c:60-75 | putting a node in any position gives a well-formed list with that element replaced |
| `FreeList.PushKeepsList` | 07-memory-allocation/po_malloc_free.c:167-181 | a push in front is right if and only if the list was empty or the old head's back link names the new header |
| `FreeList.Heap.LlRemove` | 07-memory-allocation/po_malloc_free.c:37-54 | as written, at head, middle or end: the sequence without the element, the head right, only the neighbours' links written |
| `FreeList.Heap.LlReplace` | 07-memory-allocation/po_malloc_free.c:60-75 | as written: the sequence with the element replaced, the head right, only the neighbours' and the new node's links written |
| `FreeList.Heap.PushFront` | 07-memory-allocation/po_malloc_free.c:171-180 | the insertion in po_free for either value of the back link |
| `Arena.MallocLaws` | 07-memory-allocation/po_malloc_free.c:84-139 | the arena stays in order, the returned block holds size bytes, all other live blocks stay, the break moves only if no free block fits, NULL only if the kernel refuses |
| `Arena.MallocIsFresh` | 07-memory-allocation/po_malloc_free.c:96-139 | the address returned was not live before |
| `Arena.ReleaseLaws` | 07-memory-allocation/po_malloc_free.c:141-181 | po_free gives back exactly the block it is handed and the break stays |
| `Arena.RunKeepsInv` | 07-memory-allocation/po_malloc_free.c:96-181 | every legal sequence of calls keeps the arena in order |
| `Arena.EveryRunTiles` | 07-memory-allocation/po_malloc_free.c:96-181 | after every legal sequence of calls each byte between the initial and current break is in exactly one block and each live block has room for its size |
| `Arena.CallersAreSeparate` | 07-memory-allocation/po_malloc_free.c:96-181 | two live blocks, headers included, never overlap and lie below the break |
| `Arena.FreeThenMalloc` | 07-memory-allocation/po_malloc_free.c:96-181 | freeing a block and asking for the same size returns the same address |
| `SecondRound.FreedIsReached` | 07-memory-allocation/po_malloc_free.c:206-225 | the state after allocating any number of blocks and freeing them in order, reached by those calls under the planned steps |
| `SecondRound.BothRounds` | 07-memory-allocation/po_malloc_free.c:206-236 | both rounds as legal runs of calls under the planned steps; the break is compared after the first and after the second |
| `SecondRound.LastLargestMoves` | 07-memory-allocation/po_malloc_free.c:206-236 | under the planned steps, for any number of blocks of which the last is larger than all others the break moves in the second round |
| `SecondRound.DescendingStays` | 07-memory-allocation/po_malloc_free.c:206-236 | under the planned steps, for any number of blocks of which none is larger than one before it the break stays |
| `SecondRound.RoomsStep` | 07-memory-allocation/po_malloc_free.c:96-139 | a request under the planned steps depends on, and changes, only the list of rooms in the free blocks: first fit, shrink or remove |
| `SecondRound.StaysExactly` | 07-memory-allocation/po_malloc_free.c:206-236 | under the planned steps, for all sizes in any order: the break stays if and only if the sizes, each taken from the first room large enough, all fit into rooms of the same sizes in the opposite order |
| `SecondRound.PalindromeStays` | 07-memory-allocation/po_malloc_free.c:206-236 | under the planned steps the break stays too for any sizes that read the same backwards, such as 3, 10, 3 |
| `SecondRound.TwoSizesAgain` | 07-memory-allocation/po_malloc_free.c:206-236 | under the planned steps, for two blocks the break stays if and only if the first is at least as large |
| `SecondRound.OwnTestMoves` | 07-memory-allocation/po_malloc_free.c:206-236 | under the planned steps the test's own 100 sizes move the break |
| `Allocator.Allocator.constructor` | 07-memory-allocation/po_malloc_free.c:22-22 | an empty heap is valid |
| `Allocator.Allocator.Sbrk` | 07-memory-allocation/po_malloc_free.c:127-127 | the old break, or -1 and no change |
| `Allocator.Allocator.Scan` | 07-memory-allocation/po_malloc_free.c:102-117 | the first free block that is large enough, found by following links in memory |
| `Allocator.Allocator.UseWhole` | 07-memory-allocation/po_malloc_free.c:110-113 | a block used as it is leaves the free list |
| `Allocator.Allocator.CutHeaders` | 07-memory-allocation/po_malloc_free.c:106-109 | the two headers and the list after a cut, corrections (1) and (2) made |
| `Allocator.Allocator.UsePart` | 07-memory-allocation/po_malloc_free.c:105-113 | a cut carried out in memory is the planned split |
| `Allocator.Allocator.UseFree` | 07-memory-allocation/po_malloc_free.c:104-113 | the choice between cutting and using whole |
| `Allocator.Allocator.Extend` | 07-memory-allocation/po_malloc_free.c:119-138 | a new block at the break, or NULL (correction (4)) |
| `Allocator.Allocator.PoMalloc` | 07-memory-allocation/po_malloc_free.c:96-139 | the in-memory operation refines the planned one |
| `Allocator.Allocator.PoFree` | 07-memory-allocation/po_malloc_free.c:167-181 | likewise, with correction (3) |
| `Allocator.RunCalls` | 07-memory-allocation/po_malloc_free.c:96-181 | every legal sequence of calls carried out in memory reaches the planned arena |
| `Allocator.SplitRepresents` | 07-memory-allocation/po_malloc_free.c:105-113 | after a corrected cut every header records its block |
| `Allocator.RecordedTiles` | 07-memory-allocation/po_malloc_free.c:105-109 | the extents recorded in headers tile the heap if and only if every header is right |
| `Allocator.CutRepresents` | 07-memory-allocation/po_malloc_free.c:105-109 | headers are right after a cut if and only if both corrections are made |
| `Allocator.CutTilesExactly` | 07-memory-allocation/po_malloc_free.c:105-109 | recorded blocks tile the heap after a cut if and only if both corrections are made; as written they never do |
| `Allocator.FreeAsWritten` | 07-memory-allocation/po_malloc_free.c:173-180 | line 175 as written leaves a well-formed list if and only if the list was empty |
| `AsWritten.SecondEntryStays` | 07-memory-allocation/po_malloc_free.c:37-54 | line 175 followed by ll_remove, as written: the second entry of the list is not taken off |
| `AsWritten.TwoFreedIsReached` | 07-memory-allocation/po_malloc_free.c:96-181 | the store after two allocations and two frees of the code as written |
| `AsWritten.FirstIsHandedOut` | 07-memory-allocation/po_malloc_free.c:102-117 | a request that only the block freed first can hold returns that block and leaves it on the list |
| `AsWritten.TwoCallersOneBlock` | 07-memory-allocation/po_malloc_free.c:96-181 | a whole run of the code as written in which two requests, with no free between them, return the same address |
| `AsWrittenRounds.FirstRoundEnds` | 07-memory-allocation/po_malloc_free.c:206-225 | the code as written gets through the first round for any sizes, and leaves the blocks linked forwards, the last freed first |
| `AsWrittenRounds.RequestServed` | 07-memory-allocation/po_malloc_free.c:96-117 | for sizes close together a request uses the next block, cut or whole, and the list stays in shape, although not all back links are right |
| `AsWrittenRounds.CloseSizesMove` | 07-memory-allocation/po_malloc_free.c:206-236 | the code as written moves the break in the second round for all strictly ascending sizes of which the last is less than the first two together |
| `AsWrittenRounds.OwnTestMovesAsWritten` | 07-memory-allocation/po_malloc_free.c:206-236 | the file's own test with its 100 sizes, on the code as written: the break moves although the comment says it should not |
| `AsWrittenRounds.ZeroThenLong` | 07-memory-allocation/po_malloc_free.c:105-109 | for sizes 0 and b, with b longer than a header, the plan moves the break and the code as written does not |
| `PsTree.DistUnique` | 12-system-and-process-information/pstree.c:111-128 | a process has one distance from its root |
| `PsTree.DistBound` | 12-system-and-process-information/pstree.c:111-144 | a path to a root is shorter than the list, so the recursion ends |
| `PsTree.CountTree` | 12-system-and-process-information/pstree.c:130-144 | printing a subtree prints a process once if the subtree's root is on its path to the root, else not at all |
| `PsTree.CountKids` | 12-system-and-process-information/pstree.c:138-142 | the same for the first m children |
| `PsTree.CountRoots` | 12-system-and-process-information/pstree.c:174-181 | the same for the root loop so far |
| `PsTree.GoodTree` | 12-system-and-process-information/pstree.c:130-144 | every printed line has the right indent and follows its parent's line |
| `PsTree.GoodRoots` | 12-system-and-process-information/pstree.c:174-181 | the same for the whole output |
| `PsTree.PrintedOnce` | 12-system-and-process-information/pstree.c:111-181 | each process whose links lead to a root is printed exactly once, each on a cycle never; indents are distances; parents come first |
| `PsTree.NestedRoots` | 12-system-and-process-information/pstree.c:130-144 | in the whole output, the last earlier line with a smaller indent is the line of the parent, one level out |
| `PsTree.OrderedRoots` | 12-system-and-process-information/pstree.c:138-181 | of two lines with the same indent and nothing less indented between them, the earlier is for the process earlier in the list |
| `PsTree.PrintsForest` | 12-system-and-process-information/pstree.c:111-181 | the output is a forest: each rooted process once, cyclic ones never, indents are distances, each line below its parent's, and children of one parent, and roots, in list order |
| `PsTree.OnlyForest` | 12-system-and-process-information/pstree.c:111-181 | and no other output is: these properties hold of a sequence of lines if and only if it is the program's output |
| `PsTreeProgram.Catalogue.CreateAndInsert` | 12-system-and-process-information/pstree.c:47-63 | the new node is first, without parent or children |
| `PsTreeProgram.Catalogue.FindNodeWithPid` | 12-system-and-process-information/pstree.c:100-109 | the first node with the pid, or NULL |
| `PsTreeProgram.Catalogue.AddChild` | 12-system-and-process-information/pstree.c:122-124 | the node is appended to the NULL-terminated slots of its parent; other nodes' slots stay |
| `PsTreeProgram.Catalogue.MakeTree` | 12-system-and-process-information/pstree.c:111-128 | every parent link and all child slots are right when no process has more than 127 children |
| `PsTreeProgram.Catalogue.PrintNode` | 12-system-and-process-information/pstree.c:130-144 | prints the node and then its children's subtrees in order, one level deeper |
| `PsTreeProgram.Catalogue.PrintForest` | 12-system-and-process-information/pstree.c:174-181 | prints the subtrees of all nodes without a parent, in list order |
| `PsTreeProgram.Catalogue.PrintAll` | 12-system-and-process-information/pstree.c:111-181 | building and printing gives the one forest there is: every rooted process once, below its parent and in list order |
| `AclText.StrtolReads` | tlpi-dist/lib/ugid_functions.c:40-42 | white space, an optional sign and any numeral are read as its value, saturated at the limits of long |
| `AclText.StrtolExactly` | tlpi-dist/lib/ugid_functions.c:40-42 | for arbitrary text: all of it is taken as a number if and only if it is white space, a sign or none, and at least one digit, and then as that value, saturated |
| `AclText.BeginsWithLetter` | tlpi-dist/lib/ugid_functions.c:40-42 | a text that begins with neither digit, white space nor sign is not a number |
| `AclText.IdExactly` | tlpi-dist/lib/ugid_functions.c:30-49 | for arbitrary text: a number stands for itself modulo 2^32, any other text for the number of that name, and the empty text is refused |
| `Decimal.PlaceValue` | tlpi-dist/lib/ugid_functions.c:40-40 | what stands in front of a digit counts ten times |
| `Decimal.DigitsAre` | tlpi-dist/lib/ugid_functions.c:40-40 | any digits are the decimal notation of their value with zeros in front |
| `AclText.NumeralParses` | tlpi-dist/lib/ugid_functions.c:30-49 | a numeral is taken modulo 2^32; it is refused if and only if that is the sentinel or it exceeds LONG_MAX, and stands for itself if and only if below 2^32 |
| `AclText.PermsMeaning` | tlpi-dist/acl/acl_update.c:147-169 | accepted if and only if only r, w, x and - occur, and each bit is set if and only if its letter occurs |
| `AclText.ReadPerms` | tlpi-dist/acl/acl_update.c:156-168 | the loop computes that meaning |
| `AclText.ParsesExactly` | tlpi-dist/acl/acl_update.c:64-172 | for arbitrary text: accepted, with this entry as the result, if and only if it splits at its first two colons into a known tag, a qualifier that fits the tag and reads as this number, and a permission string of the required kind that mentions exactly these permissions |
| `AclText.ParseEntrySpec` | tlpi-dist/acl/acl_update.c:77-172 | the program succeeds exactly on those texts, with that entry |
| `AclText.TextParse` | tlpi-dist/acl/acl_update.c:77-172 | an entry in any written form parses only under the matching permsReqd, and then to its qualifier and permissions |
| `AclText.NameRoundTrip` | tlpi-dist/acl/acl_update.c:131-143 | an entry with any name that is not a number: named users are looked up among users and named groups among groups; unknown names are refused |
| `AclText.ParsedIsWellFormed` | tlpi-dist/acl/acl_update.c:77-172 | whatever text it came from, a parsed entry is well formed |
| `AclText.EntryRoundTrip` | tlpi-dist/acl/acl_update.c:77-172 | printing then parsing returns the entry if and only if the form is the one called for and the entry is well formed and shows in it |
| `AclList.CutField` | tlpi-dist/acl/acl_update.c:193-200 | the text up to the next comma, and whether and what text follows |
| `AclList.StoreEntry` | tlpi-dist/acl/acl_update.c:197-198 | one entry is parsed into its array element and no other element is written |
| `AclList.StoreAll` | tlpi-dist/acl/acl_update.c:185-206 | the loop over comma-separated entries: what is stored, where it stops and why, in success and failure |
| `AclList.ParseACL` | tlpi-dist/acl/acl_update.c:178-207 | -1 if and only if some comma field does not parse or there are more than MAX_ENTRIES; otherwise entry i is what field i parses to; entries before a failure are stored and nothing is written beyond the one being parsed |
| `AclList.FieldsOfJoin` | tlpi-dist/acl/acl_update.c:193-195 | splitting at commas inverts joining with them |
| `AclList.RoundTrip` | tlpi-dist/acl/acl_update.c:178-207 | a printed non-empty list, each entry in any form, is read back unchanged if and only if it has at most MAX_ENTRIES entries, each of which can be read back |
| `AclUpdate.KeysExactly` | tlpi-dist/acl/acl_update.c:213-267 | two entries are the same one if and only if their tags agree and, for named users and groups, their qualifiers |
| `AclUpdate.Acl.FindEntry` | tlpi-dist/acl/acl_update.c:213-267 | an entry with the key, the first one, or none if and only if the key is not in the map |
| `AclUpdate.Acl.SetPerms` | tlpi-dist/acl/acl_update.c:271-294 | exactly the requested permission bits, other entries untouched |
| `AclUpdate.Acl.Remove` | tlpi-dist/acl/acl_update.c:400-405 | removal is deletion from the map; keys stay unique |
| `AclUpdate.Acl.CreateEntry` | tlpi-dist/acl/acl_update.c:409-423 | a new key with no permissions |
| `AclUpdate.Acl.Modify` | tlpi-dist/acl/acl_update.c:407-426 | modification is map update; keys stay unique |
| `AclUpdate.Acl.Apply` | tlpi-dist/acl/acl_update.c:399-426 | one pass of the loop in either mode |
| `AclUpdate.Acl.CalcMask` | tlpi-dist/acl/acl_update.c:428-432 | the mask gets exactly the permissions that a named user, the owning group or a named group has; no other key changes |
| `AclUpdate.Acl.Pass` | tlpi-dist/acl/acl_update.c:399-432 | one pass of the loop, with or without the mask recalculated |
| `AclUpdate.Acl.ApplyAll` | tlpi-dist/acl/acl_update.c:399-432 | the whole loop refines the map and keeps keys unique; with the mask recalculated it does so on all other keys, and the mask is right after every pass |
| `AclUpdate.ReplaceInMap` | tlpi-dist/acl/acl_update.c:425-425 | changing one entry's permissions changes one key of the map |
| `AclUpdate.DropFromMap` | tlpi-dist/acl/acl_update.c:403-405 | dropping one entry drops one key of the map |
| `AclUpdate.AppendToMap` | tlpi-dist/acl/acl_update.c:409-423 | appending an entry with a new key adds one key to the map |
| `AclUpdate.UpdateLaws` | tlpi-dist/acl/acl_update.c:399-426 | after any sequence each key has what was last asked for it and keys not asked for are untouched |

## Left out

- Command lines, usage messages, `printf` output, `errExit` and exit codes; sockets, name
  lookup, time measurement.
- All other programs of the repository: thin wrappers around single system calls, whose
  models would only add easy members.
- Fork failure, exhausted memory (except in `setenv` and `po_malloc`), stopped children
  and signals that come from elsewhere, as causes of SIGCHLD, of a notification or of a wake-up.
- C strings are sequences without NUL; buffer overruns inside `strcpy` and `sprintf` are
  not modelled.
- Allocator.Allocator.PoMalloc: addresses are unbounded, so the wrap-around of `size`
  plus header for sizes near 2^64 is not captured, nor alignment; header fields are
  records at addresses, not bytes.
- Allocator.Allocator.PoFree: `ptr` must be live; the comment promises that NULL is
  ignored, but the code dereferences it, and that access has no meaning to model.
- Allocator.Allocator.Extend: follows correction (4); the code's own test of `sbrk`
  against NULL is not modelled as a step.
- PsTreeProgram.Catalogue.MakeTree: more than 127 children overrun the slots of the
  node, which has no meaning in C, so the method requires fewer. Pids need not be unique
  and parent links need not be acyclic.
- Reading `/proc` and the length of process names in `pstree.c`.
- Setenv.Environment.Putenv: models the library call only for a name that is not
  defined, as `setenv` uses it.
- FifoSeqnum.RangesPartition: partial reads of requests are not modelled; the counter is
  unbounded, because signed overflow has no meaning in C, and so exact only as long as the
  sum of the lengths granted is at most INT_MAX. Opening a client's FIFO fails only if it
  does not exist. A client that has read its reply exits in the same step.
- IsSeqnum.Serve: the text of request lines is replaced by its `atoi` value; failures of
  the final write only print a message and are not distinguished.
- ThreadIncrPsem.EveryRunCounts: signed overflow of `glob` is not modelled.
- VectorIO.Readv: memory areas do not overlap.
- Cpholes.Copy: writes and seeks on the output succeed, as the program assumes.
- BenchmarkWrites.RunBenchmark: the number of files is not negative; creating the
  directory and measuring the time are not modelled.
- AclList.ParseACL: the terminators that the parser writes into its text are modelled as
  slices of it. Without permissions the `perms` field, which the code leaves unset, is 0.
- AclUpdate.Acl.ApplyAll: validity checks and writing the list back to the file are
  foreign code; the password and group files are maps.
