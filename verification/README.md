# Verification of the portable core of mmlib

This project models the parts of mmlib whose correctness does not lie in the operating system, and proves
what they promise. Everything is stated for all inputs, all interleavings or all reachable states.
`dafny verify dfyconfig.toml` checks the whole project.

## What is modelled

**The process-shared robust mutex** (`LockWord`, `MutexProtocol`, `MutexSafety`, `MutexRuns`, `MutexBound`,
`MutexRobust`, `MutexDirty`, `MutexRevival`, `MutexWakeups`, `MutexOverlap`, `MutexProgress`, `MutexCalls`). One 64-bit word packs the owner id, an 8-bit
waiter count, a need-recover bit and the id of the thread that is registering as a waiter. `lock`, `trylock`,
`unlock` and `consistent` are programs of single atomic steps on that word and of requests to a server. They
are modelled as a labelled transition system: a state holds the word, the program counter and locals of every
thread and the server's lock; a run is any sequence of labels, so the runs are all interleavings. An inductive
invariant (`MutexSafety.StepKeepsInv`) carries mutual exclusion, conservation of the count, field isolation,
the life of a robust mutex, the absence of lost wake-ups and deadlock freedom.

**The lock referee** (`Referee`, `RefereeHeap`, `RefereeTheory`, `LockTable`, `LockServer`). The server banks early wake-ups in
a signed counter beside a FIFO queue. The doubly linked queue and the sorted array are heap and array code,
proved against a value (`Referee.Lock`, and a map from keys to locks); the theory of that value is a set of
lemmas over all histories.

**Undoing dead threads** (`CrashUndo`, `CrashRecovery`, `CrashRuns`, `CrashSteps`, `CrashStrands`). The arithmetic of a
cleanup job, against removal of the dead one at a time, then against the reachable states of the mutex, and then
inside runs in which threads die any number of times: a thread stops, is reported, the head of the queue loads the
word and adds the change while the others go on, and the reply wakes a waiter.

**The condition variable** (`CondVar`): tickets, signals and broadcasts, with the referee in between.

**The Windows command line** (`CmdLine`, `CmdLineRead`, `CmdLineFit`, `CmdLineBuffers`): escaping, joining and parsing as functions
with their round trip, the buffer code of all three proved against them, and which lines the allocation suffices for.

**The CRLF text layer** (`Crlf`), **IPC messages** (`Ipc`), **recursive mkdir** (`Mkdir`), **path names**
(`PathNames`) and **help-text wrapping** (`TextWrap`): in-place loops proved against sequence functions, and the
properties of those functions.

The hypotheses on the mutex are those of the code: thread ids are non-zero, below 2^23 and distinct; only the
owner unlocks or marks consistent, and the owner does not lock again (a call that breaks this is not a label of
the system). At most 255 threads use a mutex; `MutexBound.ExclusionExactly` shows that this bound is exact for
runs from a zero word, and `MutexRevival.DirtyExclusionExactly` gives the exact bound for runs from a word whose owner died.

## Where the code and its documentation part

The code was followed in each case; the exact condition under which it keeps its promise is proved.

- Mutual exclusion fails with 256 threads. When the waiter list is full, a newcomer's registration fails and its
  next swap expects a word that still holds owner bits (src/thread-win32.c:354-358, 490-506).
  `MutexBound.ExclusionExactly`: exclusion holds in every run from a zero word exactly for at most 255 threads.
- Two registrations that overlap leave a residue in the topmost field (src/thread-win32.c:361-362, 374-375), and
  both threads can fall asleep on a free mutex. `MutexOverlap.WakeUpsExactly`: without a promise that they do not
  overlap, wake-ups are safe exactly for one thread. `MutexWakeups.NoLostWakeUp`: with it, for all.
- An unrecoverable mutex can be acquired again, through a carry out of the owner field, by a thread that was
  inside the registration loop (src/thread-win32.c:366, 484-490). `MutexRobust.RevivalExactly`: exactly then.
  `MutexRevival.TakenAgainExactly`: from a word whose owner died some run gets there exactly if two threads use the mutex.
- That acquisition breaks mutual exclusion: a thread of id 1 leaves the owner field at 0, and waiters that have left
  stay counted, so the list is full too early. `MutexRevival.DirtyExclusionExactly`: from a word whose owner died
  exclusion holds in every run exactly for a single thread, or for at most 128 threads none of which has the id 1.
  `MutexDirty.OnTimeExclusion`: for at most 255 threads in every run without such a late registration.
- A dead owner of a mutex that already waits for recovery carries out of the recover bit
  (src/pshared-lock.c:183). `CrashUndo.CleanupExactly`: the sum is right exactly if that does not occur.
- A dead client is never dropped from the server's queue: the key that would trigger it is only ever set to 0
  (src/lock-referee-server.c:1091, 1246-1252). If it is cleaned off the word while still queued, it swallows a later
  wake-up, and a waiter is left asleep on a free mutex. `CrashStrands.StrandedExactly`: some orderly run ends so exactly
  if at least three threads use the mutex. `CrashSteps.NoWakeUpLostByDeath`: no wake-up is lost if nobody is cleaned away
  while queued. `CrashRuns.IntendedServerLosesNone`: with a server that drops the dead, none is lost at all.
- A condition waiter can be left asleep although every ticket was signalled, if waiters reach the server out of
  ticket order (src/thread-win32.c:685-689). `CondVar.StrandingExactly`, and `CondVar.SignalsExact` for in-order
  arrivals. It sleeps on until somebody draws a new ticket: `CondVar.StrandedUntilTicket`, `CondVar.LaterTicketReleases`.
- A new waiter can be queued although a wake-up that suits it is banked, behind one that it does not suit
  (src/lock-referee-server.c:286). `RefereeTheory.ReturnsAtOnceExactly` and `RefereeTheory.CoveredButQueued`.
- The pointer table of a parsed command line counts spaces only (src/startup-win32.c:54-57), while other white
  space separates arguments too. `CmdLineFit.FitsExactly`: a scan of the line that keeps two flags, a parity and a
  count decides for every line whether the table suffices; `CmdLineFit.SeparatedWordsFit`: words separated by one
  white-space character fit exactly if it is the space or there is one word.
- When the lock table cannot grow, its recorded size has been doubled all the same (src/lock-referee-server.c:578-581).
  `LockTable.LockArray.GetLock`: the recorded size stays that of the array exactly if growing did not fail.
- MSG_TRUNC is set when the receive buffers are larger than the payload (src/local-ipc-win32.c:390-396), not when they
  are too small. `Ipc.DeserializeMsg`: exactly then. `Ipc.FlagRightExactly`: the flag tells the truth exactly if both
  sizes agree.
- Recursive mkdir succeeds without a directory when another file has the name (src/file.c:190-192). `Mkdir.MkdirRec`:
  on success the path is a directory exactly if it is not such a file.
- Backslashes at the end of an unquoted argument move to the next one, and are lost at the end of the line; white space
  at the start of a line makes an empty argument (src/startup-win32.c:149-160). `CmdLineRead.ReadsAnyLine` says what every line
  made of plain, quoted and literal-quote segments is read as.
- The count that a text write returns is one too high when the system stops between an inserted CR and its LF
  (src/file-win32.c:250-255). `Crlf.CountExactly`: exactly then.
- Help text that starts with one space and a word of the full width has that word cut, although it fits
  (src/argparse.c:377-382). `TextWrap.WordsKeptExactly`.

## Model

| member | source | states |
|---|---|---|
| LockWord.PackDecode | src/mutex-lockval.h:9-17 | every 64-bit word is the packing of its four fields, so the layout loses nothing |
| LockWord.DecodePack | src/mutex-lockval.h:73-79 | fields within their ranges survive packing |
| LockWord.MasksIsolateFields | src/thread-win32.c:361-375 | the two mask operations clear one field and leave the others |
| LockWord.RegisterFields | src/thread-win32.c:354-362 | registering adds one to the count and stores the id exactly if the waiter list is not full |
| LockWord.ReleaseFields | src/thread-win32.c:374-375 | subtracting the id moves the topmost field only, modulo 2^23 |
| LockWord.WaiterAcquireFields | src/thread-win32.c:484-507 | a counted waiter's increment sets the owner and takes one from the count, without a borrow |
| LockWord.UnlockFields | src/thread-win32.c:592-606 | unlock clears the owner; giving up stores the all-ones owner |
| LockWord.ConsistentFields | src/thread-win32.c:639-645 | marking consistent clears the recover bit only |
| MutexSafety.StepKeepsInv | src/thread-win32.c:340-646 | every atomic step of every thread, and every sweep of the server, keeps the invariant (owner, count, locals, queue, released waiters); its last conjunct, that no thread is in the registration loop of a lost mutex, is the one that a step can break |
| MutexSafety.FieldIsolation | src/thread-win32.c:347-644 | in every state of the invariant, the next 64-bit update of any thread is the intended update of the separate fields |
| MutexSafety.RegisterCasStep | src/thread-win32.c:349-368 | one turn of the registration loop keeps the invariant, whether the swap succeeds or fails |
| MutexSafety.RegisteringIsAllowed | src/thread-win32.c:354-367 | under the invariant a thread in the loop never holds a full list nor stands on a lost mutex |
| MutexSafety.UnlockSubStep | src/thread-win32.c:603-613 | the atomic unlock keeps the invariant; giving the mutex up keeps all of it but the conjunct on late registrations |
| MutexRuns.RunKeepsInv | src/thread-win32.c:340-646 | the invariant holds after any run in which no registration starts on a lost mutex |
| MutexRuns.CleanRun | src/thread-win32.c:340-646 | a mutex that needs no recovery keeps the invariant in every run and never becomes unrecoverable |
| MutexRuns.MutualExclusion | src/thread-win32.c:464-621 | for at most 255 threads from a zero word, in every interleaving: one holder at most, the owner field is its id, the count is the number of registered threads |
| MutexRuns.Bystanders | src/thread-win32.c:464-646 | a step moves no other thread, except that a wake-up lets a sleeper reload |
| MutexBound.TooManyThreads | src/thread-win32.c:354-358 | with more than 255 threads some interleaving from a zero word has two holders |
| MutexBound.ExclusionExactly | src/thread-win32.c:354-358 | from a zero word, mutual exclusion in every run if and only if at most 255 threads |
| MutexRobust.AcquireTells | src/thread-win32.c:395-415 | whoever acquires, by lock or trylock, found no owner, and gets EOWNERDEAD exactly if the recover bit is set |
| MutexRobust.GivingUp | src/thread-win32.c:592-613 | only an owner that was told so and did not recover makes the mutex unrecoverable, and it wakes every counted waiter |
| MutexRobust.UnlockFrees | src/thread-win32.c:603-613 | unlocking a consistent mutex frees it, keeps the waiters counted and wakes one if there is any |
| MutexRobust.ConsistentRecovers | src/thread-win32.c:635-646 | after marking consistent no later run sets the bit or loses the mutex |
| MutexRobust.LostForGood | src/thread-win32.c:490-493 | from an unrecoverable word, in every run: nobody acquires, every lock or trylock that completes reports ENOTRECOVERABLE, and the word stays but for the id of a registration under way |
| MutexRobust.NobodyLeftAsleep | src/thread-win32.c:609-613 | once the wake requests are delivered nobody sleeps on an unrecoverable mutex, nor will |
| MutexRobust.RevivalExactly | src/thread-win32.c:349-368 | from a lost mutex some run ends with a thread holding it if and only if a thread is inside the registration loop |
| MutexDirty.StepTracked | src/thread-win32.c:340-646 | every step keeps: on time, or lost with the leftover count bounded, or taken again by one thread under an owner field that never shows free |
| MutexDirty.OnTimeExclusion | src/thread-win32.c:464-621 | from a word whose owner died, exclusion and the count in every run of at most 255 threads without a late registration |
| MutexRevival.ReachesLost | src/thread-win32.c:349-613 | for any two threads and any crowd, a run that gives the mutex up with a thread in the registration loop |
| MutexRevival.TakenAgainExactly | src/thread-win32.c:349-506 | from a word whose owner died, some run loses the mutex and then has a holder if and only if at least two threads use it |
| MutexRevival.FirstIdShares | src/thread-win32.c:484-490 | with a thread of id 1 and any other, a run with two holders |
| MutexRevival.LeftoversFill | src/thread-win32.c:354-358 | with more than 128 threads, a run with two holders |
| MutexRevival.DirtyExclusionExactly | src/thread-win32.c:340-646 | from a word whose owner died, mutual exclusion in every run if and only if one thread, or at most 128 threads without the id 1 |
| MutexWakeups.StepKeepsAlert | src/thread-win32.c:487-517 | every step keeps: a free mutex with waiters has a wake-up banked or a thread that will swap |
| MutexWakeups.NoLostWakeUp | src/thread-win32.c:340-613 | in every run of at most 255 threads without overlapping registrations, registered waiters are never all asleep on a free mutex |
| MutexOverlap.OverlapStrands | src/thread-win32.c:361-375 | for any two threads, an interleaving that leaves both asleep on a free mutex |
| MutexOverlap.WakeUpsExactly | src/thread-win32.c:361-375 | without the promise of no overlap, wake-ups are safe if and only if at most one thread uses the mutex |
| MutexProgress.WaiterCanAcquire | src/thread-win32.c:487-517 | from a free attended mutex some counted waiter owns it after at most five further steps |
| MutexProgress.NoDeadlock | src/thread-win32.c:340-621 | no orderly run reaches a state in which the waiters of a free mutex cannot go on |
| MutexCalls.CallEnds | src/thread-win32.c:395-415 | in any state and for any label: a lock or trylock that ends without the mutex changes nothing and reports ENOTRECOVERABLE exactly on a lost mutex, and EBUSY otherwise, which is trylock only; success is reported by unlock only |
| MutexCalls.TryLockAnswers | src/thread-win32.c:533-571 | in any interleaving a trylock ends by holding a mutex that had no owner, or on a lost one, or with EBUSY after the mutex had an owner or changed during the call |
| MutexCalls.TryLockAlone | src/thread-win32.c:533-571 | alone, trylock holds the mutex exactly if it has no owner; otherwise EBUSY, or ENOTRECOVERABLE on a lost one |
| MutexCalls.LockAlone | src/thread-win32.c:464-517 | alone, lock takes a mutex without owner, at once or as a waiter, and leaves the count as it was |
| MutexCalls.UnlockAlone | src/thread-win32.c:581-621 | alone, unlock frees the mutex or gives it up, and wakes one waiter or all |
| MutexCalls.ConsistentAlone | src/thread-win32.c:635-646 | alone, marking consistent clears the recover bit and nothing else |
| MutexCalls.ServerFollows | src/thread-win32.c:514-613 | the server's lock changes by the waits, wakes and sweeps of the run only, as in its histories |
| MutexCalls.ServerAnswers | src/lock-referee-server.c:283-338 | a thread sleeps, goes on or is woken exactly as the lock answers and delivers |
| Referee.UniformSelection | src/lock-referee-server.c:328-338 | with one common value, a wake request takes a prefix of the queue |
| RefereeHeap.ServerLock.AppendToQueue | src/lock-referee-server.c:220-232 | the doubly linked append is the append of sequences |
| RefereeHeap.ServerLock.DropFromQueue | src/lock-referee-server.c:242-258 | unlinking a node removes exactly it, and leaves that node's own links as they were |
| RefereeHeap.ServerLock.AddWaiter | src/lock-referee-server.c:283-295 | the heap operation is the operation on values; it answers whether the client waits |
| RefereeHeap.ServerLock.WakeWaiters | src/lock-referee-server.c:316-339 | unlinking while walking removes exactly the first `num` clients of value at most `val`, keeps the others in order, and banks the rest |
| RefereeHeap.ServerLock.DropWaiter | src/lock-referee-server.c:351-356 | dropping removes the client and one from the counter |
| RefereeTheory.SelectionExactly | src/lock-referee-server.c:328-338 | up to a cut the eligible clients leave and the others stay in order; beyond it nothing moves; the cut is the end unless `num` left |
| RefereeTheory.BooksBalance | src/lock-referee-server.c:283-356 | after any history with any values: counter = queued + delivered - requested = waits - requested - drops |
| RefereeTheory.ReturnsAtOnceExactly | src/lock-referee-server.c:286-289 | a covered waiter goes on at once if and only if more wake-ups are banked than clients are queued |
| RefereeTheory.MaxWakeExactly | src/lock-referee-server.c:323-325 | after any history the recorded wake value is the largest one requested since the lock was created, or 0 |
| RefereeTheory.CoveredButQueued | src/lock-referee-server.c:286-292 | a family of histories in which a covered waiter is queued behind an uncovered one |
| RefereeTheory.RefinesSemaphore | src/lock-referee-server.c:283-356 | for mutex keys the lock is a counting semaphore: same counter, same queue, same deliveries, same answers |
| RefereeTheory.FirstComeFirstServed | src/lock-referee-server.c:283-356 | for mutex keys, deliveries followed by the queue are the arrivals in order |
| RefereeTheory.SweepsUnobservable | src/lock-referee-server.c:601-622 | for mutex keys, sweeping and recreating locks at any times changes no delivery and no answer |
| RefereeTheory.UnusedExactly | src/lock-referee-server.c:500-506 | for mutex keys a lock is swept if and only if its semaphore is untouched |
| LockTable.LockArray.SearchKeyIndex | src/lock-referee-server.c:528-549 | bisection finds the key exactly if the map has it, and otherwise its only insertion point |
| LockTable.LockArray.GetLock | src/lock-referee-server.c:561-593 | get-or-create changes the map by at most the new key and keeps the order; a failed allocation returns nothing and leaves a recorded size twice the array's |
| LockTable.LockArray.DropUnused | src/lock-referee-server.c:601-622 | the in-place sweep leaves exactly the locks in use, in order |
| LockTable.LockArray.Serve | src/lock-referee-server.c:838-880 | a wait, wake, drop, job or sweep on the array is that request on the map |
| LockTable.InsertTable | src/lock-referee-server.c:574-589 | inserting at the place found is the insertion into the map |
| LockTable.KeptTable | src/lock-referee-server.c:601-622 | on the map, the sweep forgets exactly the unused locks |
| LockTable.KeptSorted | src/lock-referee-server.c:601-622 | the sweep keeps the keys strictly sorted |
| LockServer.TableRefines | src/lock-referee-server.c:561-622 | after any requests for any keys, with any jobs and sweeps, the lock found under a key, and its deliveries, are those of the history of this key's requests alone |
| LockServer.JobsKept | src/lock-referee-server.c:500-506 | sweeps lose no cleanup job, and a lock created again has none |
| LockServer.MutexKeySemaphore | src/lock-referee-server.c:283-622 | for a mutex key the table is a counting semaphore that never heard of other keys, jobs and sweeps |
| CrashUndo.TotalChangeClosed | src/pshared-lock.c:180-193 | the sum over the dead list in closed form, per field |
| CrashUndo.CleanupExactly | src/pshared-lock.c:224-240 | adding the sum from one snapshot equals removing the dead one at a time, if and only if no dead owner finds the recover bit set |
| CrashUndo.RemovalOrder | src/pshared-lock.c:228-234 | the order of the dead does not matter |
| CrashUndo.CleanupMutexLock | src/pshared-lock.c:210-249 | the loop and the reply: the new word, and one wake-up exactly if waiters remain without an owner |
| CrashRecovery.ChargedIsRegistered | src/pshared-lock.c:228-234 | in a reachable state the dead are charged exactly for the registrations they held |
| CrashRecovery.SurvivorsConserved | src/pshared-lock.c:210-249 | after the cleanup the word describes the surviving threads alone, and is marked for recovery if the owner died |
| CrashRuns.DropAllKeep | src/lock-referee-server.c:351-356 | for the intended server: dropping the dead from the queue leaves the queue of the survivors |
| CrashRuns.NothingToDrop | src/lock-referee-server.c:1245-1253 | deaths of threads that are not asleep leave the server's lock as it was |
| CrashRuns.CleanedInv | src/pshared-lock.c:210-240 | for the intended server: the survivors on the cleaned word satisfy the invariant of the mutex |
| CrashRuns.IntendedCrashKeepsAlert | src/pshared-lock.c:210-249 | for the intended server: after any deaths, with the reply's wake-up, the invariant holds and a free mutex with waiters is attended |
| CrashRuns.IntendedServerLosesNone | src/lock-referee-server.c:1225-1252 | for the intended server: no lost wake-up, exclusion and the count in every orderly run, whoever dies and however often |
| CrashSteps.SameDeadStep | src/pshared-lock.c:224-238 | between the load and the addition, the steps of the others leave what the word says of the dead |
| CrashSteps.AddKeeps | src/pshared-lock.c:226-239 | the addition, with the server left as it is, makes the word that of the survivors, if none of those cleaned away is queued |
| CrashSteps.EventKeeps | src/lock-referee-server.c:420-490 | stopping, reporting, starting a job, adding, replying and every step of the living keep the invariant |
| CrashSteps.JobCanStart | src/lock-referee-server.c:434-440 | while a living waiter sleeps and no dead client is queued, a reported death can be dealt with |
| CrashSteps.NoWakeUpLostByDeath | src/pshared-lock.c:210-249 | in every orderly run with deaths in which nobody is cleaned away while queued: exclusion, the count of the waiters, a free mutex with waiters attended, by the reply if need be, and nobody stranded once all deaths are dealt with |
| CrashSteps.TwoAreSafe | src/lock-referee-server.c:434-440 | with at most two threads nobody is stranded, whoever dies |
| CrashStrands.ThreeStrand | src/lock-referee-server.c:1241-1253 | for any three threads, an orderly run after which a dead client has swallowed a wake-up and a waiter sleeps on a free mutex |
| CrashStrands.StrandedExactly | src/lock-referee-server.c:1241-1253 | with the server as it is, deaths can strand a waiter if and only if at least three threads use the mutex |
| CondVar.NoStaleWakeUp | src/thread-win32.c:685-759 | in every run a waiter is released only if a signal or broadcast came after its ticket, by queue, bank or recreated lock |
| CondVar.SignalsExact | src/thread-win32.c:718-759 | with arrivals in ticket order the sleepers are exactly the arrived tickets not yet signalled |
| CondVar.BroadcastCatchesUp | src/thread-win32.c:749-759 | in every run a broadcast brings the wake-up sequence up to the waiter sequence and requests exactly the difference |
| CondVar.BroadcastWakesAll | src/thread-win32.c:743-762 | in order, a broadcast and its delivery release everybody who was asleep, and move nobody else |
| CondVar.BroadcastReachesLatecomers | src/thread-win32.c:743-762 | in order, whoever had a ticket at the broadcast goes on at once when it arrives, however much later |
| CondVar.SignalReleasesOne | src/thread-win32.c:712-730 | a signal and its delivery release at most one thread |
| CondVar.SignalReleasesOldest | src/thread-win32.c:712-730 | in order, exactly the sleeper with the oldest ticket not served yet |
| CondVar.WaitsAgain | src/thread-win32.c:685-690 | a released waiter returns and may draw a ticket newer than all before it |
| CondVar.ServerFollows | src/thread-win32.c:687-759 | the server's lock changes by arrivals, deliveries and sweeps only, as in its histories |
| CondVar.OvertakingStrands | src/thread-win32.c:685-689 | two overtaking arrivals leave a waiter asleep though both tickets were signalled |
| CondVar.StrandedUntilTicket | src/thread-win32.c:718-759 | from a stranded state, in every run without a new ticket, every sleeper stays asleep |
| CondVar.LaterTicketReleases | src/thread-win32.c:685-727 | in every reachable stranded state, a new ticket and a signal release the first stranded waiter |
| CondVar.StrandingExactly | src/thread-win32.c:685-759 | with arrivals in any order, nobody is ever stranded if and only if there is at most one waiter |
| CmdLine.ReadsBack | src/process-win32.c:842-893 | from any parser state inside quotes, the escaped rest of an argument with pending backslashes is read back unchanged |
| CmdLine.ReadsLine | src/startup-win32.c:111-176 | the parser state after a joined line: all arguments but the last finished, the last one pending |
| CmdLine.RoundTrip | src/process-win32.c:787-893 | parsing the space-joined escaped arguments gives back the list, for every non-empty list |
| CmdLineRead.ReadsSeg | src/startup-win32.c:125-169 | outside quotes a plain segment, a literal quote and a quoted segment are each read as meant, held backslashes first |
| CmdLineRead.ReadsAnyLine | src/startup-win32.c:111-183 | every line of such arguments, between any runs of white space, is read as written, but for the moved backslashes and the empty argument of leading white space |
| CmdLineRead.ReadsBareWords | src/startup-win32.c:111-183 | words without white space and quotes, not ending in a backslash, joined by any white-space character, are the arguments |
| CmdLineRead.ReadsNothing | src/startup-win32.c:172-176 | a line of nothing but white space is one empty argument |
| CmdLineBuffers.EscapeCmdStr | src/process-win32.c:842-893 | writes the escaped string and its terminator and nothing else; the pass without a buffer returns the same length |
| CmdLineBuffers.EscapeArgv | src/process-win32.c:919-972 | every escaped argument stands at its recorded offset, also after the block was grown |
| CmdLineBuffers.ConcatStrv | src/process-win32.c:760-803 | the precomputed length suffices, and the buffer holds the strings joined by the separator |
| CmdLineBuffers.ParseCmdline | src/startup-win32.c:42-183 | for every line: the pointers stay within the table exactly if `TableFits`, and then the parsed arguments stand behind the null-terminated pointers; the string pool always suffices |
| CmdLineFit.FitsExactly | src/startup-win32.c:118-179 | the scan counts the arguments of every line, so the table suffices if and only if the scan says so |
| CmdLineFit.UnquotedLineFits | src/startup-win32.c:54-64 | for lines without quotes, if and only if the runs of white space do not outnumber the spaces |
| CmdLineFit.EscapedLineFits | src/startup-win32.c:54-64 | the estimate suffices for every line that the printer makes |
| CmdLineFit.SpacedLineFits | src/startup-win32.c:54-64 | the estimate suffices for every line whose only white space is the space |
| CmdLineFit.SeparatedWordsFit | src/startup-win32.c:54-64 | for words separated by one white-space character, it suffices if and only if that is the space or there is one word |
| Crlf.CarryRoundTrip | src/utils-win32.h:119-140 | setting, reading and dropping the carried character agree and keep the other bits of the info word |
| Crlf.ConvCrlfToLf | src/file-win32.c:320-351 | converts the chunk behind the carried character in place, within the buffer, and carries on exactly what `Convert` does |
| Crlf.ConvertLoop | src/file-win32.c:335-343 | the in-place loop never overtakes unread input |
| Crlf.StreamStrips | src/file-win32.c:320-351 | for every split into chunks and every buffer size, outputs plus the last carry are the input without each CR before LF |
| Crlf.StripLaws | src/file-win32.c:335-343 | the conversion keeps single bytes, turns CR LF into LF, and converts pieces on their own unless cut between CR and LF |
| Crlf.DeliversMost | src/file-win32.c:345-349 | a character is carried on only if it is a CR or the buffer is full |
| Crlf.StripExpand | src/file-win32.c:241-247 | removing inverts inserting, for texts with CR and CRLF in them too |
| Crlf.WriteThenRead | src/file-win32.c:231-351 | what the writer emits reads back as the text, in any chunking |
| Crlf.CountExactly | src/file-win32.c:250-255 | the corrected count is the number of source bytes written if and only if no inserted pair was cut |
| Crlf.HndWriteText | src/file-win32.c:231-260 | the loops: the expanded buffer fits twice the size, and the returned count |
| Ipc.WriteAncillaryData | src/local-ipc-win32.c:233-271 | a header of all duplicates in order, or failure with every duplicate made so far closed |
| Ipc.SerializeMsg | src/local-ipc-win32.c:289-319 | the header, and behind it the longest prefix of the data that one datagram holds; -1 exactly if the handles cannot be passed |
| Ipc.ReadAncillaryData | src/local-ipc-win32.c:332-357 | every handle is installed in order or closed, once; MSG_CTRUNC exactly if one was closed |
| Ipc.DeserializeMsg | src/local-ipc-win32.c:369-404 | handles installed or closed, buffers filled from the front and otherwise untouched, MSG_TRUNC exactly if the buffers exceed the payload |
| Ipc.FlagRightExactly | src/local-ipc-win32.c:390-396 | the flag agrees with the truth, payload larger than buffers, if and only if both sizes are equal; with a byte and no buffer it does not |
| Ipc.ScatterGather | src/local-ipc-win32.c:386-401 | in a row, the buffers hold the data as far as both reach, then their old content |
| Ipc.MessageRoundTrip | src/local-ipc-win32.c:289-404 | for any split on both sides the buffers hold the first min(capacity, capped payload) bytes sent |
| Mkdir.InternalDirname | src/file.c:150-171 | the buffer is cut exactly over the separators before the last name, or "." is returned and it is untouched |
| Mkdir.CutIsParent | src/file.c:150-171 | what stands before the cut names the parent directory |
| Mkdir.MkdirRec | src/file.c:184-215 | recursion ends and restores the buffer byte for byte on every way out; success exactly if the path names a file or nothing missing on the way is refused or a file; then it is a directory unless a file has the name; nothing else is created |
| Mkdir.AncestorsExist | src/file.c:184-215 | where the directory exists, every ancestor does |
| Mkdir.RestoreSeparators | src/file.c:204-207 | writing separators back until the next character undoes the cut |
| Mkdir.IsWildcardDirectory | src/file-internal.h:20-31 | the loop recognises exactly "." and ".." |
| PathNames.AnatomyExactly | src/utils.c:342-367 | a path has a directory, separators, base name, trailing separators cut if and only if it has another character than separators |
| PathNames.AnatomyGivesNames | src/utils.c:342-489 | such a cut is unique, and the two names are its parts |
| PathNames.NamelessPaths | src/utils.c:403-413 | the empty path gives "." twice, a path of separators one separator twice |
| PathNames.JoinSplits | src/utils.c:370-489 | joining the two names by any separator and splitting again gives the same names |
| PathNames.NamesFit | src/utils.c:383-386 | both names with their terminator fit max(length + 1, 2) characters |
| PathNames.ClimbArrives | src/utils.c:455-489 | taking directory names from any path arrives at "." or a lone separator, and stays there |
| PathNames.NamesInTheTree | src/utils.c:342-489 | in the directory tree the directory name leads to the parent and the base name is the last component |
| PathNames.BaseNameInto | src/utils.c:396-423 | writes the base name and its terminator and nothing else, also if the buffers overlap |
| PathNames.DirNameInto | src/utils.c:455-489 | the same for the directory name |
| PathNames.OverwrittenAt | src/utils.c:417-420 | writing a name changes its own characters only |
| TextWrap.LinesFit | src/argparse.c:362-401 | every line is at most as wide as the text column and holds no line feed |
| TextWrap.InkConserved | src/argparse.c:362-401 | all characters other than spaces and line feeds are printed in order, once |
| TextWrap.WordsKeptExactly | src/argparse.c:371-384 | words stay whole if and only if none is too long and the text does not start with one space and a word of the full width |
| TextWrap.LinesFilled | src/argparse.c:369-400 | every line begins where the previous one stopped, at most one line feed and spaces lie between, and it is filled: with one space and the next word it reaches the width, and exceeds it unless that word ends the paragraph |
| TextWrap.PrintedLines | src/argparse.c:386 | in the output every line stands behind an indentation of spaces, the first behind the header padded to it |
| TextWrap.GetFirstTokenLength | src/argparse.c:95-105 | the length up to the first line feed or the end |
| TextWrap.PrintTextWrapped | src/argparse.c:362-401 | the loop ends and prints the wrapped lines, indented, with the header on the first |

## Left out

- Timed waits, the removal of dying waiters and the dispatch of cleanup jobs by the server (src/lock-referee-server.c:372-500, 1085-1260).
- The return value of marking consistent (0 or EINVAL); its effect is modelled.
- LockTable.LockArray.Serve: takes the array to grow when it must; `LockTable.LockArray.GetLock` covers the failure.
- The list of locked keys in a thread's robust data and its order of unlocking; a thread here uses one mutex at a time.
- CrashSteps.NoWakeUpLostByDeath: registrations, those of stopped threads included, do not overlap and none is late; each dead thread is reported once, and not while a job is in progress, when the code's reset of the dead list could wipe the report (src/pshared-lock.c:241); no owner is cleaned off a mutex that already waits for recovery, and nobody off a lost one; a job given to a client that is dead or dies before it is done is not carried out.
- CrashRuns.IntendedServerLosesNone: is, like `CrashRuns.IntendedCrashKeepsAlert`, about the server that src/lock-referee-server.c:1225-1252 describes, which drops a dead client from its queue; the code does not get there. Death, report, cleanup and reply are one event.
- CrashStrands.StrandedExactly: a dead client in the queue is taken to receive wake-ups like a living one; that its memory has been freed is not modelled.
- CrashRecovery.SurvivorsConserved: a thread that dies between its registration and the release of its id may be reported with or without the waiter flag; both are covered, but only while registrations do not overlap.
- MutexWakeups.NoLostWakeUp: registrations must not overlap and none may start on a lost mutex; `MutexOverlap.WakeUpsExactly` shows why.
- MutexProgress.NoDeadlock: states that a run exists in which a waiter acquires, not that a fair scheduler takes it.
- MutexRobust.LostForGood: a thread already inside the registration loop is excluded; `MutexRobust.RevivalExactly` shows why.
- Bit masks of the lock word and of the descriptor info are written as division and remainder on the unsigned value.
- The mutable `wakeup_val` of a client is a constant of one request (`RefereeHeap.Client`).
- LockTable.LockArray.GetLock: the element that `memmove` copies beyond the live tail is not modelled.
- Allocation failures everywhere else; buffers are allocated successfully.
- CmdLineBuffers.ParseCmdline: stops, and says so, where the code would write a pointer beyond the table; what that write does to the strings behind the table is not modelled.
- CmdLineBuffers.EscapeArgv: the table of pointers lies in a sequence of its own instead of at the front of the block.
- CmdLine.RoundTrip: is about the repository's own parser; CommandLineToArgvW is not part of this model.
- The carry of the text layer across two calls of mm_read, which keeps the info word in a local variable (src/file-win32.c:439-450).
- Conversions between UTF-8 and UTF-16, which are taken as the identity on code units.
- Ipc.SerializeMsg: the header is a sequence of handles with their information; its layout in bytes is not modelled.
- Mkdir.MkdirRec: the meaning of success is stated for paths without "." and ".." components; for others only termination and the restored buffer.
- TextWrap.PrintTextWrapped: the text column must be at least one character wide, as at its callers.
- POSIX wrappers, sockets, shared memory, logging, error state, dynamic loading, process spawning and the environment cache.
