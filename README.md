# DJIT+ vector-clock race detectors and a heap-bounds checker, in Dafny

This project models the analysis core of a small collection of dynamic
program-analysis tools.

- **The fixed-width analyzer** (`djit-plus-vc/fixed.hpp`):
  - `FixedVectorClock<N>` holds one logical time per thread. It has a pointwise-maximum merge (`|=`, `|`), a pointwise order (`<=`) and that order's negation (`>`).
  - `Analyzer<NThread>` is a DJIT+ happens-before detector. It keeps a clock per thread, a read clock and a write clock per `Variable`, and a clock per `Lock`.
  - Each `Read`/`Write` stamps the accessing thread's own time, then checks whether earlier accesses are ordered before the thread's clock.
  - `Acquire` merges a lock's clock into the thread's clock. `Release` publishes the thread's clock to the lock.
  - The two event traces of `djit-plus-vc/main.cpp` are replayed with their verdicts.
- **The map-based race detector** (`pintools/VectorClock/VectorClock.cpp`):
  - `VC<T>` is a sparse clock: a map from thread id to time, where an absent thread means time 0.
  - The detector state is the global tables `thread_vc`, `read_vc`, `write_vc`, `lock_vc`, `thread_to_id` and `Fork`'s counter. Here they are the fields of one `Detector` object.
  - Modelled: the analysis routines, the race check inside `CheckOverflow`, the mutex wrappers, and the symbol filter that chooses which addresses are watched.
- **The heap-bounds checker** (`pintools/Overflow/Overflow.cpp`):
  - The blocks that `malloc` returns after `main` has started are recorded.
  - An access is out of bounds when no recorded block covers its address.

Modelling conventions:

- Clocks are values: the source copies them whenever it stores one.
- Clock times are unbounded naturals.
- The violation handlers and the race reports become returned booleans.
- A `std::map` lookup through `operator[]` inserts a default entry when the key is missing. The model writes that insertion out wherever the source relies on it:
  - `Lookup` / `Entry` give the value read;
  - `Touch` gives the map after the read;
  - `WithThread` models `ThreadVCMap::operator[]`, which creates `{tid: 1}` for a thread seen for the first time.
- In `fixed.hpp`, `thread_vc_` is a fixed array and stays an `array` in the model. The tables are `map` fields that the methods reassign.

Behaviour of the code that a reader might not expect (the model follows the code):

- **Unregistered variables and locks.** Unregistered names are not an error in `fixed.hpp`. `Read`, `Write`, `Acquire` and `Release` (`djit-plus-vc/fixed.hpp:78-101`) reach the tables through `std::map::operator[]`, which creates an all-zero clock. `FixedAnalyzer.Analyzer.Read` and the methods like it state that insertion.
- **The unprotected trace.** In the unprotected trace of `djit-plus-vc/main.cpp` both writes are reported: thread 0's write already meets thread 1's unordered read (`FixedTraces.UnprotectedTrace`).
- **Release order.** The two variants take the lock's copy at different times:
  - `VectorClock.cpp` copies the thread clock first and then advances the thread's own time, so the lock holds an own time one behind.
  - `fixed.hpp` advances first and then copies.

  Both orders are modelled as written.

## Model

| member | source | states |
|---|---|---|
| FixedClock.Zero | djit-plus-vc/fixed.hpp:22-24 | the value-initialised clock has N components, all 0 |
| FixedClock.Merge | djit-plus-vc/fixed.hpp:43-49 | `lhs \| rhs` keeps the length; both operands are `<=` the result; each component is taken from one of the operands |
| FixedClock.MergeInto | djit-plus-vc/fixed.hpp:34-41 | the in-place loop of `\|=` ends with exactly the pointwise maximum of the two clocks |
| FixedClock.LessEq | djit-plus-vc/fixed.hpp:51-60 | the early-exit scan returns true iff every component of lhs is at most the matching one of rhs |
| FixedClock.Greater | djit-plus-vc/fixed.hpp:62-66 | `>` is true iff some component of lhs exceeds rhs's, the exact negation of `<=` |
| FixedClock.MergeLeast | djit-plus-vc/fixed.hpp:43-49 | any clock above both operands is above their merge, so merge is the least upper bound |
| FixedClock.MergeCommutative | djit-plus-vc/fixed.hpp:43-49 | merge is commutative |
| FixedClock.MergeAssociative | djit-plus-vc/fixed.hpp:43-49 | merge is associative |
| FixedClock.MergeIdempotent | djit-plus-vc/fixed.hpp:43-49 | merging a clock with itself gives it back |
| FixedClock.MergeAbsorbs | djit-plus-vc/fixed.hpp:34-41 | merging b into a leaves a unchanged iff b `<=` a |
| FixedClock.LeqReflexive | djit-plus-vc/fixed.hpp:51-60 | `<=` is reflexive |
| FixedClock.LeqTransitive | djit-plus-vc/fixed.hpp:51-60 | `<=` is transitive |
| FixedClock.LeqAntisymmetric | djit-plus-vc/fixed.hpp:51-60 | clocks `<=` each other are equal |
| FixedAnalyzer.InitialClock | djit-plus-vc/fixed.hpp:71-75 | thread i's initial clock has N components: component i is 1, all others 0 |
| FixedAnalyzer.Lookup | djit-plus-vc/fixed.hpp:78-79 | `m[k]` on a clock table gives the stored clock for a present key and the all-zero clock of N components for a missing one |
| FixedAnalyzer.Analyzer.constructor | djit-plus-vc/fixed.hpp:71-75 | every thread clock starts as `InitialClock`; there are no variable or lock clocks and both name lists are empty; the invariant holds |
| FixedAnalyzer.Analyzer.Read | djit-plus-vc/fixed.hpp:77-85 | only `read_vc_[x][t]` changes, to t's own time (and a missing `write_vc_[x]` is created as zero); the result is true iff `write_vc_[x] > thread_vc_[t]`, equivalently iff some other thread's write time exceeds t's view of it; the update happens either way |
| FixedAnalyzer.Analyzer.Write | djit-plus-vc/fixed.hpp:86-94 | only `write_vc_[x][t]` changes, to t's own time; `read_vc_[x]` is looked up only when the write test passes (`\|\|`); the result is true iff the new write clock or the read clock exceeds t's clock, equivalently iff some OTHER thread's time does, so the fresh own component never triggers it |
| FixedAnalyzer.Analyzer.Acquire | djit-plus-vc/fixed.hpp:95-98 | thread t's clock becomes its merge with the lock's clock (a missing lock clock is created as zero); no other thread clock, and no lock clock, changes; no thread-clock component decreases |
| FixedAnalyzer.Analyzer.Release | djit-plus-vc/fixed.hpp:99-103 | t's own time rises by exactly 1, then the lock holds a copy of t's new clock; nothing else changes; no thread-clock component decreases |
| FixedAnalyzer.Analyzer.RegisterVariable | djit-plus-vc/fixed.hpp:105-110 | the variable is appended to the list every time; all-zero read and write clocks are created only when absent, and existing clocks are left as they are |
| FixedAnalyzer.Analyzer.RegisterLock | djit-plus-vc/fixed.hpp:111-115 | the lock is appended every time; an all-zero lock clock is created only when absent |
| FixedAnalyzer.Analyzer.GetThreadVC | djit-plus-vc/fixed.hpp:124-126 | `at(t)` succeeds exactly for 0 <= t < N and then returns `thread_vc_[t]`, a clock of N components whose own time is at least 1 |
| FixedAnalyzer.Analyzer.GetReadVC | djit-plus-vc/fixed.hpp:127-129 | `at(x)` succeeds exactly when x has a read clock and then returns `read_vc_[x]`, of N components |
| FixedAnalyzer.Analyzer.GetWriteVC | djit-plus-vc/fixed.hpp:130-132 | `at(x)` succeeds exactly when x has a write clock and then returns `write_vc_[x]`, of N components |
| FixedAnalyzer.Analyzer.GetLockVC | djit-plus-vc/fixed.hpp:133-135 | `at(m)` succeeds exactly when m has a lock clock and then returns `lock_vc_[m]`, of N components |
| FixedTraces.Registered | djit-plus-vc/main.cpp:54-69 | on two threads with x and m registered, the thread clocks are [1, 0] and [0, 1] and the clocks of x and m are all zero |
| FixedTraces.Thread0Acquires | djit-plus-vc/main.cpp:96 | acquiring a lock no one has released leaves thread 0 at [1, 0] |
| FixedTraces.Thread0Reads | djit-plus-vc/main.cpp:97 | thread 0's first read of x is not reported and records its time 1 |
| FixedTraces.Thread0Writes | djit-plus-vc/main.cpp:98 | thread 0's write after its own read is not reported |
| FixedTraces.Thread0Releases | djit-plus-vc/main.cpp:99 | the release advances thread 0 to [2, 0] and m keeps [2, 0] |
| FixedTraces.Thread1Acquires | djit-plus-vc/main.cpp:100 | thread 1 acquires m and learns thread 0's time: [2, 1] |
| FixedTraces.Thread1Reads | djit-plus-vc/main.cpp:101 | thread 1's read is not reported, since thread 0's write is ordered before it |
| FixedTraces.Thread1Writes | djit-plus-vc/main.cpp:102 | thread 1's write is not reported, since both accesses of thread 0 are ordered before it |
| FixedTraces.Thread1Releases | djit-plus-vc/main.cpp:103 | the release leaves thread 1 at [2, 2] and m at [2, 2] |
| FixedTraces.LockProtectedTrace | djit-plus-vc/main.cpp:95-103 | `acq0 rd0 wr0 rel0 acq1 rd1 wr1 rel1` on two threads reports no violation |
| FixedTraces.Thread1ReadsToo | djit-plus-vc/main.cpp:106 | without the lock, thread 1's read is not reported: reads are not checked against reads |
| FixedTraces.Thread0WritesRacing | djit-plus-vc/main.cpp:107 | without the lock, thread 0's write is reported: thread 1's read is not ordered before it |
| FixedTraces.Thread1WritesRacing | djit-plus-vc/main.cpp:108 | thread 1's write is reported: thread 0's write is not ordered before it |
| FixedTraces.UnprotectedTrace | djit-plus-vc/main.cpp:105-108 | `rd0 rd1 wr0 wr1` reports neither read and both writes |
| SparseClock.Merge | pintools/VectorClock/VectorClock.cpp:44-51 | the merged clock knows the threads of both operands; both operands are `<=` it; each time comes from one operand |
| SparseClock.MergeInto | pintools/VectorClock/VectorClock.cpp:44-51 | the loop of `\|=` over rhs (inserting 0 for a missing tid, then raising it) yields exactly `Merge`; tids only in lhs keep their times |
| SparseClock.LessEq | pintools/VectorClock/VectorClock.cpp:53-63 | the corrected `<=`: false for a positive lhs time missing from rhs; otherwise true iff no lhs time exceeds rhs's; an absent tid reads as 0 |
| SparseClock.Greater | pintools/VectorClock/VectorClock.cpp:65-67 | `>` is true iff some lhs time exceeds rhs's, the negation of `<=` |
| SparseClock.LeqReflexive | pintools/VectorClock/VectorClock.cpp:53-63 | `<=` is reflexive |
| SparseClock.LeqTransitive | pintools/VectorClock/VectorClock.cpp:53-63 | `<=` is transitive |
| SparseClock.LeqAntisymmetric | pintools/VectorClock/VectorClock.cpp:53-63 | clocks `<=` each other give every thread the same time |
| SparseClock.MergeLeast | pintools/VectorClock/VectorClock.cpp:44-51 | merge is the least upper bound |
| SparseClock.MergeCommutative | pintools/VectorClock/VectorClock.cpp:44-51 | merge is commutative |
| SparseClock.MergeAssociative | pintools/VectorClock/VectorClock.cpp:44-51 | merge is associative |
| SparseClock.MergeIdempotent | pintools/VectorClock/VectorClock.cpp:44-51 | merging a clock with itself gives it back |
| SparseClock.MergeEmpty | pintools/VectorClock/VectorClock.cpp:44-51 | the empty clock `VC<int>{}` is the identity of merge, on either side |
| SparseClock.MergePositive | pintools/VectorClock/VectorClock.cpp:44-51 | merging clocks whose times are all positive gives such a clock |
| SparseClock.LeqAsWrittenFrom | pintools/VectorClock/VectorClock.cpp:54-62 | the loop as written over the tids still to visit, in ascending order: Fails on a positive lhs time missing from rhs, Undefined on a 0 time missing from rhs, Fails on a larger time, otherwise goes on and ends in Holds; Undefined only arises from a tid with time 0 missing from rhs |
| SparseClock.LeqAsWritten | pintools/VectorClock/VectorClock.cpp:53-63 | `<=` as written, the loop over all tids of lhs; its verdict is Undefined only when some tid of lhs has time 0 and is missing from rhs |
| SparseClock.LeqAsWrittenFromAgrees | pintools/VectorClock/VectorClock.cpp:54-62 | each step of the loop as written that returns a verdict returns the intended one |
| SparseClock.LeqAsWrittenAgrees | pintools/VectorClock/VectorClock.cpp:53-63 | wherever `<=` as written is defined, it agrees with the intended order |
| SparseClock.LeqAsWrittenFromDefined | pintools/VectorClock/VectorClock.cpp:54-62 | the loop as written never reaches the end-iterator dereference when every lhs time is positive |
| SparseClock.LeqAsWrittenDefinedOnPositive | pintools/VectorClock/VectorClock.cpp:53-63 | on clocks with positive times only, `<=` as written is defined and holds iff the intended order holds |
| SparseClock.LeqAsWrittenDereferencesEnd | pintools/VectorClock/VectorClock.cpp:56-58 | for lhs {1: 0} and an empty rhs, `<=` as written is undefined, while the intended answer is true |
| RaceDetector.NewThreadClock | pintools/VectorClock/VectorClock.cpp:95-97 | a thread's first clock knows only itself, at time 1 |
| RaceDetector.WithThread | pintools/VectorClock/VectorClock.cpp:94-99 | `thread_vc[tid]` adds `{tid: 1}` for an unseen thread and leaves every known clock as it is |
| RaceDetector.Entry | pintools/VectorClock/VectorClock.cpp:212-214 | `read_vc[a]` (and the other tables) gives the stored clock for a present address and the empty clock for a missing one |
| RaceDetector.Touch | pintools/VectorClock/VectorClock.cpp:233-240 | after the lookup, the table holds an entry for the address and every existing entry is unchanged |
| RaceDetector.Increment | pintools/VectorClock/VectorClock.cpp:34-36 | `++c[tid]` raises tid's time by exactly 1 (from 0 when absent) and leaves every other time alone |
| RaceDetector.IncrementGrows | pintools/VectorClock/VectorClock.cpp:229-230 | advancing a time never lowers the clock |
| RaceDetector.HandleId | pintools/VectorClock/VectorClock.cpp:257 | `thread_to_id[h]` gives the id recorded for a known handle, so a handle recorded by `Fork` joins that child, and thread 0 for an unknown one |
| RaceDetector.WithThreadConsistent | pintools/VectorClock/VectorClock.cpp:94-99 | creating a thread clock keeps the thread clocks consistent (own entry present, times positive) |
| RaceDetector.AbsorbConsistent | pintools/VectorClock/VectorClock.cpp:222-225 | a thread clock absorbing a positive clock keeps the thread clocks consistent |
| RaceDetector.AbsorbThreads | pintools/VectorClock/VectorClock.cpp:224 | `thread_vc[tid] \|= lock_vc[lock]` done with the `\|=` loop: tid's clock (created when new) becomes its merge with the lock's clock, and the other thread clocks are kept |
| RaceDetector.ForkClocks | pintools/VectorClock/VectorClock.cpp:251-252 | the thread clocks after `Fork`: both clocks are created when new, the child absorbs the parent's clock, then the parent's own time advances; afterwards exactly the old threads, the parent and the child have clocks |
| RaceDetector.ForkThreads | pintools/VectorClock/VectorClock.cpp:251-252 | the update done with the `\|=` loop and `++` yields exactly `ForkClocks` |
| RaceDetector.ForkOrders | pintools/VectorClock/VectorClock.cpp:244-253 | after a fork: the child's clock is `<=`-above the parent's clock from before; the parent's own time is one higher; only the two clocks change |
| RaceDetector.ForkConsistent | pintools/VectorClock/VectorClock.cpp:244-253 | a fork keeps the thread clocks consistent |
| RaceDetector.JoinClocks | pintools/VectorClock/VectorClock.cpp:258-259 | the thread clocks after `Join`: both clocks are created when new, the parent absorbs the child's clock, then the child's own time advances; afterwards exactly the old threads, the parent and the child have clocks |
| RaceDetector.JoinThreads | pintools/VectorClock/VectorClock.cpp:258-259 | the update done with the `\|=` loop and `++` yields exactly `JoinClocks` |
| RaceDetector.JoinOrders | pintools/VectorClock/VectorClock.cpp:255-260 | after a join: the parent's clock is `<=`-above the child's clock from before; the child's own time is one higher; only the two clocks change |
| RaceDetector.JoinConsistent | pintools/VectorClock/VectorClock.cpp:255-260 | a join keeps the thread clocks consistent |
| RaceDetector.StoredClocksCompareSafely | pintools/VectorClock/VectorClock.cpp:233-240 | every clock the detector stores is compared by `<=` as written without reaching the end-iterator dereference |
| RaceDetector.SymbolType | pintools/VectorClock/VectorClock.cpp:192 | `ELF64_ST_TYPE` is the low four bits of `st_info`: below 16, and `st_info` is 16 times its binding plus the type |
| RaceDetector.Reset | pintools/VectorClock/VectorClock.cpp:195-200 | assigning `VC<int>{}` at a set of addresses adds those addresses with empty clocks and keeps every other entry |
| RaceDetector.LoadTables | pintools/VectorClock/VectorClock.cpp:191-203 | after the loop: every watched variable that is a data object has empty read and write clocks; every other watched lock that is a data object has an empty lock clock; other entries are kept, whatever the visiting order |
| RaceDetector.Detector.constructor | pintools/VectorClock/VectorClock.cpp:112-113 | all tables start empty and the fork counter at 0 |
| RaceDetector.Detector.ThreadClock | pintools/VectorClock/VectorClock.cpp:94-99 | returns tid's clock, creating `{tid: 1}` for a new thread, and changes nothing else |
| RaceDetector.Detector.Read | pintools/VectorClock/VectorClock.cpp:212-215 | only `read_vc[addr][tid]` changes, to tid's own time (plus lazy creation of tid's clock) |
| RaceDetector.Detector.Write | pintools/VectorClock/VectorClock.cpp:217-220 | only `write_vc[addr][tid]` changes, to tid's own time (plus lazy creation of tid's clock) |
| RaceDetector.Detector.NoRaceForWrite | pintools/VectorClock/VectorClock.cpp:233-236 | true iff the read and the write clocks of addr are both `<=` tid's clock; the write clock is looked up (and created) only when the read test passes |
| RaceDetector.Detector.NoRaceForRead | pintools/VectorClock/VectorClock.cpp:238-240 | true iff the write clock of addr is `<=` tid's clock |
| RaceDetector.Detector.Acquire | pintools/VectorClock/VectorClock.cpp:222-225 | tid's clock becomes its merge with the lock's clock; nothing else changes except lazy creation |
| RaceDetector.Detector.Release | pintools/VectorClock/VectorClock.cpp:227-231 | the lock gets tid's clock from BEFORE the increment, then tid's own time rises by 1, so `lock_vc[m][tid] + 1 == thread_vc[tid][tid]` |
| RaceDetector.Detector.Fork | pintools/VectorClock/VectorClock.cpp:244-253 | the counter rises by 1 and becomes the child's id for the handle; the thread clocks become `ForkClocks` of the old ones |
| RaceDetector.Detector.Join | pintools/VectorClock/VectorClock.cpp:255-260 | the handle's id (0 and recorded when unknown) is joined; the thread clocks become `JoinClocks` of the old ones |
| RaceDetector.Detector.CheckAccess | pintools/VectorClock/VectorClock.cpp:269-298 | an address without a read clock changes nothing and reports nothing; a write is stamped and reported iff not (read clock `<=` C and write clock `<=` C); a read is stamped and reported iff not (write clock `<=` C) |
| RaceDetector.Detector.OnMutexLock | pintools/VectorClock/VectorClock.cpp:328-331 | only a mutex with a lock clock is acquired; any other lock changes nothing |
| RaceDetector.Detector.OnMutexUnlock | pintools/VectorClock/VectorClock.cpp:341-344 | only a mutex with a lock clock is released; any other unlock changes nothing |
| RaceDetector.Detector.LoadSymbols | pintools/VectorClock/VectorClock.cpp:191-203 | the read, write and lock tables become those of `LoadTables`; the thread state is unchanged |
| RaceTraces.FirstFork | pintools/VectorClock/VectorClock.cpp:244-253 | the main thread's first fork leaves it at {0:2} and the child at {0:1, 1:1} |
| RaceTraces.MainLearnsChild | pintools/VectorClock/VectorClock.cpp:44-51 | merging {0:1, 1:1} into {0:2} gives {0:2, 1:1} |
| RaceTraces.BothThreadsKnown | pintools/VectorClock/VectorClock.cpp:94-99 | after the first fork, looking up either thread creates no new clock |
| RaceTraces.ChildAdvances | pintools/VectorClock/VectorClock.cpp:259 | the join advances the child from {0:1, 1:1} to {0:1, 1:2} |
| RaceTraces.JoinAfterFirstFork | pintools/VectorClock/VectorClock.cpp:255-260 | joining the child after the first fork gives the main thread {0:2, 1:1} and the child {0:1, 1:2} |
| RaceTraces.Watching | pintools/VectorClock/VectorClock.cpp:191-203 | loading a global variable and a global mutex (`st_info` 0x11) and a global function (0x12) watches exactly the variable and the mutex |
| RaceTraces.Forked | pintools/VectorClock/VectorClock.cpp:244-253 | the detector state after the first fork |
| RaceTraces.ChildWrites | pintools/VectorClock/VectorClock.cpp:269-283 | the child's first write of x is not a race |
| RaceTraces.ForkJoinTrace | pintools/VectorClock/VectorClock.cpp:255-260 | child write, join, main read: neither access is a race |
| RaceTraces.MissingJoinTrace | pintools/VectorClock/VectorClock.cpp:238-240 | without the join, the main thread's read is a race |
| RaceTraces.ChildLocks | pintools/VectorClock/VectorClock.cpp:328-331 | locking a mutex that no one has released leaves the child's clock unchanged |
| RaceTraces.ChildWritesLocked | pintools/VectorClock/VectorClock.cpp:341-344 | the child's unlock leaves {0:1, 1:1} on the mutex and the child at {0:1, 1:2} |
| RaceTraces.LockedTrace | pintools/VectorClock/VectorClock.cpp:317-344 | a write and a read both done under the mutex are not races |
| Overflow.NothingRecordedNothingInBounds | pintools/Overflow/Overflow.cpp:63-70 | with no recorded block, every access is out of bounds |
| Overflow.UpperBoundExclusive | pintools/Overflow/Overflow.cpp:65 | the byte at `addr + size` is not covered; a size-0 block covers nothing; nothing below `addr` is covered |
| Overflow.InBoundsAppend | pintools/Overflow/Overflow.cpp:94-96 | appending a block adds exactly the bytes it covers to those in bounds |
| Overflow.InBoundsMembers | pintools/Overflow/Overflow.cpp:63-69 | an address is in bounds iff some recorded block covers it, wherever that block sits |
| Overflow.InBoundsOrderFree | pintools/Overflow/Overflow.cpp:64-68 | any reordering of the recorded blocks gives the same verdict; `break` only stops early |
| Overflow.HeapTracker.constructor | pintools/Overflow/Overflow.cpp:53-77 | no block recorded and main not started |
| Overflow.HeapTracker.CheckOverflow | pintools/Overflow/Overflow.cpp:62-69 | the scan reports out of bounds iff no recorded block satisfies `addr <= mem_addr < addr + size`; it changes nothing |
| Overflow.HeapTracker.OnMainStarted | pintools/Overflow/Overflow.cpp:79-81 | sets the flag and records no block |
| Overflow.HeapTracker.JitMalloc | pintools/Overflow/Overflow.cpp:94-96 | `(ret, size)` is appended at the end only when main has started; otherwise nothing changes; existing blocks are kept |
| Overflow.OverflowTrace | pintools/Overflow/Overflow.cpp:62-96 | a block allocated before main is ignored; the last byte of a 16-byte block is in bounds, the byte after it is not |

`GetVariables` and `GetLocks` (`djit-plus-vc/fixed.hpp:117-122`) return the two name lists as they are and carry no contract of their own. What `Register` appends to those lists is stated by `RegisterVariable` and `RegisterLock`.

## Left out

- PIN instrumentation and glue is not part of this model: `ObserveMemAccess`, the `Replace*` routines, `InsertMainMarker`, `main`, `Usage`, `Demangle`, the command-line knobs, and the `PIN_CallApplicationFunction` calls inside the wrappers. These are calls into a binary-instrumentation framework.
  - `ThreadCtorWrapper` and `ThreadJoinWrapper` only forward to `Fork` and `Join`, which are modelled.
  - The model assumes that the id `Fork` hands out is the thread id PIN later gives the child.
- The locks `lock`, `vc_lock` and `LockGuard` are not modelled, nor is any interleaving of the routines. The model applies events one at a time; the source's two locks do not fully serialise the routines (for example `Fork` holds only `vc_lock` while the race check of `CheckOverflow` holds only `lock`).
- ELF reading is not part of this model: `Elf.cpp`, `Elf.hpp`, the argv scan, and the `GetSymbols` call of `LoadSymbolAddrFromTargetBinary`. `RaceDetector.Detector.LoadSymbols` takes the symbol table as a map from name to symbol. The early `return true` paths for a missing target or an unreadable file are left out with it.
- `FixedAnalyzer.Analyzer.Read`, `Write`, `Acquire` and `Release` require `t < n`. `std::array::operator[]` with an index outside the threads is undefined behaviour (`djit-plus-vc/fixed.hpp:78`, `:87`, `:96`, `:100`), so the model does not give such a call a meaning.
- Output is not modelled: the race and out-of-bounds messages, `operator<<` for `VC`, `Fini`, and the printing in `djit-plus-vc/main.cpp`. The verdicts are returned booleans instead.
- The violation handlers of `fixed.hpp` (`SetReadViolationHandler`, `SetWriteViolationHandler`) are left out. When a handler has been set (`djit-plus-vc/fixed.hpp:80`, `:89`), it runs exactly when the returned boolean is true; when none is set, nothing runs.
- `pintools/VectorClock/target/mt.cpp`, the program under test, is not part of this model.
- Machine integers are not modelled. Clock times, addresses and sizes are unbounded naturals, so neither the `int` overflow of a time nor the unsigned wrap of `addr + size` is covered.
- The `ins_addr` and `is_write` arguments of the heap checker's `CheckOverflow` only feed its message, and they are dropped.
- `RaceDetector.Detector.CheckAccess` does not model the message it prints for a race. The lookups inside that message find entries the check has already created, so they change no state.
- `SparseClock.LessEq`, `SparseClock.MergeInto` and `RaceDetector.LoadTables` visit keys in an arbitrary order, while the source visits them in ascending order. The contracts show that the result does not depend on the order. `SparseClock.LeqAsWritten` keeps the ascending order, which decides whether the loop meets the undefined case before a `false`.

## Findings

| source | as written | input that shows it | evidently intended | confidence | as-written member | corrected member |
|---|---|---|---|---|---|---|
| pintools/VectorClock/VectorClock.cpp:56-58 | when a tid of lhs is absent from rhs and its time in lhs is 0, the first test fails and the second reads `it->second` through rhs's `end()` iterator, which is undefined behaviour | lhs = {1: 0}, rhs = {} | an absent tid reads as time 0, so this pair compares as `<=` | not executed; latent in the detector, whose stored times are all positive (`RaceDetector.StoredClocksCompareSafely`) | SparseClock.LeqAsWritten, SparseClock.LeqAsWrittenDereferencesEnd | SparseClock.LessEq |
