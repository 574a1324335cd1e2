# Verified models of a kernel's state machines

This project models six state machines of a Rust operating-system kernel and proves
whole-run properties of them in Dafny 4.11.

| machine | modules | main results |
|---|---|---|
| eBPF: the program checker, the interpreter and the maps | `BpfIsa`, `BpfMaps`, `BpfVerifier`, `BpfRules`, `BpfRuntime`, `BpfSafety`, `BpfTyping`, `BpfExecute`, `BpfLaws`, `BpfMeaning`, `BpfPrograms` | `EveryRunIsSafe`, `AcceptsExactlyDerivable`, `SimulationExact`, `OnlyMissedLookupFaults`, `Execute`, `LoadPacketInsn`, `MapsKeepBounds` |
| timer files and their deadline index | `TimerfdCore`, `TimerfdRuns`, `TimerfdTally`, `TimerfdSystem` | `EveryRun`, `EveryPointCountedOnce`, `WorkPendingComplete`, `CancelReaches`, `ProcessClock`, `AdvanceComposes`, `CancelAllOnSet` |
| pipes | `PipeRing`, `PipeProtocol`, `PipeRuns`, `PipeSystem` | `EveryRun`, `RunRequests`, `SectionGrants`, `SmallWriteContiguous`, `ScatterSection` |
| the buffers of open files, truncation and the text-busy counters | `InodeBuffer`, `InodeTruncate`, `TextAccess` | `RunAll`, `TruncateTo`, `Truncate`, `EveryRun`, `KeyHeldWhileOpen`, `AllReleased` |
| physical frames: boot, allocation and reference counts | `FrameAllocator`, `FrameBoot` | `FramesNeverPanic`, `PagesConserved`, `TrackerPins`, `InitFrameAllocator` |
| user address spaces: copy-on-write fork and rollback | `CowFork`, `ForkLoop`, `MapAreas`, `PageRanges`, `MemorySets` | `ForkTreeIsolated`, `CowReadsAsEager`, `CowWritesAsEager`, `FromExistedUserCow`, `Capture`, `RestoreAll` |

Code that updates state in place is a class or an array method proved against a function on
values; protocols between several tasks are state machines whose events are the lock sections
of the source, and the theorems range over every sequence of events.

Some properties are false of the code in general. Each is stated with a run or an input on which
it fails and with the condition under which it holds.

* The kinds the eBPF checker computes are those of one straight scan. After a taken jump they
  can differ from the values a run holds (`AgreementFailsPastAJump` gives the program). They are
  the kinds of every state of a run exactly when every jump the run takes lands where the scan
  computed the same kinds (`SimulationExact`, and `StepTyped` for one turn). `JoinConsistent`,
  which a reader can decide from the program alone, is sufficient only: it also constrains
  jumps that no run takes (`SimulationOnEveryPath`). Memory safety does not depend on this:
  `EveryRunIsSafe` holds for every accepted program.
* The check on return to user mode can answer false while an armed timer is due, and a clock set
  can pass over an armed cancel-on-set timer. Both happen only while another hart is dealing
  with that timer: between the two steps of an operation on it, or with its entry popped and not
  yet handled (`WorkPendingNow`, `WorkPendingComplete`, `CancelReaches`). `PoppedIsMissed`,
  `SettingIsMissed` and `AdvancedIsMissed` give a run for each case. A clock set passes a timer
  over exactly when the armed counter is zero or the heap holds no entry of it
  (`CancelReaches`). With no operation and no pass under way every armed cancel-on-set timer is
  canceled (`CancelAllOnSet`).
* Advancing a timer in two stretches gives the same timer as advancing it at once, except when
  its next point no longer fits in 64 bits and the clock then reaches the last representable
  instant, where the deadline is held (`AdvanceComposes`, an equivalence).
* After an expiry pass has dealt with a timer's entry, the timer is disarmed or due at another
  instant, exactly unless it is periodic and due at the last representable instant
  (`HandledStillRelies`). The runs and the pass are for clocks below that instant.
* Truncation does not invalidate the read buffer of a description without pending bytes. Reads
  through it stay those of the file exactly when the buffer holds nothing past the new length
  (`TruncateTo`); otherwise there is a read that returns a byte from past the end
  (`StaleReadShows`, and `StaleReadExample` on a concrete file). A seek mends it (`SetOffset`).
* An open descriptor for writing does not always keep executions out: one installed after the last
  descriptor of its file was closed brings no key back (`LateInstallUncounted`). A file is counted
  as a writer exactly until its last descriptor is closed or it is dropped (`KeyHeldWhileOpen`).
* The unchecked execution count keeps writers and executions apart exactly when no writer is
  counted (`UncheckedKeepsExclusion`; `UncheckedBreaksExclusion` gives a run where it does not).

Modelling conventions.

* Integers are unbounded; casts, wrap-around and saturation are written out where a value can
  reach them. Page numbers and addresses are small enough that the masks of the address types
  and the saturating additions on them have no effect.
* Clocks, user memory, pending signals and the success of a disk write are parameters. A blocked
  call is an arbitrary later lock section.
* eBPF map handles are references to map files, so two handles may name one map, and other tasks
  may change a map between any two instructions. An index outside an array is the outcome
  `Panic`, and leaving the program without EXIT is the outcome `FellOff`.
* The timer sequence number is unbounded, and the heaps are sets because no entry is pushed twice
  (`PushIsNew`). An operation changes a timer and reschedules it in two steps; passes on other
  harts may run between them.
* `sort_unstable` is modelled by one stable sort; no result depends on the order of equal keys.
* A page table is the map of its valid entries; it may hold kernel entries outside every area, as
  on riscv64. Ranges of pages, locked ranges included, are given in page numbers.

## Model

| member | source | states |
|---|---|---|
| `BpfIsa.FromLeBound` | src/bpf/runtime.rs:251-262 | n little-endian bytes decode to a value n bytes can hold |
| `BpfIsa.LeRoundTrip` | src/bpf/runtime.rs:251-262 | encoding a value in n bytes and decoding it keeps exactly its low 8n bits |
| `BpfIsa.SizeAlwaysValid` | src/bpf/runtime.rs:264-275 | the width field of any instruction names one of the four widths, so the width error is unreachable |
| `BpfMaps.Create` | src/bpf/map.rs:49-93 | a created map meets the bounds every map keeps: key and value lengths and the number of entries |
| `BpfMaps.CreateExact` | src/bpf/map.rs:49-93 | exactly which maps can be created; a hash map starts empty and an array map with a zero value under every index |
| `BpfMaps.LeOnto` | src/bpf/map.rs:99-106 | array keys and indices correspond one to one |
| `BpfMaps.ArrayKeys` | src/bpf/map.rs:99-106 | an array map is the dictionary whose keys encode its indices |
| `BpfMaps.LookupReadsDict` | src/bpf/map.rs:108-125 | lookup returns the dictionary's binding; a key of the wrong length misses in a hash map and is an error in an array map |
| `BpfMaps.UpdateWritesDict` | src/bpf/map.rs:127-166 | a successful update changes exactly one binding and keeps every length and the entry bound |
| `BpfMaps.StoreWritesDict` | src/bpf/map.rs:168-190 | a successful store overwrites one slice of one bound value and leaves every other binding alone |
| `BpfMaps.UpdateRefusals` | src/bpf/map.rs:127-166 | exactly which flags, lengths, indices and fill levels make an update fail |
| `BpfMaps.UpdateErrors` | src/bpf/map.rs:127-166 | with which error an update is refused |
| `BpfMaps.StoreRefusals` | src/bpf/map.rs:168-190 | a store succeeds exactly inside the value of a bound key, and with which error it fails otherwise |
| `BpfMaps.UpdateGrows` | src/bpf/map.rs:127-166 | an update removes no binding and keeps the map's shape |
| `BpfMaps.StoreGrows` | src/bpf/map.rs:168-190 | a store removes no binding and keeps the map's shape |
| `BpfMaps.BpfMapFile.New` | src/bpf/map.rs:49-93 | the in-place map is created with the contents of the value model or refused as it is |
| `BpfMaps.BpfMapFile.LookupElem` | src/bpf/map.rs:108-125 | the in-place lookup returns the value model's answer and changes nothing |
| `BpfMaps.BpfMapFile.UpdateElem` | src/bpf/map.rs:127-166 | the in-place update reaches the value model's state and leaves the map alone when it fails |
| `BpfMaps.BpfMapFile.Store` | src/bpf/map.rs:168-190 | the in-place store reaches the value model's state and leaves the map alone when it fails |
| `BpfVerifier.VerifyProgram` | src/bpf/verifier.rs:27-215 | the loop over one mutated array of kinds gives the verdict of the recursive scan, message included |
| `BpfVerifier.CheckOneSlot` | src/bpf/verifier.rs:95-212 | the single-slot cases update the kinds exactly as the scan's check does |
| `BpfVerifier.HeadChecked` | src/bpf/verifier.rs:39-213 | every instruction the scan visits passes its check, and its successor is checked with the resulting kinds |
| `BpfVerifier.SkippedSlot` | src/bpf/verifier.rs:57-94 | an index the scan does not visit is the all-zero second slot of a 64-bit load |
| `BpfVerifier.AcceptedGood` | src/bpf/verifier.rs:27-235 | acceptance makes every index safe to execute, second slots included: registers exist, jumps go forward inside the program, nothing runs off the end |
| `BpfVerifier.CollectProgMapRefs` | src/bpf/syscall.rs:29-59 | the loop returns the handles of the recursive collector, or its error |
| `BpfVerifier.CollectsHeads` | src/bpf/syscall.rs:29-59 | the collector walks exactly the scan's instructions: each visited map load is resolved to the map file its handle named |
| `BpfVerifier.CollectFailsOnBadHandle` | src/bpf/syscall.rs:29-59 | for an accepted program the collector fails, with EBADF, exactly when some visited map load does not name a map |
| `BpfRules.CheckDecidesRule` | src/bpf/verifier.rs:39-213 | one check passes with given kinds exactly when a typing rule gives them |
| `BpfRules.AcceptsExactlyDerivable` | src/bpf/verifier.rs:27-215 | the checker accepts exactly the programs that end with EXIT and have a derivation by the typing rules, so no well-formed program is turned away |
| `BpfRuntime.StackIndex` | src/bpf/runtime.rs:327-338 | an address yields an index exactly when the whole access lies in the 512-byte stack |
| `BpfRuntime.StepProgress` | src/bpf/runtime.rs:20-137 | in an accepted program every turn moves forward inside the program, returns a value at EXIT and nowhere else, or reports an error; no index leaves an array |
| `BpfSafety.After` | src/bpf/runtime.rs:20-137 | a run under interference keeps every map valid |
| `BpfSafety.StepGrows` | src/bpf/runtime.rs:340-372 | a turn changes at most one map, only through a store, and removes no binding |
| `BpfSafety.ExecutedHandleCollected` | src/bpf/syscall.rs:29-59 | a map load that executes was resolved by the collector even when a jump led to it |
| `BpfSafety.HitIsBound` | src/bpf/runtime.rs:94-109 | a lookup hit is a pointer to a key the map binds |
| `BpfSafety.SafeStep` | src/bpf/runtime.rs:20-137 | a turn keeps every handle collected and every hit pointer bound |
| `BpfSafety.NoDanglingFault` | src/bpf/prog.rs:36-78 | no turn of a safe state fails with an unknown handle or a missing entry |
| `BpfSafety.EveryRunIsSafe` | src/bpf/runtime.rs:20-137 | for every loaded program, packet, maps and interference: it halts within the program's length, indexes nothing out of range, ends only at EXIT or with an error, and that error is never EBADF or ENOENT |
| `BpfSafety.MapsKeepBounds` | src/bpf/map.rs:108-190 | any run and any interference keeps key length, value length and entry bound of every map |
| `BpfTyping.StraightTyped` | src/bpf/verifier.rs:39-213 | every turn except a taken jump yields registers of the kinds the check computed |
| `BpfTyping.StepTyped` | src/bpf/verifier.rs:39-213 | a turn keeps registers inside their static kinds exactly when it takes no jump or its jump agrees with the scan |
| `BpfTyping.Simulation` | src/bpf/verifier.rs:39-213 | along every history whose taken jumps agree with the scan each register inhabits its static kind |
| `BpfTyping.SimulationExact` | src/bpf/verifier.rs:39-213 | for every history of every accepted program, each register inhabits its static kind in all its states exactly when every jump it takes agrees with the scan |
| `BpfTyping.SimulationToFirstJump` | src/bpf/verifier.rs:39-213 | up to the first taken jump kinds agree for every accepted program |
| `BpfTyping.SimulationOnEveryPath` | src/bpf/verifier.rs:39-213 | a condition on the program alone that suffices: if every jump of it lands where the scan computed the same kinds, kinds agree on every path |
| `BpfTyping.KindFaultStops` | src/bpf/runtime.rs:183-385 | using a register against its runtime kind always ends the run with an error |
| `BpfTyping.OnlyMissedLookupFaults` | src/bpf/runtime.rs:183-385 | where kinds agree the only kind fault left is dereferencing a missed lookup |
| `BpfTyping.AgreementFailsPastAJump` | src/bpf/verifier.rs:190-213 | an accepted program whose first jump makes a scalar be dereferenced as a frame pointer |
| `BpfExecute.RunEnds` | src/bpf/runtime.rs:20-137 | the uninterrupted run of an accepted program ends with a return value or an error |
| `BpfExecute.StoreInPlace` | src/bpf/runtime.rs:340-372 | the store into the stack array or the map file has the effect of the value model |
| `BpfExecute.LookupHelper` | src/bpf/runtime.rs:94-109 | the lookup helper returns the value model's pointer, null or error |
| `BpfExecute.MapBytes` | src/bpf/prog.rs:53-67 | a load from a map value returns the value model's bytes or error |
| `BpfExecute.LoadInPlace` | src/bpf/runtime.rs:277-325 | a load through any pointer returns the value model's bytes or error |
| `BpfExecute.MemoryTurn` | src/bpf/runtime.rs:47-69 | loads, stores and calls on the mutated registers and stack do what the step function does |
| `BpfExecute.RegisterTurn` | src/bpf/runtime.rs:29-133 | register-only instructions on the mutated registers do what the step function does |
| `BpfExecute.OneTurn` | src/bpf/runtime.rs:26-135 | one turn of the loop body is one step of the value model |
| `BpfExecute.Execute` | src/bpf/runtime.rs:20-137 | the whole loop returns what the step function run to its end returns, and leaves the maps as it does |
| `BpfExecute.FilterLen` | src/bpf/prog.rs:30-34 | the packet is dropped exactly on an error or a zero result; otherwise it is cut to at most its own length |
| `BpfExecute.ProgLoad` | src/bpf/syscall.rs:234-269 | a program is loaded exactly when its type and size are allowed, it is accepted, and then all its maps resolve; otherwise the error of the first failing stage |
| `BpfExecute.RunIsSafe` | src/bpf/runtime.rs:20-137 | the uninterrupted run of a loaded program never reports an unknown handle or missing entry and leaves the maps valid |
| `BpfLaws.AddSubInverse` | src/bpf/runtime.rs:183-249 | 64-bit subtraction and addition undo each other |
| `BpfLaws.PointerMoveInverse` | src/bpf/runtime.rs:183-215 | moving a pointer by an operand and back restores it, wrap-around included |
| `BpfLaws.DivModSplit` | src/bpf/runtime.rs:215-249 | 32-bit quotient and remainder recombine to the dividend, with the zero-divisor results |
| `BpfLaws.ShiftRoundTrip` | src/bpf/runtime.rs:215-249 | shifting left by n and back keeps exactly the low 64 - n bits |
| `BpfLaws.StoreLoadRoundTrip` | src/bpf/runtime.rs:277-372 | bytes stored through a pointer are read back through it, on the stack and in maps |
| `BpfLaws.MapRoundTrip` | src/bpf/prog.rs:53-78 | bytes stored into a map value are loaded back |
| `BpfLaws.ScalarRoundTrip` | src/bpf/runtime.rs:251-407 | a scalar stored and loaded with one width keeps its low bits |
| `BpfLaws.StoreFrame` | src/bpf/runtime.rs:340-372 | a store leaves every disjoint stack range and every other map file as it was |
| `BpfLaws.LookupFindsKey` | src/bpf/runtime.rs:94-109 | the helper finds the key on the stack exactly when the dictionary binds it |
| `BpfLaws.HitReadsEntry` | src/bpf/runtime.rs:94-109 | loading through a hit pointer reads the bytes of that key's entry |
| `BpfMeaning.AluComputes` | src/bpf/runtime.rs:183-249 | which operations exist in 64 and 32 bits, and what each makes of its operands, by residues and bits |
| `BpfMeaning.AluInsn` | src/bpf/runtime.rs:70-92 | an arithmetic instruction on scalars leaves that result in its register and changes nothing else, or faults with ENOSYS |
| `BpfMeaning.MoveInsn` | src/bpf/runtime.rs:74-82 | a move copies a register or makes a scalar of the immediate, sign-extended to 64 bits or its 32 bits alone |
| `BpfMeaning.WideInsn` | src/bpf/runtime.rs:31-48 | the 64-bit load joins its two immediates, low word first, or names a map |
| `BpfMeaning.JumpInsn` | src/bpf/runtime.rs:112-130 | JEQ jumps exactly on equal values and JNE exactly on different ones; nothing else changes |
| `BpfMeaning.NullCheckInsn` | src/bpf/runtime.rs:112-130 | comparing a lookup result with zero tells a miss from a hit |
| `BpfMeaning.OpcodeWidth` | src/bpf/runtime.rs:264-275 | the four load opcodes read 1, 2, 4 and 8 bytes |
| `BpfMeaning.PacketLoad` | src/bpf/runtime.rs:307-319 | a packet load succeeds exactly inside the packet and returns the bytes at the pointer's offset; otherwise EACCES, or EINVAL when the offset overflows |
| `BpfMeaning.LoadPacketInsn` | src/bpf/runtime.rs:49-58 | a load through a packet pointer leaves the little-endian value of those packet bytes in the register, for every width |
| `BpfMeaning.LoadStackInsn` | src/bpf/runtime.rs:49-58 | the same for the stack; outside it EFAULT |
| `BpfMeaning.LoadHitInsn` | src/bpf/runtime.rs:49-58 | the same through a lookup hit, for the bytes of the key's entry |
| `BpfMeaning.StoreStackInsn` | src/bpf/runtime.rs:59-69 | a store writes the low bytes of the value, least significant first, at the pointer and nothing else; outside the stack EFAULT |
| `BpfMeaning.KeyOnStack` | src/bpf/runtime.rs:374-386 | the key of a lookup is the stack bytes at the pointer, and must lie in the stack |
| `BpfMeaning.LookupExact` | src/bpf/runtime.rs:93-109 | the helper answers a pointer to the entry of the key on the stack exactly when the map binds it, null otherwise, and with which error it fails |
| `BpfMeaning.MapLoadExact` | src/bpf/prog.rs:53-67 | a load from a map value succeeds exactly inside the value of a bound key |
| `BpfMeaning.PointerMoves` | src/bpf/runtime.rs:183-214 | addition and subtraction move a pointer by the signed operand; every other operation is refused |
| `BpfPrograms.ReturnsPacketByte` | src/bpf/runtime.rs:20-137 | for every packet and offset the two-instruction program that reads a packet byte is accepted and returns that byte, or EACCES when the packet has none |
| `BpfPrograms.ReturnsPacketLength` | src/bpf/runtime.rs:20-25 | for every packet a program that returns r2 is accepted and returns the length |
| `TimerfdCore.PeriodsExact` | src/fs/timerfd.rs:242-264 | the catch-up count is exactly the number of points deadline + k * interval not after now |
| `TimerfdCore.CatchUp` | src/fs/timerfd.rs:242-264 | the counter grows by the count and the new deadline is the first such point after now, held at the last representable instant |
| `TimerfdCore.PointsCounted` | src/fs/timerfd.rs:242-264 | the number of points up to now of a periodic or one-shot setting, as the size of that set |
| `TimerfdCore.ExpireCounts` | src/fs/timerfd.rs:242-264 | for periodic and one-shot timers alike an expiry adds the number of points up to now, saturated; it disarms a one-shot timer, moves a periodic one to its first point after now, and leaves a timer with no point due untouched |
| `TimerfdCore.PeriodsCompose` | src/fs/timerfd.rs:242-264 | the counts of two successive catch-ups add up to the count of one |
| `TimerfdCore.AdvanceComposes` | src/fs/timerfd.rs:242-264 | advancing to t1 and then t2 gives the timer that advancing straight to t2 gives, exactly unless `StopShows` |
| `TimerfdCore.ExpireMovesOn` | src/fs/timerfd.rs:242-264 | an expired timer is disarmed or due strictly later than now, saturation included |
| `TimerfdCore.TopExists` | src/fs/timerfd.rs:56-64 | a non-empty heap has a least entry in the heap order |
| `TimerfdCore.TopDecides` | src/fs/timerfd.rs:503-525 | the top entry is due exactly when some entry is |
| `TimerfdRuns.SettleIndexed` | src/fs/timerfd.rs:212-240 | the schedule update keeps an entry for every armed timer |
| `TimerfdRuns.PopIndexed` | src/fs/timerfd.rs:461-480 | popping an entry hands it to the pass and keeps the index |
| `TimerfdRuns.HandleIndexed` | src/fs/timerfd.rs:480-501 | dropping a stale entry or advancing the current one keeps the index |
| `TimerfdRuns.DropIndexed` | src/fs/timerfd.rs:394-407 | dropping a timer file keeps the index of all others |
| `TimerfdRuns.NeverSaturates` | src/fs/timerfd.rs:74-94 | a counted timer's counter and the total are positive when it is taken off |
| `TimerfdRuns.StepInv` | src/fs/timerfd.rs:212-407 | every step of every operation keeps the index and the exact counts |
| `TimerfdRuns.EveryRun` | src/fs/timerfd.rs:212-501 | in every reachable state each armed timer not in mid-operation has its exact entry in the heap or in a pass's hands, and the armed counters equal the armed timers |
| `TimerfdRuns.PushIsNew` | src/fs/timerfd.rs:212-240 | no entry is pushed that the heap already holds |
| `TimerfdRuns.UnattendedIndexed` | src/fs/timerfd.rs:212-240 | an armed timer nobody is dealing with is counted and has its exact entry in the heap |
| `TimerfdRuns.WorkPendingComplete` | src/fs/timerfd.rs:503-525 | a negative answer of the user-return check while an armed timer is due means another hart is dealing with that timer or with those armed when the total was read, although the total and the heaps are read at two moments |
| `TimerfdRuns.WorkPendingOnlyIfDue` | src/fs/timerfd.rs:503-525 | a positive answer means a readable clock has a due entry |
| `TimerfdRuns.WorkPendingNow` | src/fs/timerfd.rs:503-525 | a check that sees one state answers false with a due timer only while another hart is dealing with that timer |
| `TimerfdRuns.CancelReaches` | src/fs/timerfd.rs:96-108 | an armed cancel-on-set timer is passed over exactly when the armed counter is zero or no entry of it is in the heap, and only while another hart is dealing with it |
| `TimerfdRuns.CancelReachesAll` | src/fs/timerfd.rs:96-108 | with no pass under way only a timer between the two steps of an operation is passed over |
| `TimerfdRuns.PoppedIsMissed` | src/fs/timerfd.rs:468-480 | a run after which an armed due timer in the hands of a pass is missed by the collection and by the user-return check |
| `TimerfdRuns.SettingIsMissed` | src/fs/timerfd.rs:337-373 | with no pass under way, both also miss a timer between the two steps of its setting |
| `TimerfdRuns.AdvancedIsMissed` | src/fs/timerfd.rs:266-274 | the collection also misses a periodic timer that was armed throughout, while a pass is moving it on |
| `TimerfdRuns.HandledStillRelies` | src/fs/timerfd.rs:242-274 | after its entry is handled a timer still relies on it exactly when it is periodic and due at the last representable instant |
| `TimerfdTally.CaughtExpiry` | src/fs/timerfd.rs:242-274 | an expiry at any instant counts exactly the points of the setting not counted yet |
| `TimerfdTally.EveryPointCountedOnce` | src/fs/timerfd.rs:212-501 | over every run, what was read since a timer was set and what is left to read add up to the points of its setting up to the latest instant it was brought up to: none is lost and none counted twice |
| `TimerfdSystem.AtomicInv` | src/fs/timerfd.rs:337-391 | an operation with nothing in between keeps the index and the counts |
| `TimerfdSystem.SetTimeInv` | src/fs/timerfd.rs:337-373 | setting a timer, with its two flushes, keeps the index and the counts |
| `TimerfdSystem.SetTimeMeaning` | src/fs/timerfd.rs:337-373 | set-time reports time to the next point, period and cancellation of the old setting, leaves the timer with the new one and only the points of that counted, and touches no other timer |
| `TimerfdSystem.TurnShape` | src/fs/timerfd.rs:468-501 | a turn removes the popped entry; a current one processes its timer and re-enters it later than now |
| `TimerfdSystem.TurnShrinks` | src/fs/timerfd.rs:468-501 | every turn leaves fewer due entries |
| `TimerfdSystem.NothingDue` | src/fs/timerfd.rs:461-501 | with no due entry left no armed timer of the clock is due |
| `TimerfdSystem.PassComplete` | src/fs/timerfd.rs:461-501 | when a pass ends every timer due at its start has been processed |
| `TimerfdSystem.TimerFdSystem.AdjustArmedCount` | src/fs/timerfd.rs:74-94 | the in-place counters take the value model's values |
| `TimerfdSystem.TimerFdSystem.UpdateScheduleLocked` | src/fs/timerfd.rs:212-240 | the in-place schedule update reaches the value model's state |
| `TimerfdSystem.UpdateExpirations` | src/fs/timerfd.rs:242-264 | the in-place expiry adds the number of elapsed points, yields the value model's timer and reports exactly when it became readable |
| `TimerfdSystem.TimerFdSystem.AdvanceTo` | src/fs/timerfd.rs:266-274 | expiring and rescheduling one timer is one atomic operation of the protocol |
| `TimerfdSystem.TimerFdSystem.Flush` | src/fs/timerfd.rs:276-281 | a flush is an expiry of the one timer at the clock's reading, or nothing when the clock cannot be read |
| `TimerfdSystem.TimerFdSystem.SetTime` | src/fs/timerfd.rs:337-373 | set-time reports the old setting and installs the new one with only its own points counted, touches no other timer, is a sequence of protocol operations, and keeps the index and the counts |
| `TimerfdSystem.TimerFdSystem.CancelOnRealtimeSet` | src/fs/timerfd.rs:375-391 | a cancel disarms exactly a realtime cancel-on-set timer that is not canceled yet, and touches no other timer |
| `TimerfdSystem.TimerFdSystem.ProcessClock` | src/fs/timerfd.rs:461-501 | the expiry pass terminates; afterwards no armed timer of the clock is due, each timer due at the start was processed exactly once, and each timer of the clock has counted exactly its points up to now |
| `TimerfdSystem.TimerFdSystem.LiveRealtimeFiles` | src/fs/timerfd.rs:96-108 | the collected files are exactly the live ones with an entry in the realtime heap |
| `TimerfdSystem.TimerFdSystem.CancelAllOnSet` | src/fs/timerfd.rs:527-532 | with nothing under way every armed cancel-on-set realtime timer is canceled: disarmed, marked, its count cleared and its setting kept; every other timer is untouched or was cancel-on-set and is canceled too; the index and the counts are kept |
| `TimerfdSystem.TimerFdSystem.WorkPendingForUserReturn` | src/fs/timerfd.rs:503-525 | the in-place check gives the value model's answer |
| `PipeRing.PipeRingBuffer.AvailableRead` | src/fs/pipe.rs:1082-1093 | head, tail and status always give the number of queued bytes |
| `PipeRing.PipeRingBuffer.AvailableWrite` | src/fs/pipe.rs:1095-1101 | the free space is the capacity less the queued bytes |
| `PipeRing.FirstBytesArePrefix` | src/fs/pipe.rs:1036-1046 | the two chunks copied out are the oldest n queued bytes in order |
| `PipeRing.TakenQueue` | src/fs/pipe.rs:1036-1055 | consuming n bytes removes exactly the oldest n |
| `PipeRing.PutQueue` | src/fs/pipe.rs:1058-1080 | writing appends the source after the queued bytes and disturbs none |
| `PipeRing.ResizedQueue` | src/fs/pipe.rs:1131-1196 | a resize keeps the queued bytes and their order |
| `PipeRing.ResizeGrants` | src/fs/pipe.rs:1131-1165 | a granted capacity is the least page multiple that holds the request, within the bounds and not below the queued bytes |
| `PipeRing.ResizeVerdicts` | src/fs/pipe.rs:1131-1165 | exactly which requests are granted, and which are refused with EPERM, EINVAL or EBUSY |
| `PipeRing.PipeRingBuffer.constructor` | src/fs/pipe.rs:969-990 | a new ring is empty with the default capacity, cut to the limit for the unprivileged |
| `PipeRing.PipeRingBuffer.PeekInto` | src/fs/pipe.rs:1201-1213 | a peek copies the oldest bytes and leaves the queue |
| `PipeRing.PipeRingBuffer.ReadIntoSlice` | src/fs/pipe.rs:1036-1055 | a read moves the oldest bytes that fit from the queue to the target and touches nothing else of it |
| `PipeRing.PipeRingBuffer.WriteFromSlice` | src/fs/pipe.rs:1058-1080 | a write appends the longest prefix that fits |
| `PipeRing.PipeRingBuffer.SetPipeSize` | src/fs/pipe.rs:1131-1196 | a resize keeps the queue and sets the granted capacity, or refuses and changes nothing |
| `PipeProtocol.CursorBytes` | src/fs/pipe.rs:808-829 | the flattened bytes at a cursor are those of its buffer from its offset on |
| `PipeProtocol.CollectTail` | src/fs/pipe.rs:1374-1396 | the collected tail is the next bytes of the flattened buffers after the cursor |
| `PipeProtocol.FlatSection` | src/fs/pipe.rs:570-668 | a flat write section appends exactly the admitted next bytes of the data |
| `PipeProtocol.ScatterSection` | src/fs/pipe.rs:756-855 | a scattered write section appends exactly the admitted next bytes and leaves the cursor at the accepted prefix |
| `PipeProtocol.CopyScattered` | src/fs/pipe.rs:808-829 | the copy loop transfers the requested number of flattened bytes from the cursor on |
| `PipeProtocol.ReadSection` | src/fs/pipe.rs:466-512 | a read section returns the oldest bytes, end of file, EAGAIN, EINTR or waits, each exactly when the source does |
| `PipeRuns.AcceptWhole` | src/fs/pipe.rs:583-583 | the first accepted piece of a write of at most 4096 bytes is all of it |
| `PipeRuns.StepInv` | src/fs/pipe.rs:449-855 | every section of every call keeps order, prefixes, wholeness of small writes and the capacity bounds |
| `PipeRuns.EveryRun` | src/fs/pipe.rs:449-1213 | over any interleaving, bytes read followed by bytes queued are the bytes accepted, each call's accepted bytes are a prefix of its data, and capacity stays within bounds |
| `PipeRuns.ChunkContiguous` | src/fs/pipe.rs:552-668 | what one section accepts occupies consecutive positions of the stream |
| `PipeRuns.SmallWriteContiguous` | src/fs/pipe.rs:552-855 | a write of at most 4096 bytes that had any byte accepted lies whole and contiguous in the stream (the write() page of POSIX.1-2017) |
| `PipeRuns.EmptyPipeNeverWaits` | src/fs/pipe.rs:570-600 | a writer that finds the pipe empty always accepts bytes |
| `PipeRuns.SectionGrants` | src/fs/pipe.rs:552-668 | for every call and fill level: a write that has begun, is larger than 4096 bytes or fits is given the smaller of its rest and the room, any other nothing; and exactly when the call goes on |
| `PipeRuns.SectionBroken` | src/fs/pipe.rs:571-580 | with no reader left nothing is accepted and the call ends |
| `PipeRuns.ReadTakesOldest` | src/fs/pipe.rs:466-512 | a read is given the oldest bytes, as many as it asks for and the pipe has |
| `PipeSystem.Pipe.WriteOnce` | src/fs/pipe.rs:552-855 | one section of a flat or scattered write on the ring buffer is the write step of the protocol |
| `PipeSystem.Pipe.ReadOnce` | src/fs/pipe.rs:466-512 | one read from the ring buffer delivers what the read step of the protocol does |
| `PipeSystem.Pipe.ResizeOnce` | src/fs/pipe.rs:1131-1196 | a resize of the ring buffer is the resize step of the protocol |
| `PipeSystem.Pipe.Perform` | src/fs/pipe.rs:449-1213 | every request on the ring buffer is one step of the protocol |
| `PipeSystem.RunRequests` | src/fs/pipe.rs:449-1213 | whatever requests a new ring buffer is given, in any interleaving, it goes through a run of the protocol, so order, prefixes, wholeness of small writes and capacity bounds hold of its bytes |
| `InodeBuffer.SliceMeaning` | src/fs/inode.rs:944-957 | a read returns the file's bytes from the offset to the shorter of the length and the end |
| `InodeBuffer.OverlayMeaning` | src/fs/inode.rs:1060-1072 | a write replaces exactly its own bytes, grows the file as needed and fills a hole with zeros |
| `InodeBuffer.OverlayAppend` | src/fs/inode.rs:1041-1048 | two adjacent writes are one write of both, so pending bytes may be joined |
| `InodeBuffer.OverlayPrefix` | src/fs/inode.rs:1098-1115 | writing a prefix and later the whole is writing the whole, so a short flush can be retried |
| `InodeBuffer.PlainReads` | src/fs/inode.rs:1526-1589 | the plain file reads its bytes from the offset to the end and moves the offset by as many |
| `InodeBuffer.PlainWrites` | src/fs/inode.rs:1591-1652 | the plain file takes all slices in order at the offset, or at its end in append mode, changes nothing else, and reads them back |
| `InodeBuffer.OSInode.FlushAttempt` | src/fs/inode.rs:1060-1116 | a flush never changes the logical file; it empties the buffer exactly when the inode took all of it |
| `InodeBuffer.OSInode.FlushInner` | src/fs/inode.rs:1060-1116 | a complete flush makes the inode equal to the logical file |
| `InodeBuffer.OSInode.ReadTurn` | src/fs/inode.rs:1541-1586 | one turn copies from the buffer when the position is in it and refills it otherwise; while the buffer is coherent it returns bytes of the inode at the position, and none only at the end |
| `InodeBuffer.OSInode.ReadLoop` | src/fs/inode.rs:940-974 | the refill loop returns exactly what an unbuffered read would |
| `InodeBuffer.OSInode.Read` | src/fs/inode.rs:1526-1589 | read over any slices returns the plain file's bytes and moves the offset by as many |
| `InodeBuffer.OSInode.PreadAt` | src/fs/inode.rs:926-975 | pread leaves the file and the offset, and while the buffer is coherent it returns the plain file's bytes; a position inside the buffer is answered from it |
| `InodeBuffer.OSInode.BufferPiece` | src/fs/inode.rs:1032-1056 | buffering a piece, with the flushes it causes, is writing it to the logical file |
| `InodeBuffer.OSInode.Write` | src/fs/inode.rs:1591-1652 | write of any slices is one write of them all to the plain file, at its end in append mode |
| `InodeBuffer.OSInode.PwriteAt` | src/fs/inode.rs:982-1057 | pwrite writes to the plain file and leaves the offset, for buffered and direct sizes alike |
| `InodeBuffer.OSInode.SetOffset` | src/fs/inode.rs:1172-1179 | a seek changes only the offset, and afterwards the read buffer is coherent whatever it held |
| `InodeBuffer.OSInode.GetVisibleEnd` | src/fs/inode.rs:1161-1170 | the visible end is the length of the logical file |
| `InodeBuffer.ResizeUnder` | src/syscall/filesystem/inode_utils.rs:957-976 | extending the inode under pending bytes extends the logical file |
| `InodeBuffer.ResizeWrite` | src/fs/inode.rs:700-724 | to write the part of the pending bytes before the new length and cut is to write them all and cut |
| `InodeBuffer.OSInode.TruncateTo` | src/syscall/filesystem/inode_utils.rs:903-983 | truncation of a file with one description cuts or zero-extends the logical file, pending bytes included, and the read buffer stays coherent exactly when it holds nothing past the new length |
| `InodeBuffer.RunAll` | src/fs/inode.rs:926-1652 | any sequence of read, write, pread, pwrite, seek, flush, size query and truncate returns what a plain byte-sequence file returns and leaves the same contents and offset, up to the first truncation that reaches into the read buffer; one with no truncation, or with a seek before each, runs to its end |
| `InodeBuffer.StaleReadShows` | src/fs/inode.rs:926-975 | after any truncation that reaches into the read buffer some pread returns a byte from past the end of the file |
| `InodeBuffer.StaleReadExample` | src/fs/inode.rs:926-975 | an eight-byte file read, cut to two bytes and read at its fifth byte still returns that byte |
| `InodeTruncate.LogicalUnique` | src/fs/inode.rs:643-670 | inode and pending buffers determine at most one logical file |
| `InodeTruncate.LogicalExists` | src/fs/inode.rs:643-670 | buffers over disjoint ranges always determine a logical file |
| `InodeTruncate.FlushOne` | src/fs/inode.rs:700-724 | flushing one buffer up to the new length brings the inode closer to the file there and leaves only a buffer that ends past it |
| `InodeTruncate.FlushEnds` | src/fs/inode.rs:678-727 | once all buffers are flushed, cutting the inode cuts the file |
| `InodeTruncate.PendingWrites.MarkDirty` | src/fs/inode.rs:1118-1135 | registering pending bytes keeps the dirty count equal to the registry's size |
| `InodeTruncate.PendingWrites.MarkClean` | src/fs/inode.rs:1138-1146 | unregistering keeps the dirty count equal to the registry's size |
| `InodeTruncate.PendingWrites.RemoveStale` | src/fs/inode.rs:672-677 | dropping a stale entry keeps the dirty count equal to the registry's size |
| `InodeTruncate.PendingWrites.PendingIds` | src/fs/inode.rs:656-670 | the collected ids are exactly the inode's registered ones, each once |
| `InodeTruncate.PendingWrites.VisibleLen` | src/syscall/filesystem/perm_utils.rs:196-201 | the result is the larger of the inode's length and the largest registered end |
| `InodeTruncate.VisibleCovers` | src/syscall/filesystem/perm_utils.rs:196-201 | the visible length is that of the logical file, and never less, except for entries whose description is gone |
| `InodeTruncate.PendingWrites.FlushPending` | src/fs/inode.rs:700-724 | the three cases of a buffer before, across and after the new length reach the specified inode and record |
| `InodeTruncate.PendingWrites.FlushBefore` | src/fs/inode.rs:678-727 | before the new length the inode agrees with the file, what stays pending ends past it, other inodes are untouched |
| `InodeTruncate.PendingWrites.DiscardAfter` | src/fs/inode.rs:729-757 | exactly the pending buffers that end past the new length are dropped, the others are unchanged |
| `InodeTruncate.PendingWrites.ResizeInode` | src/syscall/filesystem/inode_utils.rs:931-976 | clearing and rewriting, or appending zeros in chunks taken only in part, cuts or zero-extends the inode |
| `InodeTruncate.PendingWrites.Truncate` | src/syscall/filesystem/inode_utils.rs:903-983 | whatever the file is, afterwards it is that file cut or zero-extended, with any number of pending buffers; the dirty count still equals the registry's size and no other inode is touched |
| `TextAccess.InodeTextAccess.RegisterWriteOpen` | src/fs/inode.rs:203-214 | a writer is admitted exactly when the inode is not executing |
| `TextAccess.InodeTextAccess.UnregisterWriteOpen` | src/fs/inode.rs:216-228 | one writer less, and the entry goes with its last count |
| `TextAccess.InodeTextAccess.RegisterExecuting` | src/fs/inode.rs:243-250 | one execution more, unchecked |
| `TextAccess.InodeTextAccess.TryRegisterExecuting` | src/fs/inode.rs:252-275 | an execution is admitted exactly when there are no writers and no pending writes at either look |
| `TextAccess.InodeTextAccess.UnregisterExecuting` | src/fs/inode.rs:277-289 | one execution less, and the entry goes with its last count |
| `TextAccess.RegisterForInode` | src/fs/inode.rs:323-334 | only a writable regular file takes a key, and it is refused while the inode executes |
| `TextAccess.ExecInodeReservation.Drop` | src/fs/inode.rs:308-314 | dropping a reservation releases its key once |
| `TextAccess.OpenFile.OnFdInstall` | src/fs/inode.rs:1483-1488 | a descriptor is counted only while the file holds a key |
| `TextAccess.OpenFile.OnFdClose` | src/fs/inode.rs:1490-1506 | the key is given up exactly when the last counted descriptor closes; `KeyHeldWhileOpen` ties that to the descriptors open |
| `TextAccess.OpenFile.Drop` | src/fs/inode.rs:1713-1720 | drop gives up the key if it is still held |
| `TextAccess.ReleaseFindsHolder` | src/fs/inode.rs:216-289 | a release always finds its counter above zero |
| `TextAccess.StepInv` | src/fs/inode.rs:191-335 | every open, install, close, drop, reservation and release keeps the invariant |
| `TextAccess.EveryRun` | src/fs/inode.rs:191-335 | over every run no inode has writers and executions counted at once, every counter equals its live and due holders, and every grant is live, due or released |
| `TextAccess.HoldersExclude` | src/fs/inode.rs:203-275 | a live writer refuses executions and a live execution refuses writers |
| `TextAccess.KeyHeldWhileOpen` | src/fs/inode.rs:1483-1506 | over every run a file counts as a writer exactly from its opening for writing until its last descriptor is closed or it is dropped, and until then no execution is admitted |
| `TextAccess.KeyLeavesAtLastClose` | src/fs/inode.rs:1490-1506 | a writer's key goes at the close of its last open descriptor or at its drop, and at no other event |
| `TextAccess.LateInstallUncounted` | src/fs/inode.rs:1483-1488 | a run after which a file has an open descriptor for writing and is not counted |
| `TextAccess.AdmittedExactly` | src/fs/inode.rs:203-275 | over every run an execution is admitted exactly with no pending writes and no live or due writer, a writer exactly with no live or due execution |
| `TextAccess.AllReleased` | src/fs/inode.rs:191-335 | when all holders are gone every grant was released exactly once and no entry is left |
| `TextAccess.UncheckedBreaksExclusion` | src/fs/inode.rs:243-250 | a run after which the unchecked registration counts an execution beside a writer |
| `TextAccess.UncheckedKeepsExclusion` | src/fs/inode.rs:243-250 | after every run the unchecked registration keeps the exclusion exactly when no writer is counted, which is so on an inode that executes already |
| `FrameAllocator.IssuedCount` | src/mm/frame_allocator.rs:303-315 | issued and fresh pages add up to the managed pages |
| `FrameAllocator.RefusesOnlyWhenFull` | src/mm/frame_allocator.rs:123-136 | contiguous allocation fails exactly when nothing is asked for or no range has enough fresh pages |
| `FrameAllocator.GrantsFirstFit` | src/mm/frame_allocator.rs:123-136 | a granted run is the next pages of the first range that has enough; the other ranges and the recycled pages stay |
| `FrameAllocator.AllocFailsOnlyWhenEmpty` | src/mm/frame_allocator.rs:153-166 | a single page is refused exactly when no page is recycled and none is fresh |
| `FrameAllocator.ReissuesLastReleased` | src/mm/frame_allocator.rs:153-178 | the page released last is issued next, which undoes the release |
| `FrameAllocator.AdvanceIssues` | src/mm/frame_allocator.rs:123-136 | a granted run consists of exactly the next pages of one range, all new |
| `FrameAllocator.StackFrameAllocator.RegisterRange` | src/mm/frame_allocator.rs:110-121 | a non-empty range is appended untouched |
| `FrameAllocator.StackFrameAllocator.TakeContiguous` | src/mm/frame_allocator.rs:123-136 | the in-place search grants the first fitting range's pages |
| `FrameAllocator.StackFrameAllocator.Take` | src/mm/frame_allocator.rs:153-166 | the in-place allocation recycles first and then takes a fresh page |
| `FrameAllocator.StackFrameAllocator.GiveBack` | src/mm/frame_allocator.rs:168-178 | a release that passes the check is recycled in list and set |
| `FrameAllocator.StackFrameAllocator.AvailablePages` | src/mm/frame_allocator.rs:303-311 | the count is recycled plus never-issued pages |
| `FrameAllocator.FrameRefcounts.CloneTracker` | src/mm/frame_allocator.rs:45-52 | a clone raises the page's count by one |
| `FrameAllocator.FrameRefcounts.DropTracker` | src/mm/frame_allocator.rs:60-75 | a drop lowers the count and reports the last holder |
| `FrameAllocator.FrameAllocContiguous` | src/mm/frame_allocator.rs:317-325 | a granted run gets one tracker for each of its consecutive pages |
| `FrameAllocator.UntrackInv` | src/mm/frame_allocator.rs:60-75 | the first half of a drop keeps counts equal to live trackers and moves the page only for the last holder |
| `FrameAllocator.StepInv` | src/mm/frame_allocator.rs:30-178 | every lock section keeps each issued page in exactly one place and every count exact |
| `FrameAllocator.FramesNeverPanic` | src/mm/frame_allocator.rs:168-178 | no interleaving of allocations, clones and two-lock drops reaches the panic, and counts equal live trackers throughout |
| `FrameAllocator.PanicsExactlyWhenNotOut` | src/mm/frame_allocator.rs:168-178 | in every reachable state the check would panic exactly for the pages that are not out |
| `FrameAllocator.PagesConserved` | src/mm/frame_allocator.rs:303-315 | free, outstanding and in-flight pages always sum to the managed pages |
| `FrameAllocator.NeverIssuedTwice` | src/mm/frame_allocator.rs:153-166 | a page that is outstanding, arriving or leaving is not issued |
| `FrameAllocator.RunIsFresh` | src/mm/frame_allocator.rs:123-136 | a contiguous run consists of pages that are nowhere else |
| `FrameAllocator.TrackerPins` | src/mm/frame_allocator.rs:45-75 | a live tracker keeps its page counted through any run that does not drop it |
| `FrameBoot.RoundingMeaning` | src/mm/frame_allocator.rs:197-209 | outward rounding withdraws the pages an exclusion touches, inward rounding keeps the pages wholly inside RAM |
| `FrameBoot.SortSorts` | src/mm/frame_allocator.rs:214-214 | the exclusions are ordered by start |
| `FrameBoot.SortPermutes` | src/mm/frame_allocator.rs:214-214 | sorting keeps the exclusions |
| `FrameBoot.MergeCorrect` | src/mm/frame_allocator.rs:215-224 | merging a sorted list gives separated spans covering the same pages |
| `FrameBoot.MergeExclusions` | src/mm/frame_allocator.rs:215-224 | the in-place merge with trailing write index computes that list |
| `FrameBoot.SweepExact` | src/mm/frame_allocator.rs:227-255 | the sweep registers exactly the uncovered pages of a RAM range |
| `FrameBoot.SweepRam` | src/mm/frame_allocator.rs:227-255 | the cursor loop registers the ranges of the sweep |
| `FrameBoot.InitFrameAllocator` | src/mm/frame_allocator.rs:195-255 | for any disjoint RAM ranges and any exclusions that fit the array once empty ones are skipped, the registered ranges are disjoint and hold exactly the whole RAM pages no exclusion touches, and the allocator is in its initial state |
| `CowFork.ForkPair` | src/mm/memory_set.rs:2956-3070 | after a fork any two entries for one frame are both SHARED, or both private and not writable |
| `CowFork.OtherPair` | src/mm/memory_set/fault.rs:150-210 | faults, stores, mappings and unmappings keep that too |
| `CowFork.StepInv` | src/mm/memory_set.rs:2956-3070 | every step keeps entries backed by tracked frames and frames isolated |
| `CowFork.ForkTreeIsolated` | src/mm/memory_set.rs:2956-3070 | over any run and any number of spaces a frame mapped by private user entries in two places is writable in neither, and a kernel-only page has its own frame |
| `CowFork.StepMatches` | src/mm/memory_set.rs:2956-3070 | each step is matched, contents and access rights, by the machine that copies private pages at the fork |
| `CowFork.CowReadsAsEager` | src/mm/memory_set.rs:2956-3070 | over any run every page of every space reads as on the machine that copies private pages at the fork |
| `CowFork.CowWritesAsEager` | src/mm/memory_set.rs:2956-3070 | over any run every page of every space has the rights it has on that machine: where it may be written a store is possible, if need be after one fault that any unused frame serves, and where it may not neither is |
| `ForkLoop.ForkPage` | src/mm/memory_set.rs:3006-3065 | one tracked page is skipped, copied or shared as the fork specifies |
| `ForkLoop.DemoteAndShare` | src/mm/memory_set.rs:3041-3064 | a writable private page loses W and D and gains COW in the parent, and the child gets the same entry: no longer writable at once, with the same rights |
| `ForkLoop.FromExistedUserCow` | src/mm/memory_set.rs:2956-3070 | the loop over areas and tracked frames leaves parent, child and memory as the fork of the model, and child areas as the parent's; with enough free frames every kernel-only page is copied and any fork tree the parent belongs to takes a step that keeps isolation |
| `ForkLoop.TrackNewFrame` | src/mm/memory_set/fault.rs:199-208 | the tracker of the page is replaced in the one area that contains it |
| `ForkLoop.ResolveCowFault` | src/mm/memory_set/fault.rs:150-210 | a private copy-on-write page gets its own frame with equal contents and both write bits, everything else is untouched, areas keep their layout, the fault is refused exactly in the listed cases, and any fork tree the space belongs to takes a fault step |
| `MapAreas.SplitMeaning` | src/mm/memory_set/map_area.rs:223-262 | the two rests and the middle of a split hold the area's pages on their part unchanged |
| `MapAreas.UnmapMeaning` | src/mm/memory_set.rs:3480-3510 | rebuilding removes exactly the user pages of the range and keeps every other page as it was |
| `MapAreas.KeepMeaning` | src/mm/memory_set.rs:1254-1276 | the kept middles hold exactly the user pages of the range as they were |
| `MapAreas.UnmapKeepsKernel` | src/mm/memory_set.rs:3480-3484 | kernel areas are neither cut nor snapshotted |
| `MapAreas.SortPage` | src/mm/memory_set.rs:173-175 | sorting the areas changes nothing a page shows |
| `MapAreas.SortOccurs` | src/mm/memory_set.rs:173-175 | sorting keeps every area |
| `MapAreas.SortOrders` | src/mm/memory_set.rs:173-175 | sorting orders the areas by start |
| `PageRanges.NormalizeRanges` | src/mm/memory_set/range.rs:3-23 | for any ranges, empty or overlapping, the result is separated, non-empty and covers the same pages |
| `PageRanges.TrimRanges` | src/mm/memory_set/range.rs:25-44 | exactly the pages of the trimmed range are no longer covered |
| `PageRanges.ClipRanges` | src/mm/memory_set.rs:1295-1307 | the result covers exactly the covered pages inside the range |
| `MemorySets.MemorySet.UnmapRangeMaybe` | src/mm/memory_set/map_area.rs:278-330 | frames, saved flags and entries of exactly the given pages go |
| `MemorySets.MemorySet.UnmapUserRange` | src/mm/memory_set.rs:3457-3516 | no user page is left in the range and every other page, entry and kernel area is untouched |
| `MemorySets.MemorySet.UnmapUserVmaRange` | src/mm/memory_set.rs:1485-1491 | no user page and no locked page is left in the range; pages, entries and locks outside it stay |
| `MemorySets.MemorySet.RemoveExact` | src/mm/memory_set.rs:3464-3474 | the fast path has the effect of the rebuild |
| `MemorySets.MemorySet.Rebuild` | src/mm/memory_set.rs:3476-3512 | the rebuild loop removes the user pages of the range, cutting areas at its ends |
| `MemorySets.MemorySet.SnapshotUserRange` | src/mm/memory_set.rs:1248-1315 | the snapshot holds exactly the user pages of the range with their frames, flags and entries, and its locked pages |
| `MemorySets.MemorySet.MapEntries` | src/mm/memory_set.rs:1323-1325 | mapping the entries back never meets a mapped page, so the page table does not panic |
| `MemorySets.MemorySet.RestoreUserRange` | src/mm/memory_set.rs:1318-1345 | whatever happened to user mappings, every page and lock of the range is as at the snapshot and every other page and lock is left as it is |
| `MemorySets.Capture` | src/mm/memory_set/rollback.rs:19-32 | for any ranges, empty or overlapping, the snapshots lie apart and cover exactly the pages given |
| `MemorySets.RestoreAll` | src/mm/memory_set/rollback.rs:34-38 | restoring the snapshots brings back every page and lock of every range and leaves the others; when only user mappings inside the ranges changed, the whole page table, page view and set of locked pages equal those at the snapshot |
| `MemorySets.SnapshotPinsFrames` | src/mm/frame_allocator.rs:45-75 | through any allocator run that keeps the snapshot's cloned trackers, no snapshotted frame is freed or handed out again |

## Left out

- Blocking, wake-ups and scheduling: a blocked call is an arbitrary later section; nothing is claimed about liveness or lost wake-ups.
- eBPF object creation from user memory, the verifier's log text and file-descriptor allocation.
- Filters attached to pipes and sockets, including classic BPF.
- Peeks, polls and waiter lists of pipes beyond the bytes they see.
- InodeBuffer.RunAll: one open description, replace-on-write off and successful flushes; `FlushAttempt` covers short flushes alone. The run ends at the first truncation that reaches into the read buffer.
- InodeTruncate.PendingWrites.Truncate: disk errors are not modelled; read buffers are the subject of `InodeBuffer.OSInode.TruncateTo`.
- InodeTruncate.PendingWrites.VisibleLen: an entry whose description is gone may make the visible length too large; truncation is correct in that case too.
- TextAccess.EveryRun: the unchecked registration is used only on an inode that already executes.
- Path lookup, directory offsets, deferred unlinks and temporary-file cleanup of open files.
- TimerfdSystem.TimerFdSystem.ProcessClock: the clock reading is below the last representable instant, where a periodic timer would lose its entry (`TimerfdRuns.HandledStillRelies`), and no other operation runs during this pass; interleavings are covered by `TimerfdRuns.EveryRun`.
- Clock-event programming and read waiters of timer files.
- FrameBoot.InitFrameAllocator: RAM ranges are disjoint and the non-empty exclusions fit the fixed array, as the source asserts.
- ForkLoop.FromExistedUserCow: identity-mapped areas and the trampoline pages are not modelled; a kernel-only page without a free frame is absent from the child, as in the source.
- CowFork.CowReadsAsEager: changes of page protection are not events of the run, so saved flags of inaccessible pages are not followed across a fork.
- MemorySets.MemorySet.SnapshotUserRange: the region records and mmap backings of the snapshot are not modelled.
- MemorySets.MemorySet.RestoreUserRange: restores pages and locks; an empty user area inside the range is dropped, and region records and mmap backings are not modelled.
- MemorySets.MemorySet.UnmapUserVmaRange: the trimming of region records is not modelled.
- TLB maintenance, page-table frames and the cached page walk.
- Sockets, socket pairs, fanotify, userfaultfd, terminals and event files: option handling around simple queues.
