# Compatra, modelled and proved in Dafny

Compatra runs arm64 macOS programs on Intel hosts and answers their library calls itself. This project
models the parts of it that keep state or transform data on the guest's behalf, and proves what they promise:

- **libc++ objects in guest memory.** `std::vector<char>` and `std::string` live as 24-byte headers and heap
  blocks in a byte-addressed memory (`GuestMemory.dfy`). The vector operations (`LibcppVector.dfy`), the string
  operations (`LibcppString.dfy`) and whole guest programs over many objects (`LibcppVectorRuns.dfy`,
  `LibcppStringRuns.dfy`) are proved to refine plain byte sequences with a capacity. `LibcppSearch.dfy` has find
  and compare, and `LibcppTrace.dfy` compares the second decoder, the one used for tracing, with the first.
- **The guest thread scheduler** (`GuestThreads.dfy`, `GuestThreadRuns.dfy`): run queue, active slot,
  condition queues, pending signals, mutex owners and reservations, with theorems about every run.
- **Lazy memory regions** (`LazyMemory.dfy`, `LazyMemoryRuns.dfy`): the interval list and the pages
  materialised on demand behave like an eager map from pages to protections, in every run with fresh
  reservations, and in any other run under exact conditions.
- **Text kernels**: the chunked C-string reader (`CStringReader.dfy`), `strto*` against section 7.22.1.4 of
  ISO C17 (`Strto.dfy`), the integer conversions of `printf` (`PrintfIntegers.dfy`), the two undoing each
  other (`PrintParse.dfy`), `printf` against section 7.21.6.1 (`PrintfAgainstC.dfy`), and the next-prime helper
  (`NextPrime.dfy`).
- **Scatter/gather and wildcards**: `Iovecs.dfy` and `Glob.dfy`.

`Machine.dfy` holds words, bytes and little-endian encodings. Guest memory is modelled with an allocator that
may fail at any call and may otherwise answer with any block of unused addresses at or above 0x1000 whose end is
a valid address; freed blocks may become unused at once or never, and what has been asked to be freed is recorded.
What is proved holds for all of these choices.
Classes and loops follow the source: the runtime, the region list and guest memory are objects that methods
update; each method is proved equal to a function of the old state, and the theorems are about those functions.
What such a function does is stated a second time without it, byte by byte or field by field (the members whose
names end in `Meaning`), and C's side of a comparison is stated in C's own terms.
`Perform` and `Execute` methods tie the operations of a component to the runs the theorems quantify over.

## Where the code does less than one might expect

- `strtoul` of a minus sign and a magnitude of 2^64 or more answers 1 instead of `ULONG_MAX`
  (`PrintParse.NegativeOverflowAnswersOne`); a vertical tab is not skipped as white space
  (`Strto.VerticalTabDiffers`); a number that ends beyond the first 2^20 bytes is cut off or missed
  (`Strto.LongBlanksDiffer`); and a base register with stray high bits is refused, although the base is an `int`.
  `Strto.ImportMatchesC` shows that for the bases C allows, value, `ERANGE` and end pointer depart from C in no
  other case.
- The tracing decoder tries the default long layout before the alternate short one, so it misreads short strings
  that start with an odd byte, and it reads every zero-padded default short string as empty.
  `LibcppTrace.TracerAgrees` states for every memory and header when the two decoders agree.
- `protect_lazy_memory` treats an empty region strictly inside the range as coverage and then adds nothing
  (`LazyMemory.ProtectAddsRange`, `LazyMemoryRuns.StepRefinesEager`). A reservation of size 0 at a page boundary
  brings this about (`LazyMemoryRuns.EmptyReservationSwallowsProtection`).
- With overlapping regions, one access across a page boundary can materialise a page with another region's
  protection (`LazyMemoryRuns.OverlapFaultIncoherent`). It does exactly if a page it maps belongs to a region that
  disagrees with the one found (`LazyMemoryRuns.FaultCoherence`).
- A block that has to be rolled back removes an empty queue that was stored for the condition
  (`GuestThreadRuns.BlockRollsBack`); well-formed states store none.
- Rewriting a string whose decoded capacity exceeds 0x1000F lowers that capacity
  (`LibcppStringRuns.CapacityKept`, `LibcppStringRuns.ForeignCapacityLowered`); the writer itself never produces
  such a capacity.
- Thread ids repeat once the counter has reached the largest 64-bit id, and not before
  (`GuestThreadRuns.IdsNeverRepeat`, `GuestThreadRuns.SaturatedIdsRepeat`).
- When a signal wakes a waiter, the field `pending_signals` reports the waiters left, modulo 2^32, not signals
  (`GuestThreads.GuestThreadRuntime.SignalCond`).
- `printf` skips the length modifiers `h` and `hh`, so a value outside the named type is printed in full; zero with
  an explicit precision of zero prints `0`, where C prints no digit; and `%o` comes out as it stands. For a parsed
  field, `%d`, `%i`, `%u`, `%x`, `%X` and `%o` depart from C in no other case (`PrintfAgainstC.IntegersMatchC`).

## Model

| member | source | states |
|---|---|---|
| Memory.GuestMemory.AllocateMemory | crates/compatra/src/lib.rs:65-83 | an allocation may fail without effect, or adds one aligned block that overlaps nothing mapped |
| LibcppVector.ConstructedShape | crates/compatra/src/cxx.rs:754-788 | a constructed vector has begin ≤ end ≤ capacity-end within 64 KiB, or an all-zero header, and owns only mapped memory |
| LibcppVector.DecodesExactly | crates/compatra/src/cxx.rs:754-788 | the header is begin, end and capacity end at offsets 0, 8 and 16; which words decode, and to what, for every memory |
| LibcppVector.HeaderDecodes | crates/compatra/src/cxx.rs:754-805 | the decoder inverts the header writer for every begin, length and capacity |
| LibcppVector.WriteVectorHeader | crates/compatra/src/cxx.rs:790-805 | the header is written unless an end pointer would overflow or the object is unmapped |
| LibcppVector.ConstructVector | crates/compatra/src/cxx.rs:372-375 | default construction yields an empty vector and touches only the header |
| LibcppVector.ClearVector | crates/compatra/src/cxx.rs:807-810 | clear empties the vector, keeps buffer and capacity, and touches nothing outside it; an undecodable header makes it fail without effect, as in all operations below |
| LibcppVector.PopVector | crates/compatra/src/cxx.rs:912-916 | pop_back drops the last byte, or does nothing to an empty vector |
| LibcppVector.ReserveVector | crates/compatra/src/cxx.rs:843-862 | contents survive relocation, capacity becomes the capped request if larger, failure changes nothing, and the bytes moved are exactly the length when relocating |
| LibcppVector.ResizeVector | crates/compatra/src/cxx.rs:864-888 | resize keeps the first bytes and makes every further one the fill byte, up to 64 KiB, or fails changing nothing only when it had to grow |
| LibcppVector.PushVector | crates/compatra/src/cxx.rs:890-910 | push_back appends one byte with the doubling rule, or fails changing nothing only when the buffer was full |
| LibcppVector.DestroyVector | crates/compatra/src/cxx.rs:812-818 | destruction asks for the block to be freed, once, and leaves an empty vector |
| LibcppVector.CopyVector | crates/compatra/src/cxx.rs:820-833 | a copy holds the same bytes in a block of its own, or fails changing nothing |
| LibcppVector.AssignVector | crates/compatra/src/cxx.rs:380-386 | assignment copies the source, self-assignment changes nothing, and a failed copy leaves the target empty |
| LibcppVector.Appended | crates/compatra/src/cxx.rs:864-910 | storing behind the contents and lengthening the header appends exactly that data |
| LibcppVector.Installed | crates/compatra/src/cxx.rs:820-862 | a header pointed at a fresh block yields a constructed object and disturbs no other address or block |
| LibcppVector.OtherVectorUntouched | crates/compatra/src/cxx.rs:372-426 | an operation on one vector leaves every separate vector decoded, filled and separate as before |
| LibcppVector.OtherVectorUntouchedByBirth | crates/compatra/src/cxx.rs:372-379 | so does the construction of a vector on storage that the other does not own |
| LibcppVectorRuns.ReadReferenced | crates/compatra/src/cxx.rs:407-422 | a by-reference byte is what the reference denotes before the vector is touched, also when it lies in the vector itself |
| LibcppVectorRuns.CallMeaning | crates/compatra/src/cxx.rs:372-426 | what each import does to bytes and capacity, byte by byte |
| LibcppVectorRuns.PopUndoesPush | crates/compatra/src/cxx.rs:890-916 | pop_back undoes push_back |
| LibcppVectorRuns.ProxyImport | crates/compatra/src/cxx.rs:372-426 | each import has the effect of the byte-sequence operation on bytes and capacity, with by-reference bytes as memory held them before; it fails if its reference is bad or the vector is full at the maximum, and otherwise only if it must allocate |
| LibcppVectorRuns.StepKeepsWorld | crates/compatra/src/cxx.rs:372-426 | a call on one vector, or a constructor on raw storage, keeps all vectors constructed, pairwise separate and equal to their byte sequences, and foreign memory unwritten |
| LibcppVectorRuns.BirthKeepsWorld | crates/compatra/src/cxx.rs:372-379 | constructing a vector on mapped storage of its own adds it to those there are, whatever bytes the storage held |
| LibcppVectorRuns.Execute | crates/compatra/src/cxx.rs:372-426 | every run of every program over any number of vectors, constructed on the way or before, equals the run over byte sequences and capacities, and every outcome is a possible one |
| LibcppVectorRuns.OutcomeAt | crates/compatra/src/cxx.rs:372-426 | call by call: a call of a run succeeds unless it is not made, must fail, or needs a block that is refused |
| LibcppVectorRuns.RunKeepsCapacity | crates/compatra/src/cxx.rs:807-916 | over every run no vector outgrows its capacity or the maximum, and a capacity falls only by construction, assignment or destruction |
| LibcppVectorRuns.ExecuteFromStorage | crates/compatra/src/cxx.rs:372-426 | the same for programs that start from nothing but mapped storage, headers apart |
| LibcppVectorRuns.PushedPotential | crates/compatra/src/cxx.rs:890-904 | after n pushes the capacity is a power of two at most the maximum and the moves are all smaller powers |
| LibcppVectorRuns.AmortisedPushes | crates/compatra/src/cxx.rs:843-910 | n pushes on an empty vector move fewer than 2n bytes and leave capacity below 2n |
| LibcppVectorRuns.PushEach | crates/compatra/src/cxx.rs:415-422 | a guest loop of pushes attains exactly those costs and stops only at a full buffer |
| LibcppString.AlternateShortDecodes | crates/compatra/src/cxx.rs:582-590 | alternate short strings decode for any bytes, odd first bytes and NULs included |
| LibcppString.AlternateLongDecodes | crates/compatra/src/cxx.rs:577-580 | alternate long strings decode to the bytes behind the pointer and the recorded capacity |
| LibcppString.DefaultShortDecodes | crates/compatra/src/cxx.rs:592-601 | zero-padded default short strings decode for any bytes |
| LibcppString.DefaultLongDecodes | crates/compatra/src/cxx.rs:603-606 | default long strings decode when the data pointer is below 2^56 |
| LibcppString.HeaderMeaning | crates/compatra/src/cxx.rs:560-642 | for every 24 bytes: which layout they are taken for, and the text, data pointer and capacity by position in the header |
| LibcppString.DataPointerHolds | crates/compatra/src/cxx.rs:644-652 | in every layout the string's bytes lie where data() points |
| LibcppString.WriteString | crates/compatra/src/cxx.rs:654-691 | what is written decodes to the capped bytes, is NUL-terminated at c_str() and zero up to the capacity, which an aligned block backs, and overwrites nothing but the header; failure changes nothing |
| LibcppStringRuns.ErasedIsTwoSlices | crates/compatra/src/cxx.rs:705-722 | removing the positions in [pos, pos + len) is joining the two clamped slices |
| LibcppStringRuns.AppendString | crates/compatra/src/cxx.rs:693-703 | append refines concatenation cut off at 64 KiB, for strings of any layout |
| LibcppStringRuns.EraseString | crates/compatra/src/cxx.rs:705-722 | erase removes exactly the positions in range, with npos as length too |
| LibcppStringRuns.ClearString | crates/compatra/src/cxx.rs:724-727 | clear empties the string under the capacity rule |
| LibcppStringRuns.ReserveString | crates/compatra/src/cxx.rs:729-739 | reserve keeps the bytes and raises the capacity to the capped request |
| LibcppStringRuns.ResizeString | crates/compatra/src/cxx.rs:741-752 | resize keeps the first bytes and makes every further one the fill byte, up to 64 KiB |
| LibcppStringRuns.EffectMeaning | crates/compatra/src/cxx.rs:221-334 | what each import does to the text, byte by byte |
| LibcppStringRuns.CapacityMeaning | crates/compatra/src/cxx.rs:662-691 | the capacity left: what was wanted, and less than 16 more |
| LibcppStringRuns.ArgumentMeaning | crates/compatra/src/cxx.rs:221-334 | what object and character arguments bring in |
| LibcppStringRuns.PointerMeaning | crates/compatra/src/cxx.rs:918-947 | a pointer into a text brings in the bytes from there, as many as asked for or up to the first NUL |
| LibcppStringRuns.ReadCappedGuestBytes | crates/compatra/src/cxx.rs:938-947 | pointer-and-length arguments name capped bytes, and none in the zero page |
| LibcppStringRuns.ReadCappedCString | crates/compatra/src/cxx.rs:918-936 | C-string arguments are read up to the terminator or the cap, failing on an unmapped byte before it |
| LibcppStringRuns.CapacityKept | crates/compatra/src/cxx.rs:662-691 | a rewrite keeps the capacity from falling exactly when it is at most 0x1000F |
| LibcppStringRuns.ForeignCapacityLowered | crates/compatra/src/cxx.rs:577-580 | an alternate long header with a larger allocation decodes to a larger capacity, and every rewrite lowers it |
| LibcppStringRuns.CapacityStable | crates/compatra/src/cxx.rs:662-691 | a written capacity is reproduced exactly by every later rewrite that fits in it |
| LibcppStringRuns.MutationsKeepCapacity | crates/compatra/src/cxx.rs:693-752 | append, erase, resize, reserve and clear never lower a capacity this writer produced |
| LibcppStringRuns.OtherStringUntouched | crates/compatra/src/cxx.rs:662-691 | a rewrite of one string leaves the decoding of every other string as it was |
| LibcppStringRuns.StepKeepsWorld | crates/compatra/src/cxx.rs:221-334 | a rewrite of a string or a construction on raw storage keeps every other string and all foreign bytes |
| LibcppStringRuns.BirthKeepsWorld | crates/compatra/src/cxx.rs:221-239 | constructing a string on mapped storage of its own adds it to those there are |
| LibcppStringRuns.ProxyImport | crates/compatra/src/cxx.rs:221-334 | each import refines the byte-sequence operation on arguments read before the string changes, so self-append works; unreadable arguments change nothing, and mutations never lower a written capacity |
| LibcppStringRuns.DataArguments | crates/compatra/src/cxx.rs:644-652 | a pointer into a string, the target's own text included, brings in what that string holds there |
| LibcppStringRuns.Execute | crates/compatra/src/cxx.rs:221-334 | every run of every program over any number of strings, constructed on the way or before, equals the run over byte sequences and capacities, and every outcome is a possible one |
| LibcppStringRuns.OutcomeAt | crates/compatra/src/cxx.rs:221-334 | call by call: a call of a run succeeds unless it is not made or needs a block that is refused |
| LibcppStringRuns.RunKeepsCapacity | crates/compatra/src/cxx.rs:693-752 | over every run of appends, erasures, resizes, reservations and clears a written capacity never falls |
| LibcppStringRuns.ExecuteFromStorage | crates/compatra/src/cxx.rs:221-334 | the same for programs that start from nothing but mapped storage, headers apart |
| LibcppSearch.FindChar | crates/compatra/src/cxx.rs:989-1009 | the first place of the byte from pos on, or the last one up to pos; npos exactly if there is none |
| LibcppSearch.CompareBytes | crates/compatra/src/cxx.rs:1022-1034 | negative, zero or positive exactly as the first text is before, equal to or after the second in byte order |
| LibcppSearch.CompareSubstring | crates/compatra/src/cxx.rs:1011-1020 | the same for the substring at pos, cut off at the end of the string |
| LibcppSearch.BeforeTransitive | crates/compatra/src/cxx.rs:1022-1034 | byte order is transitive, so compare can sort |
| LibcppTrace.TracerAgrees | crates/machoscope-analysis/src/libcpp.rs:144-240 | for every memory and every header the proxy decodes, the tracer sees the same text exactly under a condition on the header and what it reads as default long |
| LibcppTrace.ObjectTracerAgrees | crates/machoscope-analysis/src/libcpp.rs:144-240 | the same for an object in memory |
| LibcppTrace.TracedLayout | crates/machoscope-analysis/src/libcpp.rs:158-213 | the layout the tracer names, by flag bits and length byte |
| LibcppTrace.UserSpaceAgreement | crates/machoscope-analysis/src/libcpp.rs:174-199 | where nothing is mapped at or above 2^56 the condition on alternate short strings is one on header bytes alone |
| LibcppTrace.TracerReadsWrittenStrings | crates/machoscope-analysis/src/libcpp.rs:158-199 | a short string as written is traced exactly if empty, even-first, or nothing else is readable where the tracer looks; in user space, if bytes 9 to 16 hold a nonzero one |
| LibcppTrace.TracerReadsWrittenLongStrings | crates/machoscope-analysis/src/libcpp.rs:158-171 | a long string as written is always traced in full |
| LibcppTrace.OddShortStringsTraceAsEmpty | crates/machoscope-analysis/src/libcpp.rs:174-199 | written strings of 1 to 8 bytes with an odd first byte trace as empty |
| LibcppTrace.DefaultShortStringsTraceAsEmpty | crates/machoscope-analysis/src/libcpp.rs:186-213 | zero-padded default short strings always trace as empty |
| LibcppTrace.UnreadableTracesAsEmpty | crates/machoscope-analysis/src/libcpp.rs:148-149 | an unreadable object traces as empty where the proxy refuses it |
| GuestThreads.GuestThreadRuntime.RemovePendingById | crates/compatra-threading/src/lib.rs:133-139 | removes the first thread with the id and keeps the order of the others |
| GuestThreads.GuestThreadRuntime.DispatchNext | crates/compatra-threading/src/lib.rs:166-196 | dispatches the head only when no thread is active, under parent id max(current, 1) |
| GuestThreads.GuestThreadRuntime.DispatchThreadById | crates/compatra-threading/src/lib.rs:198-232 | dispatches the first thread with the id under the same rules |
| GuestThreads.GuestThreadRuntime.YieldActiveToNext | crates/compatra-threading/src/lib.rs:234-261 | the active thread goes to the back, the head runs, the parent slot is kept |
| GuestThreads.GuestThreadRuntime.BlockActiveOnCond | crates/compatra-threading/src/lib.rs:263-303 | the active thread joins the condition queue and the head runs, or everything is rolled back |
| GuestThreads.GuestThreadRuntime.BlockCurrentOnCondAndDispatch | crates/compatra-threading/src/lib.rs:305-335 | the current thread joins the queue and the head is dispatched, never needing the rollback |
| GuestThreads.GuestThreadRuntime.ReserveGuestThread | crates/compatra-threading/src/lib.rs:337-362 | ids and stacks come from saturating counters, with a top 0x100 below the stack's end |
| GuestThreads.GuestThreadRuntime.EnqueueThreadStart | crates/compatra-threading/src/lib.rs:364-379 | a reserved thread is queued last, to start at its entry on its own stack |
| GuestThreads.GuestThreadRuntime.TakeThreadCompletion | crates/compatra-threading/src/lib.rs:385-387 | a recorded completion is handed out once |
| GuestThreads.GuestThreadRuntime.ConsumeCondSignal | crates/compatra-threading/src/lib.rs:389-406 | consumes one pending signal and takes the mutex, or changes nothing |
| GuestThreads.GuestThreadRuntime.SignalCond | crates/compatra-threading/src/lib.rs:408-424 | wakes the first waiter, or counts a signal, saturating |
| GuestThreads.GuestThreadRuntime.BroadcastCond | crates/compatra-threading/src/lib.rs:426-428 | wakes every waiter in order with a falling count; the last one woken runs first |
| GuestThreads.GuestThreadRuntime.WakeOneCondWaiterFor | crates/compatra-threading/src/lib.rs:431-452 | wakes the first waiter, hands it its mutex and drops an emptied queue |
| GuestThreads.GuestThreadRuntime.WakeCondWaitersFor | crates/compatra-threading/src/lib.rs:462-475 | wakes exactly min(limit, waiters), first come first woken; the run queue becomes the reversed records before the old queue |
| GuestThreads.WakeOneMore | crates/compatra-threading/src/lib.rs:462-475 | waking n waiters and one more is waking n + 1 |
| GuestThreads.DispatchMeaning | crates/compatra-threading/src/lib.rs:166-232 | the thread taken becomes active and current over the parent's context, exit action and id, the current one or 1; nothing else changes |
| GuestThreads.YieldMeaning | crates/compatra-threading/src/lib.rs:234-261 | the record handed in goes last as it is, the head takes over, the parent slot stays |
| GuestThreads.BlockMeaning | crates/compatra-threading/src/lib.rs:263-303 | the waiter, its mutex and its record go behind the waiters there are; no other queue changes |
| GuestThreads.BlockCurrentMeaning | crates/compatra-threading/src/lib.rs:305-335 | likewise for the current thread, with the parent's context stored |
| GuestThreads.WakeMeaning | crates/compatra-threading/src/lib.rs:431-475 | the first n waiters leave their queue and stand in front of the run queue, the last one first |
| GuestThreads.SignalMeaning | crates/compatra-threading/src/lib.rs:408-424 | a signal wakes a waiter and leaves the counts, or adds one up to 2^32 - 1 |
| GuestThreads.ConsumeMeaning | crates/compatra-threading/src/lib.rs:389-406 | one signal less, and the mutex belongs to the consumer |
| GuestThreads.ReserveMeaning | crates/compatra-threading/src/lib.rs:337-362 | an id is granted exactly if it is at most one above the limit; both counters saturate |
| GuestThreads.StartMeaning | crates/compatra-threading/src/lib.rs:364-379 | a new thread's record has its entry, argument, stack top and exit address in place |
| GuestThreadRuns.WakeOneCondWaiter | crates/compatra-threading/src/lib.rs:454-460 | some waiting condition, any, loses its first waiter; none is missed |
| GuestThreadRuns.WakeCondWaiters | crates/compatra-threading/src/lib.rs:477-486 | wakes min(limit, all waiters), in queue order per condition, whatever order the map yields |
| GuestThreadRuns.WokenEachQueue | crates/compatra-threading/src/lib.rs:454-486 | every queue loses exactly as many first waiters as wakes named it |
| GuestThreadRuns.Perform | crates/compatra-threading/src/lib.rs:116-486 | every operation of the runtime is one step of the runs below |
| GuestThreadRuns.StepConservesThreads | crates/compatra-threading/src/lib.rs:121-335 | no step loses, duplicates or invents a thread: counts per id change only by explicit enqueues, activations and removals |
| GuestThreadRuns.RunConservesThreads | crates/compatra-threading/src/lib.rs:121-486 | over every run, per id, the threads present are those that entered and did not leave |
| GuestThreadRuns.RunKeepsThreadsUnique | crates/compatra-threading/src/lib.rs:121-486 | no thread is ever in two places if threads enter under ids not present |
| GuestThreadRuns.RunKeepsWellFormed | crates/compatra-threading/src/lib.rs:121-486 | no empty queue is stored, waiters carry their own id, and the active thread is current, in every run |
| GuestThreadRuns.BlockRollsBack | crates/compatra-threading/src/lib.rs:279-289 | a block with nothing runnable restores the state exactly when no empty queue was stored |
| GuestThreadRuns.RunKeepsParent | crates/compatra-threading/src/lib.rs:166-303 | once a thread is active, parent context, parent id and exit action survive every run without an outside activation |
| GuestThreadRuns.SignalsAccountedFor | crates/compatra-threading/src/lib.rs:389-424 | signals sent are those that woke, were consumed, are pending, or met a full counter |
| GuestThreadRuns.NoSignalDropped | crates/compatra-threading/src/lib.rs:415-419 | no signal is dropped while fewer than 2^32 are sent |
| GuestThreadRuns.StepKeepsExclusive | crates/compatra-threading/src/lib.rs:263-424 | waiters and pending signals come to coexist exactly by blocking on a signalled condition |
| GuestThreadRuns.WaitFollowsFailedTry | crates/compatra-threading/src/lib.rs:389-406 | in a disciplined trace every wait comes directly after a consume on its condition that answered false |
| GuestThreadRuns.DisciplinedRunsStayExclusive | crates/compatra-threading/src/lib.rs:263-424 | in every such trace waiters and pending signals never coexist |
| GuestThreadRuns.DisciplineFromTheStart | crates/compatra-threading/src/lib.rs:92-108 | so a runtime that starts empty never has both on any condition |
| GuestThreadRuns.StepQueue | crates/compatra-threading/src/lib.rs:263-486 | every step adds at the end of a condition's queue and takes from its front |
| GuestThreadRuns.FirstInFirstWoken | crates/compatra-threading/src/lib.rs:263-486 | over every run the waiters of a condition are woken in the order in which they blocked |
| GuestThreadRuns.EarlierWokenFirst | crates/compatra-threading/src/lib.rs:263-486 | whoever is woken, all who blocked on the condition before were woken before |
| GuestThreadRuns.LastWaiterOwns | crates/compatra-threading/src/lib.rs:444 | each mutex ends with the last woken waiter that named it, others keep their owner |
| GuestThreadRuns.EveryThreadGetsItsTurn | crates/compatra-threading/src/lib.rs:234-261 | under yields alone the k-th thread in line runs after k + 1 yields |
| GuestThreadRuns.FullRound | crates/compatra-threading/src/lib.rs:234-261 | after as many yields as threads everyone is back in place |
| GuestThreadRuns.IdsCountUp | crates/compatra-threading/src/lib.rs:352-362 | over every run, with any steps and limits in between, the i-th id granted is the counter plus i, held at the largest id |
| GuestThreadRuns.IdsNeverRepeat | crates/compatra-threading/src/lib.rs:352-362 | the ids of a run are all different exactly if the last of them does not pass the largest id |
| GuestThreadRuns.IdsWithinLimit | crates/compatra-threading/src/lib.rs:352-362 | no id passes the largest limit of the run by more than one, and with limits below the top none repeats |
| GuestThreadRuns.SaturatedIdsRepeat | crates/compatra-threading/src/lib.rs:352-362 | at the largest id the same id is handed out twice |
| GuestThreadRuns.StacksDisjoint | crates/compatra-threading/src/lib.rs:337-350 | over every run a stack ends before every later one exactly if it fits below the top of memory |
| LazyMemory.RangeEnd | crates/compatra-runtime/src/unicorn.rs:298-299 | ranges round up to pages and saturate below the last page |
| LazyMemory.UnmapRemovesRange | crates/compatra-runtime/src/unicorn.rs:308-338 | unmapping removes exactly the range from first-match lookup, for any region list |
| LazyMemory.ProtectChangesRange | crates/compatra-runtime/src/unicorn.rs:348-393 | protecting changes only covered addresses in the range, or adds all of it when nothing overlaps |
| LazyMemory.ProtectAddsRange | crates/compatra-runtime/src/unicorn.rs:364-390 | an uncovered range is added exactly when no empty region lies strictly inside |
| LazyMemory.UnmapGrowth | crates/compatra-runtime/src/unicorn.rs:316-336 | unmapping adds at most one region among disjoint ones |
| LazyMemory.ProtectGrowth | crates/compatra-runtime/src/unicorn.rs:361-391 | protecting adds at most two regions among disjoint ones |
| LazyMemory.LazyMemory.ReserveLazyMemory | crates/compatra-runtime/src/unicorn.rs:291-306 | a reservation goes behind the existing regions |
| LazyMemory.LazyMemory.UnmapLazyMemory | crates/compatra-runtime/src/unicorn.rs:308-346 | regions are cut and every page of the range is unmapped |
| LazyMemory.LazyMemory.ProtectLazyMemory | crates/compatra-runtime/src/unicorn.rs:348-401 | regions are split and repainted, and every mapped page of the range is reprotected |
| LazyMemory.LazyMemory.Fault | crates/compatra-runtime/src/unicorn.rs:460-501 | the hook maps exactly the missing pages of the access inside the region found |
| LazyMemoryRuns.Perform | crates/compatra-runtime/src/unicorn.rs:291-501 | every operation is one step of the runs below |
| LazyMemoryRuns.PagesStay | crates/compatra-runtime/src/unicorn.rs:340-346 | only an unmap takes materialised pages away, and exactly those of its range; only a fault adds any |
| LazyMemoryRuns.PagesReprotected | crates/compatra-runtime/src/unicorn.rs:395-399 | only a protect changes the protection of a materialised page, and exactly in its range |
| LazyMemoryRuns.FaultMapsExactly | crates/compatra-runtime/src/unicorn.rs:460-501 | a fault maps exactly the missing pages of the access in the first region found, as that region says |
| LazyMemoryRuns.PageKeepsLastProtection | crates/compatra-runtime/src/unicorn.rs:291-501 | over every run a materialised page stays until an unmap covers it, under the last protection that did |
| LazyMemoryRuns.StepRefinesEager | crates/compatra-runtime/src/unicorn.rs:291-401 | for any aligned list a step keeps the lookup equal to the eager page map exactly unless it protects a range that only empty regions overlap |
| LazyMemoryRuns.RunRefinesEager | crates/compatra-runtime/src/unicorn.rs:291-501 | over every run, overlapping and empty reservations included, the lookup is always the eager page map exactly if no protection is swallowed |
| LazyMemoryRuns.FaultCoherence | crates/compatra-runtime/src/unicorn.rs:460-501 | a fault keeps every materialised page at its looked-up protection exactly if no page it maps belongs to a region that disagrees |
| LazyMemoryRuns.DisjointUncontested | crates/compatra-runtime/src/unicorn.rs:460-501 | among disjoint regions that is always so |
| LazyMemoryRuns.OnePageUncontested | crates/compatra-runtime/src/unicorn.rs:460-501 | for an access within one page too, even among overlapping regions |
| LazyMemoryRuns.StepKeepsCoherent | crates/compatra-runtime/src/unicorn.rs:291-501 | reservations, unmaps and protections never disturb the agreement, for any list |
| LazyMemoryRuns.RunStaysCoherent | crates/compatra-runtime/src/unicorn.rs:291-501 | over every run the materialised pages always agree with the lookup exactly if no access is contested |
| LazyMemoryRuns.LegalRunsLookEager | crates/compatra-runtime/src/unicorn.rs:291-501 | with fresh, non-empty reservations every run stays sound, agrees with the eager page map and meets both conditions |
| LazyMemoryRuns.AccessServed | crates/compatra-runtime/src/unicorn.rs:460-501 | an access is served exactly where the eager map has its first page, which is then materialised |
| LazyMemoryRuns.TouchedPagesLookEager | crates/compatra-runtime/src/unicorn.rs:460-501 | touching a range page by page materialises exactly the eager map's pages with its protections, whatever overlaps |
| LazyMemoryRuns.AccessLooksEager | crates/compatra-runtime/src/unicorn.rs:460-501 | an access across pages and its retries leave each of its pages exactly as the eager map has it, if and only if the access is not contested |
| LazyMemoryRuns.EmptyReservationSwallowsProtection | crates/compatra-runtime/src/unicorn.rs:291-401 | from the empty state, reserving no bytes at a page boundary makes a later protection around it add nothing |
| LazyMemoryRuns.OverlapFaultIncoherent | crates/compatra-runtime/src/unicorn.rs:291-501 | from the empty state, two overlapping reservations and one access across their boundary give a page the wrong protection |
| CStringReader.ReadCStringBytesWithTruncation | crates/compatra/src/lib.rs:3435-3474 | the chunked reader has the outcome of the byte-at-a-time scan on every memory with holes |
| CStringReader.ScanBytes | crates/compatra/src/lib.rs:3456-3468 | the fallback continues the scan byte by byte over one chunk |
| CStringReader.ScanMeaning | crates/compatra/src/lib.rs:3435-3474 | truncated exactly when no NUL is among the first bytes; an error exactly when an unmapped byte comes before the terminator |
| Strto.SplitIsLongest | crates/compatra/src/lib.rs:5616-5671 | the digits found belong to the longest prefix of the form C expects, with its value; none is found only if there is none |
| Strto.AllButVerticalTab | crates/compatra/src/lib.rs:5616-5622 | the white space skipped is C's without the vertical tab, for every byte |
| Strto.DigitsAreCs | crates/compatra/src/lib.rs:5598-5605 | a byte is a digit exactly if it is one of C's digits or letters, and its value is its place |
| Strto.CParseMeaning | crates/compatra/src/lib.rs:5608-5731 | the conversion compared with is C's: longest subject sequence, its value or the nearest limit with ERANGE, or nothing |
| Strto.BadBaseRefused | crates/compatra/src/lib.rs:5637-5649 | a base C does not allow answers 0 with errno 22 and the end pointer at the start |
| Strto.OutcomeMatchesC | crates/compatra/src/lib.rs:5718-5725 | results are clamped as in C exactly unless a negative magnitude exceeds the unsigned range |
| Strto.ParseMatchesC | crates/compatra/src/lib.rs:5616-5731 | for every text as read and every base the conversion is C's exactly if there is no number or neither departure |
| Strto.PrefixMatchesC | crates/compatra/src/lib.rs:5608-5731 | converting only the first n bytes is C's conversion of the whole exactly if moreover C's subject ends within them |
| Strto.ImportMatchesC | crates/compatra/src/lib.rs:5608-5731 | for every C string in memory, base register and kind, value, errno and end pointer of the import are C's exactly outside four departures |
| Strto.LongBlanksDiffer | crates/compatra/src/lib.rs:5615 | behind 2^20 blanks the import misses the number that C converts |
| Strto.VerticalTabDiffers | crates/compatra/src/lib.rs:5616-5622 | a vertical tab before a digit: C converts, the import does not |
| PrintParse.NegativeOverflowAnswersOne | crates/compatra/src/lib.rs:5718-5725 | strtoull of a minus sign and any magnitude of 2^64 or more answers 1, where C answers the maximum |
| PrintParse.BaseFollowsPrefix | crates/compatra/src/lib.rs:5652-5673 | with base 0, 0x reads hexadecimal, another leading 0 octal, anything else decimal, for every number |
| Strto.FindDigits | crates/compatra/src/lib.rs:5616-5673 | the scan over blanks, sign and prefix stops at the digits of the split |
| Strto.ReadDigits | crates/compatra/src/lib.rs:5690-5702 | the value is the numeral clamped, overflow sticks, and all digits are consumed |
| Strto.StrtoText | crates/compatra/src/lib.rs:5616-5730 | the loops compute the conversion of the text |
| Strto.StrtoIntegral | crates/compatra/src/lib.rs:5608-5731 | the import answers value and errno, stores the end pointer, and fails without effect when memory is unreadable or endptr unwritable |
| PrintfIntegers.DigitsDenote | crates/compatra/src/lib.rs:3886-3925 | printed digits denote the number printed |
| PrintfIntegers.RenderedLayout | crates/compatra/src/lib.rs:3830-3883 | precision and width add only zeros after the prefix and blanks around, to exactly the width asked for |
| PrintfAgainstC.IntegersMatchC | crates/compatra/src/lib.rs:3830-4121 | for every argument, length modifier, field and %d, %u, %x, %X or %o the text is what section 7.21.6.1 of ISO C17 asks for, exactly if it is not octal, the value fits the modifier's type, and it is not zero under precision zero |
| PrintfAgainstC.FitsMeaning | crates/compatra/src/lib.rs:4049-4066 | the value printed is C's exactly if it lies in the range of the type named; only h and hh can name a type too small |
| PrintfAgainstC.SignShown | crates/compatra/src/lib.rs:3886-3902 | '-' shows exactly for negative values, '+' exactly for others under its flag, and the leading blank under its own |
| PrintfAgainstC.HexShown | crates/compatra/src/lib.rs:3916-3936 | x or X shows exactly for nonzero values in the alternate form, and all letters have the conversion's case |
| PrintfAgainstC.ShortModifierIgnored | crates/compatra/src/lib.rs:4059-4064 | %hd of 70000 prints 70000 where C prints 4464 |
| PrintfAgainstC.ZeroDigitPrinted | crates/compatra/src/lib.rs:3873-3902 | zero under precision zero prints a digit where C prints none |
| PrintParse.LayoutSplits | crates/compatra/src/lib.rs:5616-5702 | the parser cuts every rendering where the printer joined it |
| PrintParse.SignedRoundTrip | crates/compatra/src/lib.rs:3886-3902 | strtol base 10 of every signed rendering returns the value printed, for every field |
| PrintParse.UnsignedRoundTrip | crates/compatra/src/lib.rs:3905-3913 | strtoull base 10 of every unsigned rendering returns the value |
| PrintParse.HexRoundTrip | crates/compatra/src/lib.rs:3916-3936 | strtoull base 16 of every hexadecimal rendering returns the value |
| PrintParse.SignedRenderingsDiffer | crates/compatra/src/lib.rs:3886-3902 | different longs never print alike under the same field |
| PrintParse.PrintThenParse | crates/compatra/src/lib.rs:5608-5731 | a long printed into guest memory and parsed back is returned with errno 0 |
| NextPrime.CompatIsPrime | crates/compatra/src/lib.rs:2329-2344 | trial division by odd numbers decides primality and never overflows |
| NextPrime.PrimesAreNoProducts | crates/compatra/src/lib.rs:2329-2344 | the primes meant are the numbers above 1 that are no product of two smaller ones |
| NextPrime.CompatNextPrime | crates/compatra/src/lib.rs:2308-2326 | the least prime from the argument on, or the largest word when none is left; 0 for 0 |
| NextPrime.NextPrimeProperties | crates/compatra/src/lib.rs:2308-2326 | the answer is determined, fixes primes and is monotone |
| Iovecs.ReadGuestIovecs | crates/compatra/src/filesystem.rs:3369-3406 | accepts exactly arrays within both limits, and returns the segments they encode |
| Iovecs.EncodingInjective | crates/compatra/src/filesystem.rs:3391-3404 | an array determines its segments |
| Iovecs.EntryAt | crates/compatra/src/filesystem.rs:3391-3404 | the i-th entry lies at 16 i, base first and then length |
| Iovecs.ReadGuestIovecBytes | crates/compatra/src/filesystem.rs:3409-3428 | gathers every segment, or EFAULT exactly when one is unusable |
| Iovecs.SegmentMeaning | crates/compatra/src/filesystem.rs:3414-3426 | a segment is usable exactly if empty, or above null and mapped; its bytes are those at its addresses |
| Iovecs.WriteGuestIovecBytes | crates/compatra/src/filesystem.rs:3431-3455 | spends the byte budget over the segments in order, EFAULT at the first that cannot be written |
| Iovecs.ScatterMeaning | crates/compatra/src/filesystem.rs:3431-3455 | for any segments, buffers and count: EFAULT exactly at the first reached part that is unusable; what was written stays, the last write wins where parts overlap, nothing else changes |
| Iovecs.TrimmedAt | crates/compatra/src/filesystem.rs:3440-3448 | each segment gets what the segments before it leave of the count |
| Iovecs.ScatterFills | crates/compatra/src/filesystem.rs:3431-3455 | over disjoint parts: success exactly if every part reached is usable, and then exactly the first count bytes of the concatenated buffers are in them and nothing else changed |
| Iovecs.ScatterThenGather | crates/compatra/src/filesystem.rs:3409-3455 | over disjoint segments a gather after a full scatter returns the buffers |
| Iovecs.GatherThenScatter | crates/compatra/src/filesystem.rs:3409-3455 | writing back what was gathered changes nothing, overlapping or not |
| Iovecs.PreviewIovecBytes | crates/compatra/src/filesystem.rs:3458-3468 | the preview is the first 128 bytes of the concatenation |
| Glob.MatchesLanguage | crates/compatra/src/filesystem.rs:4794-4806 | the matcher decides exactly the pattern's declarative language |
| Glob.OneBytePattern | crates/compatra/src/filesystem.rs:4794-4806 | what a star, a question mark and any other byte stand for |
| Glob.MatchesCompose | crates/compatra/src/filesystem.rs:4794-4806 | a concatenated pattern matches exactly concatenations of matches |
| Glob.StarsCollapse | crates/compatra/src/filesystem.rs:4794-4806 | adjacent stars are one star, anywhere |

## Left out

- The Unicorn engine, hook installation, tagged-pointer aliases and off-canvas pages: engine behaviour that cannot be seen here. The fault hook is taken to be installed, as the first reservation does, and mapping a free page to succeed.
- Pages mapped other than through lazy faults: the page table of `LazyMemory.dfy` holds only lazily materialised pages.
- Host calls (files, sockets, processes, sysctl), symbol classification, logging, reports and command lines: plumbing or tables.
- Thread exit, fork resumption and wait streaks: that path lives elsewhere; runs here end where a thread exits.
- The observers of strings and vectors (`size`, `empty`, `capacity`, `begin`, `end` and the like) beyond `operator[]` and `data()`: direct readings of the decoded object.
- String destruction: it frees the buffer and leaves the header alone; the string operations never free an old long buffer, and nothing here claims that they do not leak.
- LibcppVectorRuns.Execute: a call that uses raw storage as a vector is not made; what the source does then depends on what stray bytes happen to decode to.
- LibcppStringRuns.Execute: calls that read a string where none has been constructed, or read through a pointer past the known end of a string, are not made; assignments and constructors are made on any storage.
- GuestThreads.GuestThreadRuntime.BroadcastCond: needs a queue of at most 2^64 - 1 waiters, which no memory exceeds.
- Vectors whose header decodes although their buffer is no live block of exactly the recorded capacity: inlined guest code can make them, the imports cannot; the vector operations assume there are none.
- The errno of a conversion is the number the import answers, 0 for none; whether the guest's errno is then written is outside the model. `atoi` truncates the same conversion to 32 bits.
- LibcppString.WriteString: needs mapped storage for the object; every operation on an existing string has read its header first.
- LibcppStringRuns.ReadCappedCString: at the top of the address space the pointer saturates here, where the source would overflow.
- Iovecs.WriteGuestIovecBytes: needs buffers as long as their segments, as its callers allocate them; a shorter one makes the source panic.
- Floating point, string and pointer conversions of `printf`, and the parsing of format strings.
