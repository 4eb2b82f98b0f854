# Verified models of a Smalltalk-80 system for the Raspberry Pi

These Dafny modules model the parts of the Smalltalk-80 virtual machine and of the
Circle support library under it that are hardest to get right, in the form the C++
code has (classes whose methods update fields and arrays in loops), and prove them
against independent specifications.

| module | what it models | what it is proved against |
|---|---|---|
| `Words`, `Raster`, `PlainRaster`, `OneWord`, `BitBlts` | the raster engine, sixteen pixels at a time: skew, edge masks, preloading, four directions, halftone, 16 rules | one pixel at a time, reading the source as it was before the copy |
| `ContextSpec`, `ContextLayout`, `Contexts` | context registers, sends, returns | what a caller may expect of any well-nested run of sends and returns |
| `ProcessSpec` | processes that share the context registers: switches between the steps of their sends, stores and returns | each process running by itself |
| `SchedulerSpec`, `PlainScheduler`, `Schedulers` | ready lists, semaphores, deferred process switch, references held outside object memory | a state machine over queues |
| `MethodLookup` | dictionary probing, the superclass chain, the method cache | finite maps and the uncached lookup |
| `Rings`, `Transmit`, `Receive` | the Ethernet driver's descriptor rings: driver, device and interrupt handler | histories of frames queued, sent, received and of buffers deleted |
| `Heap` | the block allocator | blocks that tile the region, each in exactly one place |
| `PtrLists`, `Timers` | kernel timers on a 32-bit tick counter that wraps | deadlines that do not wrap |
| `Calendar` | seconds since 1970 and dates | counting days; turning calendar pages |
| `Numerals`, `Reading`, `PlainText` | printing and reading numbers | the value of a digit sequence; section 7.22.1.4 of ISO C11 |
| `Lines` | both line drawers | the nearest pixel to the true line |

`Basics` holds what several modules share, `Chains` what free lists and process
queues do: links that end with nil. What the specifications share with the methods
proved against them (layouts, tables, hash and rounding functions) is pinned down
without them, as numbers, by `PlainRaster`, `ContextLayout`, `PlainScheduler`,
`PlainText` and the lemmas whose names end in `ByNumbers` or `InClosedForm`.
`dafny verify dfyconfig.toml` checks everything.

## Where the code falls short of its promise

Each is stated for all inputs, with the exact condition where there is one.

- A one-word-wide copy to the right within one row of one form: `checkOverlap` swaps
  the masks that `computeMasks` already merged. Nothing is drawn
  (`Raster.NothingDrawn`), or, if the row ends with its word, pixels to its left are
  drawn over. The result is right if and only if the rule leaves all those pixels as
  they are (`OneWord.RightIfSpared`): always for rule 5 (`OneWord.KeepingIsRight`),
  never for rule 10 (`OneWord.InvertingIsWrong`), and for no rule but 5 for all bitmaps,
  if the pixel that shows it has a source and is not hidden by the halftone
  (`OneWord.WrongForSome`). `BitBlts.BitBlt.CopyBits` is exact for every other job.
- `Allocate` of a size above 2^32 - 64 returns a block without room while the region
  has space for a header: `Heap.HeapAllocator.Allocate` keeps its invariant if and
  only if that is not the case. The header asks for a base aligned to 16 bytes, but
  blocks are aligned as the code asserts if and only if the base is aligned to 64
  (`Heap.HeapAllocator.BlockAligned`).
- `CTime::Set` and `Get` are inverse if and only if the year is below 2^32
  (`Calendar.Time.Set`). `SetDate` adds 4 to its day count in 32 bits; its weekday is
  right if and only if that sum wraps a multiple of seven times
  (`Calendar.WeekDaysAgree`), first not on 17 January 11761191
  (`Calendar.FirstWrongWeekDay`).
- `strtoul` counts the characters from ':' to '@' as digits in bases above 10
  (`Reading.DigitsAgree`), does not notice every overflow
  (`Reading.UnnoticedOverflow`), moves the end pointer past a sign or prefix even when
  no digit follows, and refuses a number that begins with "0x" in base 10
  (`Reading.Differences`). `Reading.ReadingMeets` says exactly on which texts its result
  and end pointer are those of the C standard.
- A timer with a delay above 2^31 ticks fires on the next tick if the timers before it
  are due by then (`Timers.NextTickFires`), and goes before timers that are due
  (`Timers.LongBeforeDue`). With a delay of exactly 2^31 it waits, but a timer started
  without delay goes behind it, as behind all longer ones (`Timers.DueBehindLong`).

## Model

| member | source | states |
|---|---|---|
| `Words.RightMaskTable` | smalltalk/src/bitblt.cpp:40-43 | mask n is the table's n-th constant: its lowest n bits, and only those, are set |
| `Words.MergeIsTruthTable` | smalltalk/src/bitblt.h:129-221 | each of the 16 combination rules works bit by bit, and the four bits of the rule number are its truth table |
| `PlainRaster.RuleByNumber` | smalltalk/src/bitblt.h:129-221 | a rule's result is the bit of the rule number that source and destination bit select, of weight 1, 2, 4 or 8 |
| `Words.SkewedBit` | smalltalk/src/bitblt.cpp:318-330 | joining the two halves of rotated neighbouring source words gives the source bits moved by the skew |
| `Raster.ClippedColumns` | smalltalk/src/bitblt.cpp:47-171 | a column has a place in the destination rectangle, clip rectangle, destination form and moved source form exactly if it lies between the clipped bounds |
| `Raster.ClippedRows` | smalltalk/src/bitblt.cpp:47-171 | the same for rows |
| `Raster.AreaInside` | smalltalk/src/bitblt.cpp:47-171 | the clipped area lies inside the destination form and, moved, inside the source form |
| `PlainRaster.AreaByInequalities` | smalltalk/src/bitblt.cpp:47-171 | the clipped area is what the inequalities between the job's numbers and the sizes of the forms leave over, moved by the job's offset in the source |
| `Raster.SkewedColumn` | smalltalk/src/bitblt.cpp:302-330 | with the aligned words of a row at hand, every bit of the skewed word is the source bit its destination pixel asks for, in either direction |
| `Raster.MergedWord` | smalltalk/src/bitblt.cpp:332-340 | storing a word through its mask gives masked pixels the rule's result and leaves the others |
| `Raster.SourceUnchanged` | smalltalk/src/bitblt.cpp:480-531 | in the chosen directions no source word of the same form has been overwritten before it is read |
| `Raster.WordsPerRow` | smalltalk/src/bitblt.cpp:394-476 | the number of words per row is the number of word columns the area touches |
| `Raster.MasksFit` | smalltalk/src/bitblt.cpp:394-531 | the edge masks, merged and swapped as the code does, let through exactly the columns of the area, except for one-word rows copied rightward |
| `Raster.OutcomeIsRendered` | smalltalk/src/bitblt.cpp:185-531 | what the word loop does is the pixel specification, for every job but one-word rightward copies within a form |
| `PlainRaster.RenderedBits` | smalltalk/src/bitblt.cpp:185-354 | bit by bit: inside the clipped rectangle the rule of its number is applied to the old bit and to the source bit at the job's offset together with the halftone bit at row y modulo 16 and column x modulo 16, either of them black if there is none; every other bit is as it was |
| `Raster.NothingDrawn` | smalltalk/src/bitblt.cpp:466-527 | in that excepted case, unless the row ends with its word, the bitmap is not changed at all |
| `OneWord.RightIfSpared` | smalltalk/src/bitblt.cpp:466-527 | in that excepted case the copy is right exactly if the rule leaves every pixel at stake as it is: those of the area, or, if the rows end with their word, those before the area in that word |
| `OneWord.KeepingIsRight` | smalltalk/src/bitblt.cpp:466-527 | in that excepted case the rule that keeps the destination is right whatever the bitmap holds |
| `OneWord.WrongForSome` | smalltalk/src/bitblt.cpp:466-527 | in that excepted case every other rule is wrong for some bitmap, if the pixel that shows it has a source pixel and is not hidden by the halftone |
| `OneWord.InvertingIsWrong` | smalltalk/src/bitblt.cpp:466-527 | in that excepted case inverting the destination never gives the specified bitmap |
| `PlainRaster.ExceptionByInequalities` | smalltalk/src/bitblt.cpp:466-527 | the excepted case is a copy to the right within one row's words of one form, one word wide but not of 16 pixels, and the pixels at stake in it are named by their coordinates |
| `BitBlts.BitBlt.ClipRange` | smalltalk/src/bitblt.cpp:47-171 | the clipped origin and extent are the intersection of all four rectangles |
| `BitBlts.BitBlt.ComputeMasks` | smalltalk/src/bitblt.cpp:394-476 | skew, edge masks and words per row for the clipped area |
| `BitBlts.BitBlt.CheckOverlap` | smalltalk/src/bitblt.cpp:480-531 | directions, start corner and fixed-up masks for overlapping copies |
| `BitBlts.BitBlt.CalculateOffsets` | smalltalk/src/bitblt.cpp:359-390 | the first source and destination words and the steps between rows, so that every row starts in its place |
| `BitBlts.BitBlt.CopyWord` | smalltalk/src/bitblt.cpp:316-349 | one destination word holds its pixels' results; every index is in range |
| `BitBlts.BitBlt.CopyRow` | smalltalk/src/bitblt.cpp:301-349 | a whole row is copied from the source as it was before the row |
| `BitBlts.BitBlt.CopyLoop` | smalltalk/src/bitblt.cpp:232-354 | exactly the rows of the area are copied, all from the source as it was before; the early return on a bad index is never taken |
| `BitBlts.BitBlt.CopyBits` | smalltalk/src/bitblt.cpp:185-224 | on correctly sized bitmaps the destination is rendered as the pixel specification says (bit by bit in PlainRaster.RenderedBits), overlap or not, and the updated rectangle is the clipped one; a one-word rightward copy within a form is right exactly if the rule leaves every pixel at stake as it is; refused or empty jobs change nothing |
| `ContextSpec.StoreThenFetch` | smalltalk/src/interpreter.cpp:683-759 | storing the context registers and fetching them again gives back the registers |
| `ContextSpec.StoreElsewhere` | smalltalk/src/interpreter.cpp:683-695 | storing them does not change what any other context will load |
| `ContextLayout.HeaderByNumbers` | smalltalk/src/interpreter.h:857-957 | the numbers of temporaries and literals, the flag and the context's size as quotients and remainders of the header |
| `ContextLayout.IntegerField` | smalltalk/src/interpreter.cpp:4985-5004 | a number is stored in a field exactly if it is between -16384 and 16383 |
| `ContextLayout.StoredInFields` | smalltalk/src/interpreter.cpp:683-695 | the registers are stored as ip + 1 and sp - 5 in the second and third field of the active context, and nothing else changes |
| `ContextLayout.LoadedFromFields` | smalltalk/src/interpreter.cpp:735-759 | the registers loaded from a context, field by field: a block's method and receiver are its home's |
| `ContextSpec.Started` | smalltalk/src/interpreter.cpp:4307-4357 | a send makes a context of the method active whose receiver is the value below the arguments and whose sender is the caller; the caller keeps its registers in its context, its stack is lower by receiver and arguments, and no other context changes |
| `ContextLayout.NewContextFields` | smalltalk/src/interpreter.cpp:4307-4357 | every field of the context a send makes: 38 or 18 in all by the header's flag, sender, method, receiver, arguments in order, nil; the instruction pointer begins at 2 * (literals + 1), the stack pointer at 5 plus the temporaries |
| `ContextLayout.CallerFields` | smalltalk/src/interpreter.cpp:4307-4357 | every field of the context that sends: its two registers stored, receiver and arguments replaced by nil, the others as they were |
| `ContextSpec.CallGivesBack` | smalltalk/src/interpreter.cpp:4307-4357 | a send, any well-nested run in the new context and its return, from however full a stack, give the caller its context back: stack lower by the argument count, the result in the receiver's slot, the slots below untouched, the instruction pointer just after the send, the new context finished |
| `ContextSpec.RunKeeps` | smalltalk/src/interpreter.cpp:1458-1518 | any well-nested run keeps the running context's registers' agreement with memory and every slot it does not own |
| `ContextSpec.StepKeeps` | smalltalk/src/interpreter.cpp:1458-1518 | the same for one action, sends by induction on the call tree |
| `ContextLayout.ReturnByFields` | smalltalk/src/interpreter.cpp:1477-1518 | a return makes the home context's sender active, pushes exactly the value answered, takes sender and instruction pointer from the context left, and changes nothing else |
| `ContextLayout.ReturnDecides` | smalltalk/src/interpreter.cpp:1477-1518 | a return is refused exactly if it goes to nil or to a context whose instruction pointer is nil; the active context and the value are then pushed, in that order |
| `ContextSpec.ReturnToFinished` | smalltalk/src/interpreter.cpp:1477-1518 | once a call is over, whatever the caller does next, a return into the call's context or any context created during the call is refused: the active context and the value are pushed for cannotReturn: and nothing else changes |
| `ContextSpec.MessageIsArgument` | smalltalk/src/interpreter.cpp:1325-1364 | the method for doesNotUnderstand: starts with the receiver of the send that was not understood and, as argument, a message holding that send's selector and its arguments in order |
| `Contexts.ContextRegisters.StoreContextRegisters` | smalltalk/src/interpreter.cpp:683-695 | memory as in the specification, with numbers outside SmallInteger range not stored |
| `Contexts.ContextRegisters.FetchContextRegisters` | smalltalk/src/interpreter.cpp:735-759 | registers as loaded from a method or block context |
| `Contexts.ContextRegisters.NewActiveContext` | smalltalk/src/interpreter.cpp:713-733 | the old context stored, the new one loaded |
| `Contexts.ContextRegisters.Transfer` | smalltalk/src/interpreter.cpp:5008-5049 | the moved fields are copied and nil is left behind, nothing else changes |
| `Contexts.ContextRegisters.ActivateNewMethod` | smalltalk/src/interpreter.cpp:4307-4357 | loop and stores have the effect of the specified activation, which the ContextLayout rows give field by field |
| `Contexts.ContextRegisters.ReturnValueTo` | smalltalk/src/interpreter.cpp:1477-1518 | the return is the specified one, cannotReturn: included; only a refused return needs room on the active stack, and a finished target need not be loadable |
| `Contexts.ContextRegisters.CreateActualMessage` | smalltalk/src/interpreter.cpp:1325-1364 | the arguments move from the stack into the message, which is left on the stack above the receiver; nothing else changes |
| `SchedulerSpec.OnePlace` | smalltalk/src/interpreter.cpp:1850-1947 | a process is on one list once, or active, or suspended; a ready process is on the list of its own priority |
| `SchedulerSpec.NoneReadyAbove` | smalltalk/src/interpreter.cpp:1701-1728 | no ready process has a higher priority than the process that runs next |
| `SchedulerSpec.SignalKeeps` | smalltalk/src/interpreter.cpp:1522-1551 | signalling keeps the scheduler invariant |
| `SchedulerSpec.WaitKeeps` | smalltalk/src/interpreter.cpp:1949-1978 | waiting keeps it, given that some process is ready when the active one must wait |
| `SchedulerSpec.SuspendKeeps` | smalltalk/src/interpreter.cpp:2160-2177 | suspending the active process keeps it, given that some process is ready |
| `SchedulerSpec.ResumeKeeps` | smalltalk/src/interpreter.cpp:2283-2312 | resuming a suspended process keeps it |
| `SchedulerSpec.SuspendActiveKeeps` | smalltalk/src/interpreter.cpp:1992-2005 | handing over to the first process of the highest ready list establishes it |
| `PlainScheduler.ResumeByQueues` | smalltalk/src/interpreter.cpp:2283-2312 | a resumed process runs at once exactly if its priority is higher, and the active one then goes to the end of its own ready list; otherwise the resumed one goes to the end of its |
| `PlainScheduler.SuspendActiveByQueues` | smalltalk/src/interpreter.cpp:1701-1728 | a process is ready exactly if some ready list is not empty; the highest such list gives up its first process, which becomes the one to run next |
| `PlainScheduler.SignalByQueues` | smalltalk/src/interpreter.cpp:1522-1551 | a signal counts up to 16383 if nobody waits, and otherwise resumes the first who does |
| `PlainScheduler.WaitByQueues` | smalltalk/src/interpreter.cpp:1949-1978 | a wait takes a counted signal, or puts the active process at the end of the queue and hands over |
| `PlainScheduler.SuspendByQueues` | smalltalk/src/interpreter.cpp:2160-2177 | suspending takes the active process from everywhere and hands over |
| `SchedulerSpec.StepOnSemaphore` | smalltalk/src/interpreter.cpp:1522-1551 | what each operation does to each semaphore's count and queue |
| `SchedulerSpec.Conservation` | smalltalk/src/interpreter.cpp:1522-1551 | over any run, a semaphore's excess less its waiters grows by signals and falls by waits; only signals beyond the largest count are lost |
| `SchedulerSpec.FirstComeFirstServed` | smalltalk/src/interpreter.cpp:1850-1947 | over any run, the waiters released are the waiters in the order they began to wait |
| `SchedulerSpec.DrainIsLegal` | smalltalk/src/interpreter.cpp:2118-2123 | delivering buffered signals, last first, is a legal run |
| `PlainScheduler.DrainBackwards` | smalltalk/src/interpreter.cpp:2118-2123 | the buffered signals are delivered in reverse order, each once |
| `Schedulers.RemoveFirstLinks` | smalltalk/src/interpreter.cpp:1850-1906 | unlinking the first link leaves every list a nil-terminated chain that represents its queue |
| `Schedulers.AddLastLinks` | smalltalk/src/interpreter.cpp:1911-1946 | the same for appending a link |
| `Schedulers.HandOverBalance` | smalltalk/src/interpreter.cpp:1884-1906 | adding and giving up references around a hand-over leaves exactly one reference, on the new process |
| `ProcessSpec.SwitchIsLossless` | smalltalk/src/interpreter.cpp:2123-2133 | switching the active context is switching processes: the process left keeps its registers in memory, the one entered has those it left with, nobody else is affected |
| `ProcessSpec.CallIsRun` | smalltalk/src/interpreter.cpp:4307-4357 | a nested call is the same as its steps, sends, work and returns, one after another |
| `ProcessSpec.StepIsLike` | smalltalk/src/interpreter.cpp:1477-1518 | each send, store and return of a process goes the same way in any memory that holds the process's contexts alike |
| `ProcessSpec.SeparateProcesses` | smalltalk/src/interpreter.cpp:2123-2133 | processes whose contexts and senders are their own, with registers saved as a switch leaves them, can be interleaved as below |
| `ProcessSpec.Projection` | smalltalk/src/interpreter.cpp:2123-2133 | in any run of switches and of processes' own sends, stores and returns, each process does exactly what it would do by itself |
| `ProcessSpec.ResumesWhereItStopped` | smalltalk/src/interpreter.cpp:2123-2133 | a process that is switched out and in again has the registers it had and its contexts as they were, whatever others did in between |
| `ProcessSpec.InterruptedCall` | smalltalk/src/interpreter.cpp:2068-2134 | a send gives the caller its context back even if other processes are switched in during the call, at any time and any number of times |
| `ProcessSpec.NoReturnToFinished` | smalltalk/src/interpreter.cpp:1477-1518 | once a context has returned, it stays finished in any run, at any depth of calls and with other processes switched in, and every return into it is refused |
| `Schedulers.Scheduler.RemoveFirstLinkOfList` | smalltalk/src/interpreter.cpp:1850-1906 | the queue loses its first process, which is returned with one reference |
| `Schedulers.Scheduler.AddLastLinkToList` | smalltalk/src/interpreter.cpp:1911-1946 | the queue gains a last process |
| `Schedulers.Scheduler.WakeHighestPriority` | smalltalk/src/interpreter.cpp:1701-1728 | the first process of the highest non-empty ready list |
| `Schedulers.Scheduler.TransferTo` | smalltalk/src/interpreter.cpp:2265-2279 | the process becomes the one to run next and holds the only reference |
| `Schedulers.Scheduler.SuspendActive` | smalltalk/src/interpreter.cpp:1992-2005 | the hand-over of the specification, links and references included |
| `Schedulers.Scheduler.Sleep` | smalltalk/src/interpreter.cpp:2316-2336 | a process goes last on the ready list of its priority |
| `Schedulers.Scheduler.Resume` | smalltalk/src/interpreter.cpp:2283-2312 | a suspended process runs next or becomes ready |
| `Schedulers.Scheduler.SynchronousSignal` | smalltalk/src/interpreter.cpp:1522-1551 | the signal of the specification; a count beyond SmallInteger range fails |
| `Schedulers.Scheduler.PrimitiveResume` | smalltalk/src/interpreter.cpp:1612-1618 | resuming keeps the invariant and the reference balance |
| `Schedulers.Scheduler.PrimitiveWait` | smalltalk/src/interpreter.cpp:1949-1978 | the wait of the specification |
| `Schedulers.Scheduler.PrimitiveSuspend` | smalltalk/src/interpreter.cpp:2160-2177 | the active process, as receiver on top of the stack, is suspended and replaced there by nil; any other receiver fails and changes nothing |
| `Schedulers.Scheduler.AsynchronousSignal` | smalltalk/src/interpreter.cpp:2249-2262 | the signal is appended to the buffer |
| `Schedulers.Scheduler.DrainSignals` | smalltalk/src/interpreter.cpp:2118-2123 | all buffered signals are delivered, last first |
| `Schedulers.Scheduler.CheckProcessSwitch` | smalltalk/src/interpreter.cpp:2068-2134 | after it no switch is pending, no process is referenced from outside memory, and processes are switched losslessly, as one switch of the runs in ProcessSpec |
| `MethodLookup.SearchIsMap` | smalltalk/src/interpreter.cpp:1266-1320 | on a dictionary with distinct keys and no empty slot between a key's hash slot and its position, the probing search is the finite map from selectors to methods |
| `MethodLookup.NotFound` | smalltalk/src/interpreter.cpp:1302-1319 | meeting an empty slot, or having been everywhere, means the selector is not there |
| `MethodLookup.MaskIsRemainder` | smalltalk/src/interpreter.cpp:1298-1299 | a bitwise and with 2^k - 1 is the remainder modulo 2^k |
| `MethodLookup.SlotByNumbers` | smalltalk/src/interpreter.cpp:1298-1315 | in a dictionary of 2^k slots the search begins at half the selector's pointer modulo the number of slots, and the n-th slot it looks at is n further, modulo that number |
| `MethodLookup.SearchByNumbers` | smalltalk/src/interpreter.cpp:1266-1320 | of those slots the first that is nil or holds the selector decides what the dictionary answers; if there is none, it answers nothing |
| `MethodLookup.NoGapsByNumbers` | smalltalk/src/interpreter.cpp:1266-1320 | a dictionary has no gaps exactly if every key is met from half its pointer on before a nil is |
| `MethodLookup.NearestMethod` | smalltalk/src/interpreter.cpp:1368-1402 | a class understands a selector by the method of the nearest class up the superclasses that has one; if none has, selector 42 is sent instead |
| `MethodLookup.LineDecides` | smalltalk/src/interpreter.cpp:1368-1402 | for every class and selector there is such a line of superclasses: up to the nearest class that has the selector, or to the top |
| `MethodLookup.PrimitiveByNumbers` | smalltalk/src/interpreter.cpp:4624-4641 | the primitive index is bits 7 to 14 of the header extension, shifted, if the top three bits of the header are ones, and else 0 |
| `MethodLookup.SoundStored` | smalltalk/src/interpreter.cpp:4297-4300 | storing a sound entry keeps every cache entry sound |
| `MethodLookup.MethodFinder.LookupMethodInDictionary` | smalltalk/src/interpreter.cpp:1266-1320 | terminates on every dictionary, full ones included, and answers what the first deciding slot holds, with its method and primitive index |
| `MethodLookup.MethodFinder.LookupMethodInClass` | smalltalk/src/interpreter.cpp:1368-1402 | the method the class or its nearest superclass has for the selector, or for doesNotUnderstand: with one argument |
| `MethodLookup.MethodFinder.InitializeMethodCache` | smalltalk/src/interpreter.cpp:3164-3173 | the flushed cache is sound for any classes |
| `MethodLookup.MethodFinder.FindNewMethodInClass` | smalltalk/src/interpreter.cpp:4266-4303 | cached or not, method, primitive index, selector and argument count are those of the uncached lookup, and the cache stays sound, also when doesNotUnderstand: was stored in another selector's slot |
| `Rings.Ahead` | circle/lib/bcm54213.cpp:1349-1361 | walking d slots round a ring is adding d, less the ring's size when past the end |
| `Rings.PositionIsRemainder` | circle/lib/bcm54213.cpp:1349-1361 | going round a ring step by step is the remainder modulo its size |
| `Rings.BetweenIsDifference` | circle/lib/bcm54213.cpp:1373-1373 | 16-bit index differences are true differences while they stay below 2^16 |
| `Transmit.TxRing.Registers` | circle/lib/bcm54213.cpp:712-774 | in every reachable state free_bds plus the index difference is the ring's size, and the write pointer is the clean pointer advanced by it |
| `Transmit.TxRing.Window` | circle/lib/bcm54213.cpp:1349-1390 | a slot holds a buffer exactly in the window from the clean pointer to the write pointer |
| `Transmit.OwnsByNumbers` | circle/lib/bcm54213.cpp:1236-1275 | priority ring i has the descriptors from 32 * i on, 32 of them; ring 16 has those from 128 to 255 |
| `Transmit.EveryDescriptorOnce` | circle/lib/bcm54213.cpp:1236-1275 | each of the 256 descriptors belongs to exactly one of the five rings |
| `Transmit.TxRing.SendFrame` | circle/lib/bcm54213.cpp:712-774 | a frame is queued, padded, unless fewer than two slots are free; other rings' slots are untouched |
| `Transmit.TxRing.Transmit` | circle/lib/bcm54213.cpp:764-768 | the device sends queued frames in order, as they were queued, and never from a deleted buffer, also while a reclaim is under way |
| `Transmit.TxRing.Reclaim` | circle/lib/bcm54213.cpp:1363-1390 | exactly the buffers of the frames sent before it began are deleted, each once, in order, while the device goes on sending |
| `Transmit.Transmitter.constructor` | circle/lib/bcm54213.cpp:1247-1277 | five empty rings over disjoint slots |
| `Transmit.Transmitter.IsSendFrameAdvisable` | circle/lib/bcm54213.cpp:701-710 | says exactly whether SendFrame will accept a frame: at most 30 buffers wait on ring 0 |
| `Transmit.Transmitter.SendFrame` | circle/lib/bcm54213.cpp:712-774 | a frame, padded to 60 bytes, is queued on ring 0 unless fewer than two of its 32 slots are free, all five rings staying valid |
| `Transmit.Transmitter.InterruptHandler0` | circle/lib/bcm54213.cpp:1558-1576 | reclaims the default ring, the device sending meanwhile, all rings staying valid |
| `Transmit.Transmitter.InterruptHandler1` | circle/lib/bcm54213.cpp:1578-1599 | reclaims exactly the priority rings named in the status, the device sending meanwhile |
| `Receive.RxRing.constructor` | circle/lib/bcm54213.cpp:1436-1484 | every slot of the fresh ring has a buffer of its own |
| `Receive.InitRxRing` | circle/lib/bcm54213.cpp:1436-1484 | fails exactly if a buffer could not be allocated; otherwise every slot of the fresh ring has a buffer of its own |
| `Receive.DeliveredBytes` | circle/lib/bcm54213.cpp:828-872 | a frame is delivered if it is in one piece and without errors: its bytes from the third on, less four if the device passes the checksum on |
| `Receive.RxRing.Arrive` | circle/lib/bcm54213.cpp:804-808 | the device fills a free slot or drops the frame; waiting frames are untouched |
| `Receive.RxRing.RxRefill` | circle/lib/bcm54213.cpp:1497-1516 | a new buffer goes on the ring and the old one to the caller, or nothing happens without memory |
| `Receive.RxRing.ReceiveFrame` | circle/lib/bcm54213.cpp:776-885 | frames are taken once each, in the order of arrival; a good frame's payload is delivered unless memory ran out; every slot keeps a buffer of its own and no buffer leaks or is deleted twice |
| `Heap.DefaultIsConfigured` | circle/include/circle/sysconfig.h:87-88 | the default bucket sizes are ones the other results apply to |
| `Heap.WrappedStepIsStep` | circle/lib/heapallocator.cpp:93-93 | the 32-bit block size is right up to 2^32 - 128, zero (so refused) up to 2^32 - 64, and a bare header above |
| `Heap.FittingIs` | circle/lib/heapallocator.cpp:72-86 | only one bucket is the first that is large enough, and its size is what the request is rounded up to; if there is none, nothing is rounded |
| `Heap.CarvedIsTiled` | circle/lib/heapallocator.cpp:89-121 | carving at the end keeps the blocks a tiling of the used region |
| `Heap.PopKeeps` | circle/lib/heapallocator.cpp:80-85 | taking a free list's first block keeps every block in exactly one place and all lists well linked |
| `Heap.PushKeeps` | circle/lib/heapallocator.cpp:192-200 | the same for putting a block on its list |
| `Heap.CopyByBytes` | circle/lib/heapallocator.cpp:173-173 | the first bytes of the new block, as many as the old block's header says, are the old block's; all other bytes are as they were |
| `Heap.HeapAllocator.BlocksApart` | circle/lib/heapallocator.cpp:63-145 | the data of two blocks never overlap, nor does one's data overlap the other's header |
| `Heap.HeapAllocator.InUseHeader` | circle/lib/heapallocator.cpp:63-145 | blocks in use are inside the region and as large as was asked for |
| `Heap.HeapAllocator.BlockAligned` | circle/lib/heapallocator.cpp:63-145 | a block's data is aligned to 64 bytes exactly if the region's address is, so for no block of a region at address 16 |
| `Heap.HeapAllocator.RoomByBucket` | circle/lib/heapallocator.cpp:72-104 | a request succeeds exactly if its first large enough bucket has a free block, or the bytes for header and size, rounded up to 64, fit before the limit less the reserve |
| `Heap.HeapAllocator.Setup` | circle/lib/heapallocator.cpp:51-56 | the region becomes the unused part, wherever it is aligned to 16 bytes |
| `Heap.HeapAllocator.Allocate` | circle/lib/heapallocator.cpp:63-145 | the block has the size of the first bucket large enough, or the size asked for if there is none; it is the first free block of that bucket, or a new one, right behind the blocks there are; all invariants are kept if and only if the size does not wrap or nothing was allocated; a failure only uses up the reserve |
| `Heap.HeapAllocator.ReAllocate` | circle/lib/heapallocator.cpp:147-180 | the old contents are in the new block and no other byte changed; the old block is freed, or kept if there is no room |
| `Heap.HeapAllocator.Free` | circle/lib/heapallocator.cpp:182-217 | the block goes first on the list of the first bucket of exactly its size, or is lost if there is none; nothing else moves |
| `Heap.HeapAllocator.FreeAndAllocate` | circle/lib/heapallocator.cpp:63-217 | allocating right after a block of the same bucket was freed gives that block |
| `PtrLists.PtrList.InsertBefore` | circle/lib/ptrlist.cpp:66-102 | the list gains the element before the given one, links in both directions included |
| `PtrLists.PtrList.InsertAfter` | circle/lib/ptrlist.cpp:104-139 | the same after the given one or into an empty list |
| `PtrLists.PtrList.Remove` | circle/lib/ptrlist.cpp:141-173 | the list loses exactly the element |
| `PtrLists.PtrList.Find` | circle/lib/ptrlist.cpp:175-188 | the first element with the pointer, or null if there is none |
| `Timers.SignedDifference` | circle/lib/timer.cpp:408-411 | the signed 32-bit comparison is the comparison of the true times exactly if they are within 2^31 |
| `Timers.PlaceIsBetween` | circle/lib/timer.cpp:391-420 | the wrapping comparison puts a timer behind all with no later true deadline and before all with a later one |
| `Timers.LongBeforeDue` | circle/lib/timer.cpp:391-420 | a new timer goes before one that is due now exactly if its delay is more than 2^31 |
| `Timers.DueBehindLong` | circle/lib/timer.cpp:391-420 | a timer started without delay goes behind one started now with a delay exactly if that delay is at least 2^31 |
| `Timers.NextTickFires` | circle/lib/timer.cpp:458-493 | the next tick fires a new timer exactly if its delay is at most 1 or more than 2^31 and the timers put before it are due by then |
| `Timers.LoneTimerFires` | circle/lib/timer.cpp:458-493 | with no other timer waiting, the next tick fires a timer exactly if its delay is at most 1 or more than 2^31 |
| `Timers.StartKeeps` | circle/lib/timer.cpp:383-433 | inserting after all timers that are not later keeps fired and waiting timers in the order of deadline, then start |
| `Timers.CancelKeeps` | circle/lib/timer.cpp:435-456 | removing a timer keeps that order and accounts for the timer |
| `Timers.FireKeeps` | circle/lib/timer.cpp:458-493 | firing the first timer when it is due keeps that order, and the timer is on time |
| `Timers.KernelTimers.StartKernelTimer` | circle/lib/timer.cpp:383-433 | for any 32-bit delay the list gains the timer before the first the driver takes to be later; below 2^31 that is behind all with no later true deadline and before all others |
| `Timers.KernelTimers.CancelKernelTimer` | circle/lib/timer.cpp:435-456 | the timer's first place in the list is taken out, whatever the delays; below 2^31 that is the waiting timer, others stay, and a fired one is ignored |
| `Timers.KernelTimers.PollKernelTimers` | circle/lib/timer.cpp:458-493 | fires every timer that was due when the poll began and none that is not due, whatever timers the handlers start; those not due stay; each firing's handler runs once, in order; for any delays, if handlers start nothing, exactly the timers before the first the driver takes not to be due |
| `Timers.KernelTimers.InterruptHandler` | circle/lib/timer.cpp:533-541 | with one tick at a time every timer with a positive delay fires on the tick of its unbounded deadline |
| `Calendar.YearsInClosedForm` | circle/lib/time.cpp:219-227 | counting leap years one by one gives the Gregorian closed form: 365 days a year, and one more every 4 years but every 100, and yet every 400 |
| `Calendar.MonthsInClosedForm` | circle/lib/time.cpp:23-23 | the days before each month without a table: 31 before February, and from March on 59, the leap day, and (153 * (m - 2) + 2) / 5 |
| `Calendar.DatesByNumbers` | circle/lib/time.cpp:229-240 | the dates there are, without a table |
| `Calendar.DayInClosedForm` | circle/lib/time.cpp:146-169 | the number of any day from 1970 on, as one formula of year, month and day |
| `Calendar.LimitInDays` | circle/lib/time.cpp:73-86 | the first day of the year 2^32 is number 1568703873082, each day 86400 seconds |
| `Calendar.EarlierIsLess` | circle/lib/time.cpp:146-169 | day numbers are in the order of the dates, so no two dates share one |
| `Calendar.NextDayIsNext` | circle/lib/time.cpp:73-97 | the next calendar day has the next day number |
| `Calendar.DayAfter` | circle/lib/time.cpp:73-97 | one day later is the next calendar day, and conversely |
| `Calendar.WeekDaysAgree` | circle/lib/time.cpp:131-141 | SetDate's weekday is that of counting from a Thursday, as Set does, exactly if the 32-bit sum of its day count and 4 wraps a multiple of 7 times |
| `Calendar.FirstWrongWeekDay` | circle/lib/time.cpp:131-141 | 17 January 11761191, whose day count still fits in 32 bits, is a Thursday but gets a Sunday |
| `Calendar.Time.ValueByFields` | circle/lib/time.cpp:146-169 | the seconds since 1970 by the fields, years counted from 1900 in 32 bits |
| `Calendar.Time.Set` | circle/lib/time.cpp:56-97 | sets a valid date and time whose value (Calendar.Time.ValueByFields, Calendar.DayInClosedForm) is the given time exactly if the year is below 2^32; the weekday counts from a Thursday |
| `Calendar.Time.SetTime` | circle/lib/time.cpp:99-113 | accepts exactly existing times of day |
| `Calendar.Time.SetDate` | circle/lib/time.cpp:115-144 | accepts exactly the dates from 1970 on that exist (Calendar.DatesByNumbers); the weekday of the day number, the sum with 4 taken modulo 2^32 |
| `Calendar.Time.Get` | circle/lib/time.cpp:146-169 | the seconds that the fields stand for, so Get after Set is the identity |
| `Numerals.Ntoa` | circle/lib/string.cpp:627-662 | for 32-bit and 64-bit numbers: prints digits without leading zeros whose value is the number; the divisor never overflows; at most 22 digits from base 8 on |
| `PlainText.CharByTable` | circle/lib/string.cpp:648-648 | digits are printed as 0 to 9 and the letters of the alphabet, capital or small as asked |
| `PlainText.NumeralByDigits` | circle/lib/string.cpp:627-662 | what is printed has at least one digit, each below the base, and the first is a zero only if it is the only one |
| `PlainText.ValueByWeights` | circle/lib/string.cpp:627-662 | a digit counts as much as the base to the power of the number of digits behind it |
| `Reading.Strtoul` | circle/lib/util.cpp:392-522 | result and end pointer for every text and base, for 32-bit and 64-bit numbers: the largest number, at the digit, if some digit makes the number smaller in those bits, the first such; otherwise the number's low bits, negated by a minus sign, behind its digits; 0 at the beginning for a refused base or prefix |
| `PlainText.DigitByTable` | circle/lib/util.cpp:459-482 | a character is read as the digit it is in either case's table, or as 10 to 16 if it is one of the seven after '9' |
| `PlainText.StartByText` | circle/lib/util.cpp:411-457 | behind whitespace and sign: minus negates; a zero and an x are skipped in bases 0 and 16 and refused in others; another zero is skipped, and means base 8 for base 0; base 10 otherwise. Likewise where the C standard begins |
| `PlainText.ReadByDigits` | circle/lib/util.cpp:459-522 | from there the digits up to the first character that is none are read |
| `PlainText.OutcomeByNumbers` | circle/lib/util.cpp:484-522 | the first digit that makes the number modulo 2^32 or 2^64 smaller ends reading with the largest number; without one the result is that remainder, or the one of its negation |
| `Reading.RoundTrip` | circle/lib/util.cpp:392-522 | reading what was printed gives the number back, ending at the terminator, for all bases 2 to 36 and both widths |
| `Reading.InRangeNeverDrops` | circle/lib/util.cpp:484-502 | no digit of a number in range makes it smaller in the bits there are, so no number in range is reported as too large |
| `Reading.UnnoticedOverflow` | circle/lib/util.cpp:484-502 | 29999999999 is read, to its end, as the 32-bit number 4230196223, and 29999999999999999999 as the 64-bit number 11553255926290448383 |
| `Reading.DigitsAgree` | circle/lib/util.cpp:459-482 | the characters read as digits are those of section 7.22.1.4 of ISO C11, exactly but for the seven between '9' and 'A' |
| `Reading.ReadingMeets` | circle/lib/util.cpp:392-522 | for both widths, result and end pointer are those of section 7.22.1.4 of ISO C11 if and only if a prefix is one that the base takes and a hexadecimal digit follows it, there are digits or nothing was skipped, no character between '9' and 'A' follows that counts as a digit, and the number is in range (or the largest number comes out by coincidence) |
| `Reading.Differences` | circle/lib/util.cpp:392-522 | four texts read otherwise: a sign alone, a prefix alone, a hexadecimal prefix in base 10, and a colon in base 16 |
| `Lines.NearIsQuotient` | smalltalk/raspberry/kernel.cpp:343-379 | the nearest minor coordinate in closed form, halves going down |
| `Lines.TrackStep` | smalltalk/raspberry/kernel.cpp:343-379 | one round of the error loop goes from the nearest pixel to the next nearest pixel, with the error (j+1)*dx - (i+1)*dy |
| `Lines.TrackEnd` | smalltalk/raspberry/kernel.cpp:343-379 | the loop never leaves the box and meets the end exactly after the longer side's number of steps |
| `Lines.OneLine` | smalltalk/raspberry/kernel.cpp:343-379 | there is only one line of nearest pixels |
| `Lines.LineByNumbers` | smalltalk/raspberry/kernel.cpp:343-379 | the kernel's pixels by division: n steps along the longer side, and along the other the product rounded to the nearest |
| `Lines.DrawLine` | smalltalk/raspberry/kernel.cpp:343-379 | terminates, having set the nearest pixel for each step along the longer side, from the start point to the end point |
| `Lines.DrawersAgree` | circle/lib/2dgraphics.cpp:128-174 | the two drawers' lines differ exactly where the line passes midway between two pixels |
| `Lines.CountedByNumbers` | circle/lib/2dgraphics.cpp:128-174 | the library's pixels by division, half the longer side added first |
| `Lines.CountedEnds` | circle/lib/2dgraphics.cpp:128-174 | the counted line starts and ends at the given points and stays in their box |
| `Lines.CountedIsMinor` | circle/lib/2dgraphics.cpp:143-170 | the accumulator is the remainder of (floor(long/2) + n*short) / long, so the quotient is the minor coordinate |
| `Lines.Graphics.PixelInBuffer` | circle/lib/2dgraphics.cpp:128-174 | the pixel in column x of row y is at y * width + x of the buffer, and that place exists for every pixel on the screen |
| `Lines.Graphics.DrawLine` | circle/lib/2dgraphics.cpp:128-174 | sets exactly the pixels of the counted line, or none if an end is off the screen; every index is in the buffer |

## Left out

- Object memory: fetch and store are field accesses of maps and arrays; allocation, the garbage collector, reference counts of contexts, and snapshots are not part of this model.
- Contexts.ContextRegisters.NewActiveContext: the reference counts of the two contexts.
- Machine integers: coordinates, extents and stack indices are unbounded where the source uses `int`; widths are modelled where they matter (16-bit words and indices, 32-bit ticks, sizes and day counts, 64-bit numbers, SmallInteger range).
- Words are sequences of 16 bits rather than machine integers.
- The halftone bitmap is taken not to be the destination bitmap, and two forms share bits only if they are the same form.
- OneWord.RightIfSpared: pixels drawn over that lie before the first pixel of their source row get what the shifter holds, the end of the row above or a word variable never set; of those it says only that they must not have changed.
- CharacterScanner, which derives from the raster engine.
- Blocks, primitives other than process primitives, and the bytecode interpreter: a run in a context is a tree of sends, returns and pushes.
- MethodLookup.MethodFinder.LookupMethodInClass: of createActualMessage the argument count and selector; the packing of arguments is Contexts.ContextRegisters.CreateActualMessage. doesNotUnderstand: is defined.
- Schedulers.Scheduler.AsynchronousSignal: there is room in the buffer, since an overflow is only logged.
- Schedulers.Scheduler.PrimitiveResume: the process is suspended; the primitive itself does not check.
- Schedulers.Scheduler.PrimitiveWait: some process is ready when the active one has to wait, as the interpreter assumes.
- Schedulers.Scheduler.PrimitiveSuspend: some process is ready when the active one is suspended.
- Schedulers.Scheduler.CheckProcessSwitch: the low-memory check, and the reference counts of contexts.
- The processes and their priorities are fixed, and every process has a context it can resume: new processes, changes of priority and processes that have ended are not part of this model.
- ProcessSpec.Projection: a process stores to temporaries of its own contexts only and returns through a home context of its own; objects that processes share outside contexts are not part of this model.
- Transmit.Transmitter.SendFrame: frame lengths are those the code asserts and its buffers hold; cache maintenance and registers other than the ring indices are left out.
- Receive.RxRing.ReceiveFrame: discard counters and the different error bits; frame lengths are those the code asserts.
- Heap.HeapAllocator.Allocate: pointers and sizes have 32 bits, and alignment and header are 64 bytes, as built for the Raspberry Pi 2 to 4 with AARCH 32 (32 bytes on the first model); the panic on a full heap is a null result; statistics are left out.
- Heap.HeapAllocator.Free: the block is in use, which the source's magic number does not check.
- Timers.KernelTimers.PollKernelTimers: handlers that start timers do so with delays below 2^31 (and those waiting were started so), and handlers cancel none; periodic handlers and the uptime clock are left out.
- Calendar.Time.Set: times before 1970.
- Lines.DrawLine: the screen behind SetPixel; the pixels are returned in order.
- Page allocator, class allocator, number pool, byte rings, file system, input devices and everything that talks to hardware registers.
