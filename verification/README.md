# Xkernel, modelled and verified

Xkernel changes constants that are compiled into a running kernel. It compares three builds of the kernel
that differ in one source constant, finds the register through which the constant enters the code, derives
how the register's value depends on the constant, prints probes that overwrite the register, and moves every
thread to the new value without letting one thread see both. This project models the parts of that where
correctness is not obvious and proves what they promise. Where a promise does not hold in general, the exact
condition under which it does is proved instead, with an input that breaks it.

The modules, by component:

- `Consistency`, `Protocol`, `Rounds`: the global transition (a kernel module). `Consistency` is the module's
  state and its routines, as functions and as a class that implements them. `Protocol` adds the threads: any
  number, each with a stack of activations of any depth, moving through instructions, calls, returns and the
  guard and unguard probes of the spans. `Rounds` is about whole histories of such steps. Central notion: the
  *drift* of a scan, the count it took minus the number of activations then inside spans. Until the count
  first reaches zero it stays exactly the drift away from the truth.
- `SpanSearch`, `PerTask`: the per-task transition (BPF): the binary search with 32-bit wrap-around and the
  flag that an epoch invalidates.
- `Flags`: emulation of `cmp` on a saved FLAGS word.
- `Words`, `Machine`: arithmetic of machine words, and the processor's meaning of the analysed instructions.
- `SymExec`, `SymSound`: the symbolic executor, and its soundness against `Machine`.
- `LinearFit`, `IvSearch`, `Compound`, `Leaks`: recovery of `IV = a*V + b`, the search for the register to tune,
  substitution into a compound expression, and when the 64-bit value of that expression is the right w-bit one.
- `Window`, `Probes`, `Tuned`, `Helpers`, `Seeds`: what a block computes when it runs with the generated probes,
  at the three observed values (`Probes`) and at any other (`Tuned`); the other helper bodies (`Helpers`); families
  of seeds for which every hypothesis is discharged (`Seeds`), one on which the probes fail (`Overflow`); and the
  analysis as a whole, from three builds to the probes and to what they compute (`Synthesis`).
- `DiffFilter`, `DiffLaws`, `BasicBlock`: cancelling moved instructions in a disassembly diff, and recovery of
  basic blocks.
- `Stride`: the adversarial request order of the I/O log generator.

Hypotheses of the main results, in words:

- Global transition. Control flow enters a span only by executing the instruction at its `soff` and leaves it
  only by executing the one at its `eoff`. `Rounds.DoneMeansQuiescent` further asks for a *clean scan*: every
  stack saved whole, no frame standing on a probe it has not executed, and every guard registered.
  `Rounds.VerdictIsDrift` drops that and says exactly what the verdict means otherwise.
- Quiescence is claimed for the moment the count reaches zero, not for the later activation by userspace.
- Per-task transition. The claims are about the stack entries that were scanned.
- Probes. The three builds differ, if at all, within the chain; coefficients are integers; up to the end of the
  chain no shift runs with a count of the width or more; and at the saved value and the new one nothing *leaks*:
  at no right shift of the 64-bit C expression does a set bit come down into the word from above it, be it a
  carry or the upper half of the saved register. A build for a further value is one of the same shape whose
  immediates are those that the fit of the three observed ones predicts.

Where code and comments disagree the code is followed. Findings, each a proved lemma below:

- A frame that stands exactly on `eoff` during the scan is not counted, yet its unguard is: the round is reported
  done while another thread is inside. A stack that cannot be saved ends the scan with the probes disabled, and
  the round is reported done at once.
- The binary search misses an address exactly when an earlier span reaches past the end of a later one and the
  next span does not start there. Of 65 to 128 spans only a first part, at least half of them, is ever found; more
  than 128 switch the check off. Of a stack at most three callers
  are looked at.
- A per-task verdict survives an epoch bump until the task's next guard. A bump that cannot read the current
  epoch sets it to 1, which makes the verdicts of epoch 1 current again.
- The macro `BPF_JG` is wrong when SF and OF are both set and ZF is clear; the flags set by the emulation are
  right by the hardware's condition codes.
- The executor does not recognise `sub`, `shl` and `imul` printed without a size suffix, and records `and`, `or`
  and `xor` in one of its two states only.
- The tolerance of the line fit is exact up to a spacing of 1000 and loose at every wider one.
- The generated C evaluates a 32-bit chain in 64 bits. Without a leak the probed block is right; where a leak
  would show it is right only then. A block `shl $V,%r; shr $k,%r` is probed wrongly at every value, its own
  included, for exactly the registers of which the left shift drops a bit that the right shift fetches back.
- The simple helper is right for `mov` seeds, and for `or` with all ones, only.
- A basic block is returned for a terminator, but not the one that contains it.
- The adversarial order is a permutation exactly when the stride factor divides the number of requests, and
  picks past the end of the list exactly when the remainder is two or more.

## Model

| member | source | states |
|---|---|---|
| Consistency.SpanMajorIsFrameMajor | kernel/consistency/core.c:158-170 | the nested loops over spans and stack entries count every (frame, span) pair once, as a count frame by frame does |
| Consistency.ScanTasksMeaning | kernel/consistency/core.c:203-217 | the scan reaches its end exactly when every stack was saved, and then it has added exactly the number of pairs and waits exactly when there is one |
| Consistency.ConsistencyModule.RecordEndTime | kernel/consistency/core.c:76-79 | a recorded end time is not overwritten; the rest of the state is unchanged |
| Consistency.ConsistencyModule.RefcountIncNotZero | kernel/consistency/core.c:70 | increments unless zero, and reports which |
| Consistency.ConsistencyModule.RefcountDecIfPositive | kernel/consistency/core.c:72 | never stores a negative count, and returns the decremented value |
| Consistency.ConsistencyModule.HandlerGuard | kernel/consistency/kprobe.c:37-46 | the whole new module state after a guard |
| Consistency.ConsistencyModule.HandlerUnguard | kernel/consistency/kprobe.c:52-61 | the whole new module state after an unguard |
| Consistency.ConsistencyModule.AttachAuxKprobes | kernel/consistency/kprobe.c:87-118 | count reset, probes disabled, and per span exactly the registrations that succeeded are recorded |
| Consistency.ConsistencyModule.DetachAuxKprobes | kernel/consistency/kprobe.c:120-138 | no probe of any span is left registered |
| Consistency.ConsistencyModule.CheckTaskInSpans | kernel/consistency/core.c:151-176 | the count grows by the number of (frame, span) pairs of the stack; found exactly when there is one |
| Consistency.ConsistencyModule.StopMachineCheckStacks | kernel/consistency/core.c:197-221 | the whole new state after the scan, including the early return at a stack that was not saved |
| Consistency.ConsistencyModule.SettleRound | kernel/consistency/core.c:445-489 | the instant verdict with its timing record, or the start of the wait, for both rounds |
| Consistency.ConsistencyModule.DaemonWake | kernel/consistency/core.c:334-407 | the whole new state after one turn of the daemon, and the timing record it writes on success and on a time-out; `NapLimit` says what poll limit it naps with |
| Consistency.NapLimit | kernel/consistency/core.c:343 | the limit n with which the daemon naps is the number of whole poll intervals, each of p >= 1 milliseconds, in the time-out: n * p <= 1000 * timeout < (n + 1) * p |
| Consistency.ZeroIsTimed | kernel/consistency/kprobe.c:37-61 | a handler that finds the count at zero, or brings it there, leaves an end time behind, the earlier one if there is one |
| Consistency.SpanBounds | kernel/consistency/core.h:59-66 | the bounds of a span are 64-bit sums that wrap around |
| Protocol.QuiescentIsEmpty | kernel/consistency/core.c:148-149 | occupancy zero means that no activation of any thread is inside any span, and conversely |
| Protocol.FrameCount | kernel/consistency/core.h:59-66 | how many spans the scan finds a frame in: those it is inside, plus those it is about to enter, minus those it is about to leave |
| Protocol.WholeScanCount | kernel/consistency/core.c:151-221 | a scan of whole stacks counts the occupancy plus the imbalance of the frames that stand on probes, for any number of threads and any recursion depth |
| Protocol.SavedWholeExact | kernel/consistency/core.h:19 | stacks are saved whole exactly where they have at most 100 frames and were saved at all |
| Protocol.Balanced | kernel/consistency/core.c:151-176 | with no frame on an unexecuted probe the imbalance is zero |
| Protocol.PlacedStep | kernel/consistency/kprobe.c:65-85 | every step keeps frames and spans consistent |
| Protocol.OccupancyStep | kernel/consistency/kprobe.c:37-61 | only crossing a probe changes the occupancy, by one |
| Rounds.KeptAlways | kernel/consistency/core.c:334-493 | the invariant of every reachable state: count never negative, state word matches the phase of the module's life, end time set exactly when a live round's count is zero |
| Rounds.StateOrderStep | kernel/consistency/core.c:380-400 | the state word changes only forward, then reverse |
| Rounds.FailedIsFinal | kernel/consistency/core.c:467-493 | after a forward time-out there is no reverse round |
| Rounds.ZeroAbsorbs | kernel/consistency/kprobe.c:37-61 | within a round zero stays zero, and a recorded end time stays until the daemon clears it |
| Rounds.RunCounts | kernel/consistency/kprobe.c:37-61 | a probe crossing keeps count and occupancy in step, and the one that brings the count to zero records its time as the end time |
| Rounds.CountWithinRound | kernel/consistency/core.c:197-387 | from the scan on, for every interleaving, the count is the occupancy plus the drift until it first reaches zero, and at that moment minus-drift pairs are inside |
| Rounds.LastScan | kernel/consistency/core.c:442-475 | in every state past the attach phase some scan's round is the current one |
| Rounds.DriftIsImbalance | kernel/consistency/core.c:151-221 | the drift of a whole scan is the imbalance of the frames that stand on probes |
| Rounds.DoneMeansQuiescent | kernel/consistency/core.c:334-489 | whenever a round is reported done, forward or reverse, polled or instant, no activation was inside any span in the state of that round, at or after its scan, in which the count first was zero |
| Rounds.ZeroWhenDone | kernel/consistency/core.c:354-381 | a completely scanned round is reported done only with count zero |
| Rounds.CountIsOccupancy | kernel/consistency/core.c:151-221 | after a clean scan with all probes registered the count equals the occupancy until it reaches zero |
| Rounds.VerdictIsDrift | kernel/consistency/core.c:353-387 | with all probes registered exactly minus-drift pairs are inside in the state in which the count first was zero: the spans are empty then exactly when the drift is zero |
| Rounds.InstantVerdict | kernel/consistency/core.c:445-489 | a round is reported done at once exactly when its scan was cut short by an unsaved stack or found nothing, wherever the threads are |
| Rounds.ReportsAreSound | kernel/consistency/core.c:361-396 | a turn of the daemon writes a timing record exactly when it ends the round; a success has the round's start and end and the whole microseconds between them, a time-out is marked by end 0 and elapsed -1; direction as in the state word |
| Rounds.TimingIsExact | kernel/consistency/core.c:361-372 | over any run the start written is the time of the round's scan, and the end of a success is the time at which the count first was zero |
| Rounds.WaitingIsBounded | kernel/consistency/core.c:342-402 | with fixed parameters, and n the number of whole poll intervals in the time-out, a round survives at most n + 1 polls that find the count nonzero |
| Rounds.TimeoutIsExact | kernel/consistency/core.c:384-402 | a poll of a waiting round times out exactly when n + 1 polls before it found the round waiting: neither later nor earlier |
| Rounds.OnlyPollsTimeOut | kernel/consistency/core.c:388-400 | no step but a poll of a waiting round gives a round up |
| Rounds.PausedAtExitEndsEarly | kernel/consistency/core.h:64-65 | a run in which a frame on `eoff` makes the round end while another thread is inside |
| Rounds.UnsavedStackEndsAtOnce | kernel/consistency/core.c:204-206 | a run in which an unsaved stack makes the round end at once |
| SpanSearch.BsContext.BsFn | bpf/xkernel.bpf.h:147-187 | one step of the search, with its 32-bit index arithmetic, and whether the loop goes on |
| SpanSearch.BsContext.BpfLoop | bpf/xkernel.bpf.h:213 | at most 128 steps, stopping at the first that asks for it |
| SpanSearch.CheckStackSafe | bpf/xkernel.bpf.h:189-224 | safe exactly when the stack was read and no entry i with 1 <= i < 32 and 8 * (i + 1) <= the bytes returned is a hit |
| SpanSearch.SearchInvariant | bpf/xkernel.bpf.h:147-187 | the search ends by itself within its steps, keeping its invariant through the wrap of `mid - 1` |
| SpanSearch.SearchFinds | bpf/xkernel.bpf.h:131-135 | the search finds the last span that starts at or before the address, with its index and both its ends, for 1 to 64 sorted spans |
| SpanSearch.HitIsInside | bpf/xkernel.bpf.h:131-135 | without a hole in the table a hit means that some span contains the address, and conversely |
| SpanSearch.HoleIsMissed | bpf/xkernel.bpf.h:131-135 | with a hole, an address that is inside a span and missed |
| SpanSearch.SearchIsExact | bpf/xkernel.bpf.h:131-135 | the search agrees with a linear scan on all addresses exactly when the table has no hole |
| SpanSearch.DisjointHasNoHole | src/loader.py:978 | sorted, pairwise disjoint spans leave no hole |
| SpanSearch.StackSafeIsLinear | bpf/xkernel.bpf.h:189-224 | for sorted spans without a hole, disjoint ones in particular, the verdict is true exactly when a linear scan finds no returned entry i, 1 <= i < 32, in any closed span |
| SpanSearch.OnlyThreeCallersDecide | bpf/xkernel.bpf.h:192-204 | with the 32 bytes that are asked for, entries 1 to 3 alone decide |
| SpanSearch.LongTableIsCut | bpf/xkernel.bpf.h:147-187 | a table of 65 to 128 spans is searched as if it held its first `Cut` spans, at least half of its length |
| SpanSearch.LongTableIsExact | bpf/xkernel.bpf.h:53-66 | so the search agrees with a linear scan of those spans on all addresses exactly when they have no hole |
| SpanSearch.TooManySpansAreIgnored | bpf/xkernel.bpf.h:152-154 | with more than 128 spans every stack is called safe |
| PerTask.PerTaskRuntime.PerTaskTransitionHandler | bpf/xkernel.bpf.h:226-262 | the whole new set of records after a guard; `GuardDecides` says what it decides |
| PerTask.GuardDecides | bpf/xkernel.bpf.h:198-262 | a task done in this epoch keeps its record; otherwise it is done exactly if no scanned caller hits one of the safe spans, or, only when there are none, one of the critical spans |
| PerTask.PerTaskRuntime.IsTransitionDone | bpf/xkernel.bpf.h:326-345 | active, recorded and flagged |
| PerTask.DoneHasSafeGuard | bpf/xkernel.bpf.h:242-257 | a set flag was set by an earlier guard of the same task, in the epoch stored beside it, that found its stack safe |
| PerTask.EndIsVerdict | bpf/xkernel.bpf.h:256-260 | the end time of a task that is done is the time of the guard that found its stack safe |
| PerTask.NoEndBeforeDone | bpf/xkernel.bpf.h:242-260 | a task that is not done has no end time |
| PerTask.TablesStay | src/loader.py:865-915 | both span tables of a loaded constant, and their lengths, stay |
| PerTask.EpochGrows | src/loader.py:887-915 | the epoch never goes back as long as every bump could read it |
| PerTask.BumpAdvancesExactly | src/loader.py:892-915 | a bump advances the epoch, by one, exactly when it could read it, or there was nothing to read yet; otherwise the epoch becomes 1 |
| PerTask.LastEpochStays | src/loader.py:745 | the largest 32-bit epoch is not advanced |
| PerTask.UnreadableDumpRevivesVerdicts | src/loader.py:892-915 | otherwise verdicts of epoch 1 count again and the next guards do not look at the stack |
| PerTask.TransitionDoneIsSafe | bpf/xkernel.bpf.h:198-224 | over any run: done implies active, and an earlier guard of that task in its record's epoch found all scanned callers outside the loaded safe spans, or, when none are loaded, outside the critical spans |
| PerTask.TransitionDoneExactly | bpf/xkernel.bpf.h:326-345 | over any run in which every bump could read the epoch: done exactly when active and the task passed a guard safely in its record's epoch |
| PerTask.ActiveIsLastSwitch | bpf/xkernel.bpf.h:327-330 | active is what the last activation or deactivation made it |
| PerTask.FlagClearedOnlyByGuard | bpf/xkernel.bpf.h:242-247 | only the task's own guard clears the flag, and only after the epoch has moved |
| PerTask.RecordEpochGrows | bpf/xkernel.bpf.h:241-247 | after a safe guard the record's epoch is at least that guard's |
| PerTask.StaleVerdicts | src/loader.py:865-877 | a bump leaves verdicts standing; if every bump could read the epoch, a verdict is of the current epoch exactly when the task passed a guard safely in it |
| Flags.CmpSetFlags | bpf/util.bpf.h:316-351 | afterwards all ten condition codes answer as the unsigned or signed comparison, for all operands of 32 or 64 bits, and all other flag bits are unchanged |
| Flags.BitPositions | bpf/util.bpf.h:215-223 | CF, ZF, SF and OF are bits 0, 6, 7 and 11 |
| Flags.OtherBitsExact | bpf/util.bpf.h:319 | the preserved bits are all the others |
| Flags.OverflowMeaning | bpf/util.bpf.h:328-330 | the exclusive-or formula is true exactly when the signed difference is out of range |
| Flags.CmpIsFaithful | bpf/util.bpf.h:321-330 | the four computed flags answer every condition code as the comparison does |
| Flags.BpfJgExact | bpf/util.bpf.h:294-295 | the macro agrees with the hardware's condition G except exactly when SF and OF are set and ZF is clear |
| SymExec.DispatchExact | src/codegen.py:209-211 | what is left after the suffix is stripped names the operation exactly for the recognised instructions, and never another operation |
| SymExec.SymbolicExecutor.GetAnonymousReg | src/codegen.py:85-101 | names are given once, in order of first use |
| SymExec.SymbolicExecutor.Update | src/codegen.py:213-546 | the new expressions of the destination in both states; nothing else changes |
| SymExec.SymbolicExecutor.ExecuteInstruction | src/codegen.py:201-546 | the whole new state of the executor, unrecognised instructions included |
| SymExec.RunSymbolicExec | src/codegen.py:766-804 | the states recorded after each instruction, and the final names |
| SymSound.NamesKept | src/codegen.py:85-101 | different registers have different names below the counter |
| SymSound.NamesGrow | src/codegen.py:85-101 | names once given stay |
| SymSound.SymExecSound | src/codegen.py:201-546 | after every supported prefix of the code, whatever follows, and for every initial register file, each recorded expression has the low w bits that the processor computes |
| SymSound.UnnamedUntouched | src/codegen.py:85-101 | registers without a name are not touched by the code |
| SymSound.ShiftIsScale | src/codegen.py:201-546 | a shift by a constant below the width is a product or quotient by a power of two in w-bit arithmetic |
| SymSound.AltVersionAgrees | src/codegen.py:201-546 | on mov, add, sub, imul and shifts, by a constant below the width or by a register, the multiplication and division state has the same values |
| SymSound.AltHasNoShift | src/codegen.py:201-546 | on such lists with shifts by constants only, no expression of the multiplication and division state contains a shift |
| SymSound.AndIsNotInAlt | src/codegen.py:201-546 | after an `and` it may have another value |
| SymSound.BitwiseKeepsAlt | src/codegen.py:315-378 | `and`, `or` and `xor` leave the multiplication and division state as it was, in every state |
| SymSound.SourceIsNamedFirst | src/codegen.py:195-199 | of two new operands the source gets the next name and the destination the one after it |
| SymSound.UnsuffixedSubIsMissed | src/codegen.py:211 | after an unsuffixed `sub` the recorded expression is wrong |
| LinearFit.LineFound | src/codegen.py:1510-1568 | for any spacing, exactly when the tolerance accepts three points |
| LinearFit.LineIsExact | src/codegen.py:1510-1568 | with 0 < distance of V1 and V2 <= 1000 a line is returned exactly when the points are collinear |
| LinearFit.WideSpacingIsLoose | src/codegen.py:1510-1568 | at every wider spacing points off any common line are accepted |
| LinearFit.SpacingExact | src/codegen.py:1510-1568 | the tolerance accepts exactly the collinear points exactly when V1 and V2 are at most 1000 apart |
| LinearFit.OnLineIsFitted | src/codegen.py:1510-1582 | points on a line with integer coefficients are fitted and printed as that line at any spacing |
| LinearFit.TruncIsExact | src/codegen.py:1571-1582 | the truncation test accepts a quotient exactly when it is an integer |
| LinearFit.IntegralIsExact | src/codegen.py:1571-1582 | the integer form is printed exactly when a line with integer coefficients goes through the three points, and it maps every V_i to IV_i |
| LinearFit.DecimalIsTheLine | src/codegen.py:1571-1582 | the decimal form is a line exactly through the first two points and within 0.001 of the third |
| IvSearch.ExtractExact | src/codegen.py:1375-1442 | a varying triple is returned exactly when the three expressions are one context around it; equal numbers only for three equal plain numbers |
| IvSearch.TryRegister | src/codegen.py:1480-1505 | one register at one step is accepted exactly when it varies in one number and the numbers fit a line |
| IvSearch.FindIv | src/codegen.py:1445-1507 | the first hit by step and then by register order, and none exactly when there is none |
| Synthesis.HitIsWritten | src/codegen.py:2681-2695 | the first hit is at an instruction whose destination is the register that varies |
| Synthesis.HitIsChain | src/codegen.py:2758-2783 | a hit with the effective end of its register is a chain |
| Synthesis.Compose | src/codegen.py:2788-2812 | there is an expression for the apply helper exactly when the register is present in all three builds and its values at the effective end have one shape around the value before the seed, which occurs, and their numbers, one at least, are constant or fit lines; it is then the merge of the three |
| Synthesis.Synthesize | src/codegen.py:2676-2819 | from three builds: nothing comes out exactly when no register carries an instruction value at any step, or the first hit's seed is a recognised shr, shl, imul or and whose value at the effective end cannot be recomputed; the save and apply form comes out exactly for those four operations |
| Synthesis.IrreversibleByName | src/codegen.py:2715-2728 | the operations that destroy their operand, by the mnemonic without its size letter |
| Synthesis.HitIsPresent | src/codegen.py:2798-2800 | at the effective end the hit's register is present in every build |
| Synthesis.OutcomeIsFaithful | src/codegen.py:2676-2819 | if a save and an apply helper come out, then at every value without a leak the first build run with them computes what the build that follows the fit computes |
| Synthesis.MovHit | src/codegen.py:1445-1507 | a hit at a `mov` of an immediate is the immediate |
| Synthesis.SimpleOutcomeIsFaithful | src/codegen.py:3266-3274 | if the simple helper comes out for a `mov` seed, the block run with it agrees at every value with the build that follows the fit |
| Compound.NumberCorrect | src/codegen.py:1660-1672 | a literal or formula has the i-th number for the i-th source value |
| Compound.MergeExact | src/codegen.py:1634-1670 | three expressions merge exactly when they have one shape around the saved expression and every number outside it is constant or fits a line |
| Compound.CompoundExact | src/codegen.py:1631-1670 | there is a compound expression exactly when, besides, the saved expression occurs and a number is left outside it |
| Compound.MergeInstance | src/codegen.py:1631-1675 | merging three expressions and putting the i-th source value back gives the i-th expression |
| Compound.InstanceValue | src/codegen.py:1585-1677 | the template with the value of the saved expression and `val` has the value of the expression with `val` put in |
| Compound.MergeCorrect | src/codegen.py:1585-1677 | with the saved value and the i-th source value the compound expression has the value of the i-th expression, in every environment |
| Leaks.ShiftExact | src/codegen.py:3220-3229 | for a count of at most w, shifting right and truncating to w bits commute exactly when the bits shifted into the word are zero |
| Leaks.NoLeakIsRight | src/codegen.py:1669-1675 | for every expression, saved value and new value without a leak the low w bits of the 64-bit C value are the template's value |
| Leaks.ShiftShows | src/codegen.py:1669-1675 | a right shift of values that do not leak is right exactly when no bit comes down |
| Leaks.LeakExact | src/codegen.py:1669-1675 | below sums, differences and exclusive ors too: where a leak shows, the C value is right exactly when there is none |
| Leaks.FormSuffices | src/codegen.py:1669-1675 | an expression whose right shifts, divisions and shift counts see fitting values only leaks at no value; this can be read off the text |
| Probes.EffectiveEnd | src/codegen.py:2762-2783 | the maximal chain of steps that still vary and change the register |
| Probes.ExtendsExact | src/codegen.py:2766-2783 | a step continues the chain exactly when the three values still differ and the first is not that of the step before |
| Probes.ShapesNameAlike | src/codegen.py:85-101 | builds that differ in immediates only give their registers the same names |
| Probes.SeedWritesTarget | src/codegen.py:2758-2783 | the seed writes the target in every build |
| Probes.ChainWritesTarget | src/codegen.py:2766-2783 | so does every later step of the chain |
| Probes.AppliedValue | src/codegen.py:3220-3229 | without a leak the apply helper writes the low w bits that the build for its value has in the target at the effective end |
| Probes.AppliedExact | src/codegen.py:3220-3229 | where a leak would show, it does so exactly without one |
| Probes.ChainExact | src/codegen.py:3220-3297 | and on leaving the chain all registers agree exactly without one |
| Probes.AroundTheChain | src/codegen.py:2758-2819 | overwriting the target after the chain with its right value makes the whole block right |
| Probes.BuildIsMatched | src/codegen.py:3220-3297 | without a leak the first build run with the save and apply probes leaves every register with the low w bits of a build for the value |
| Probes.ObservedBuild | src/codegen.py:1585-1677 | each of the three builds is a build for its value |
| Probes.ProbedBlockIsFaithful | src/codegen.py:3220-3297 | for each of the three values, if nothing leaks, the first build run with the save and apply probes leaves every register with the low w bits of the build compiled for that value |
| Probes.AnyPlacementWillDo | src/codegen.py:2821-2836 | the probed block computes the same wherever in the unspoilt attachment window the apply probe stands |
| Tuned.MergeFollows | src/codegen.py:1660-1675 | an expression whose numbers are those the fit predicts is the compound expression with the value put in |
| Tuned.RunFollows | src/codegen.py:766-804 | symbolic execution of builds whose immediates follow the fit gives expressions that follow it, after every prefix |
| Tuned.FollowingIsBuild | src/codegen.py:1585-1677 | a build that follows the fit is a build for its value |
| Tuned.ObservedFollow | src/codegen.py:1510-1582 | the three observed builds follow the fit at their own values |
| Tuned.TunedBlockIsFaithful | src/codegen.py:3220-3297 | at every value without a leak the first build run with the two probes leaves every register with the low w bits of the build that follows the fit at that value |
| Tuned.TunedExact | src/codegen.py:3220-3297 | where a leak would show, the registers on leaving the chain agree exactly at the values without one |
| Tuned.TunedAtAnyCandidate | src/codegen.py:2821-2836 | the same with the apply probe at any candidate of the attachment window that no earlier instruction spoils |
| Seeds.ShiftChain | src/codegen.py:2710-2727 | three shift seeds with different counts make a chain of one step |
| Seeds.ShiftCompound | src/codegen.py:1585-1677 | the compound expression of a shift seed is the saved value shifted by `val` |
| Seeds.ShiftSeedExact | src/codegen.py:2710-2819 | for every register file and every new count below 32, a shift seed run with the two probes computes what the shift rebuilt with that count computes exactly when no bit of the upper half is shifted into the word |
| Seeds.ShiftSeedIsTuned | src/codegen.py:2710-2819 | so it does for every register whose upper half is clear |
| Seeds.ChoiceChain | src/codegen.py:2758-2783 | for `and $-V; add $2V` the chain is both instructions |
| Seeds.ChoiceCompound | src/codegen.py:1585-1677 | and the compound expression is `(saved & (2^32 - val)) + 2*val`, as the immediate -V is printed as a word |
| Seeds.ChoiceValues | src/codegen.py:3196-3219 | for that expression the two saved values give 2V and V |
| Seeds.ChoiceIsTelling | src/codegen.py:3196-3219 | so the inference is right exactly when 0 < V < 2^31 |
| Seeds.ChoiceIsTuned | src/codegen.py:3196-3219 | for every such V and every new value the block run with the apply helper alone computes what the block rebuilt for the new value computes |
| Overflow.FieldChain | src/codegen.py:2758-2783 | for `shl $V; shr $k` the chain is both instructions |
| Overflow.FieldCompound | src/codegen.py:1585-1677 | and the compound expression is `((*saved) << val) >> k` |
| Overflow.FieldExact | src/codegen.py:3220-3297 | for every register file and every new value the probed block is right exactly when the k bits above the word are zero before the right shift |
| Overflow.FieldFailsAtItsOwnValue | src/codegen.py:3220-3297 | at its own value 1 and the register 2^31 the block leaves 0, the helper writes 2^(32-k), and the probed block is wrong |
| Helpers.SimpleHelperExact | src/codegen.py:3266-3274 | writing the immediate is the seed's result for all register contents exactly for `mov`, and for `or` with all ones |
| Helpers.SimpleBlockIsFaithful | src/codegen.py:3266-3274 | in those cases the block run with the helper agrees with the rebuilt block in every register |
| Helpers.CmpHelperIsFaithful | src/codegen.py:3252-3264 | the flags set for a fitted immediate answer every condition code as the i-th build's comparison |
| Helpers.InferenceExact | src/codegen.py:3197-3216 | if nothing leaks at V1: for both saved values and at every new value without a leak the saved value is inferred right and the written low 32 bits are the template's, exactly when the compound value at V1 is above V1 for 0 and at most V1 for all ones |
| Helpers.InferredIsSaved | src/codegen.py:3197-3216 | at the end of the chain the register of the first build tells what was saved |
| Helpers.SbbBlockIsFaithful | src/codegen.py:3196-3219 | in that case, at every new value without a leak, the first build run with the apply probe alone agrees in the low 32 bits of every register with the build that follows the fit |
| Helpers.InferredAtAnyCandidate | src/codegen.py:2821-2836 | and the probe may stand at any unspoilt candidate of the attachment window |
| Window.CandidateOffsets | src/codegen.py:2825-2836 | the candidates are all positions up to and including the first reader |
| Window.ReadsExact | src/codegen.py:4276-4368 | the readers are the instructions that mention the register, except moves that only overwrite it |
| Window.CandidateExact | src/codegen.py:2825-2836 | a position is a candidate exactly when no earlier instruction of the window reads the register |
| Window.CarriedOrLost | src/codegen.py:4276-4368 | code that does not read a register carries its value through, or loses it at the first write |
| Window.WindowExact | src/codegen.py:2821-2836 | overwriting before the first candidate and before candidate j give the same registers there, for all values, exactly when no earlier instruction of the window writes the target |
| Window.AnyCandidateWillDo | src/codegen.py:2821-2836 | in that case the registers after the block are the same, first reader included |
| Window.UnwrittenIsKept | src/codegen.py:4276-4368 | code that does not write a register keeps it |
| DiffFilter.Collect | src/diff.py:494-528 | the ascending positions of the removed and of the added instructions; every other line is kept |
| DiffFilter.MatchAll | src/diff.py:530-549 | the greedy matching pairs the first lines of a signature on both sides |
| DiffFilter.HasKeptChanges | src/diff.py:557-571 | whether a removed, added or unsigned line survives before the next hunk or file header |
| DiffFilter.FilterAddressOffsetDiff | src/diff.py:484-580 | the output is the input without the cancelled lines and without the headers of hunks that keep no change; `DiffLaws.ResultExact` says which lines those are |
| DiffLaws.ResultExact | src/diff.py:555-580 | the lines of the output, in order: every context line, file header and unsigned line, every instruction that survives, and a hunk header exactly when a removed, added or unsigned line survives before the next header |
| DiffLaws.SurvivorsAreTheExcess | src/diff.py:530-554 | per signature the survivors are the one-sided excess |
| DiffLaws.SurvivorsAreLast | src/diff.py:530-549 | and they are the last lines of the signature on their side |
| DiffLaws.PlainLinesStay | src/diff.py:501-505 | all other lines stay, in order |
| DiffLaws.HunkKeepsItsChange | src/diff.py:557-575 | every hunk header of the output is followed by a removed, added or unsigned line before the next hunk or file header |
| DiffLaws.FilterIsIdempotent | src/diff.py:484-580 | filtering twice is filtering once |
| BasicBlock.FindTarget | src/diff.py:976-989 | the position of the address, unless a higher address comes first |
| BasicBlock.FindStart | src/diff.py:1003-1025 | where the walk back ends, and when it fails |
| BasicBlock.FindEnd | src/diff.py:1027-1045 | where the walk forward ends |
| BasicBlock.FindBasicBlock | src/diff.py:922-1053 | the result is a contiguous, maximal block, and holds the target exactly when the target is an entry or no terminator and the walk back does not stop at an entry that is a terminator |
| BasicBlock.BlocksPartition | src/diff.py:1003-1045 | blocks are equal or disjoint |
| BasicBlock.BlockShape | src/diff.py:828-856 | an entry comes only first and a terminator only last |
| BasicBlock.TerminatorExact | src/diff.py:828-856 | the terminators are the mnemonics that start with j, `call`, `ret`, `retq` and `retn` |
| BasicBlock.OrdinaryTargetsAreCovered | src/diff.py:922-1053 | with ascending addresses and no entry that is a terminator, every address that is no terminator is in its block |
| BasicBlock.AnswersPartition | src/diff.py:922-1053 | two answers that hold their targets are the same or share no position |
| Stride.Picks | ae/Figure1/gen_iolog.py:49 | the reordering, and exactly when it indexes past the list |
| Stride.RegionOffsets | ae/Figure1/gen_iolog.py:42-49 | the offsets of a region, and failure exactly when the remainder by the factor is two or more |
| Stride.FactorExact | ae/Figure1/gen_iolog.py:47 | the factor is the number of whole groups of 32 requests, and 1 if there is none |
| Stride.DividingIsPermutation | ae/Figure1/gen_iolog.py:43-49 | a factor that divides the number of requests gives a permutation |
| Stride.OneIsMissed | ae/Figure1/gen_iolog.py:43-49 | one that does not never picks position 1 |
| Stride.PermutationExact | ae/Figure1/gen_iolog.py:43-49 | the order is a permutation exactly when the factor divides the number of requests |
| Stride.RunsAreSpread | ae/Figure1/gen_iolog.py:43-49 | within a run of n/k picks the positions go up by k, so for k >= 2 no two are adjacent |
| Stride.RunsOffExact | ae/Figure1/gen_iolog.py:49 | the picks run off the list exactly when the remainder is two or more |

## Left out

- Rounds.DoneMeansQuiescent: a turn of the daemon and each probe handler is one atomic step, so a guard that falls between the daemon's reset of the end time and its removal of the probes, or an end time read before it is recorded, is not modelled.
- PerTask.EpochGrows: a map dump that cannot be read is an event without a cause; the 32-bit limit of the epoch is modelled as the refusal to pack a larger value.
- Rounds.WaitingIsBounded: says nothing about when the daemon is woken.
- Rounds.KeptAlways: the count is an unbounded integer, and the product in `max_polls` does not overflow.
- PerTask.EndIsVerdict: the start and end times are those of a build with `MEASURE_TRANSITION_TIME`; without it both stay zero.
- SpanSearch.DisjointHasNoHole: that the loader's list is sorted is a hypothesis, as Python's `sort` is not modelled; reading and parsing span files is left out.
- SymSound.SymExecSound: memory operands, `lea`, `cmov`, `sbb`, sign and zero extensions, one-operand shifts and the FLAGS entry of the executor are left out, as the executor approximates or mishandles them; immediates are natural numbers.
- LinearFit.LineIsExact: floating-point numbers are reals, so rounding is not covered.
- Compound.MergeCorrect: the text replacement of the saved expression is a replacement of subtrees; a saved expression that is a bare number, which the text replacement would also find inside longer numbers, is replaced only where it is a whole literal.
- Helpers.SbbBlockIsFaithful: `sbb` itself is outside the modelled instructions; that it leaves zero or all ones in the register is a hypothesis.
- Leaks.LeakExact: above a leaking right shift an operation that can hide bits, such as a mask or a further shift, may make the value right all the same; there the absence of a leak is sufficient only.
- Leaks.NoLeakIsRight: every C operand is taken as an unsigned 64-bit number; integer promotion of narrower operands and the decimal form of `build_expr` are not covered.
- Synthesis.Synthesize: the memory-store and comparison paths of the analysis are not joined here; the comparison helper is covered by itself.
- Synthesis.IrreversibleByName: `sar`, `sal` and `mul`, which the program lists too, are not operations of the model.
- IvSearch.FindIv: the order in which register names are sorted is a parameter.
- Window.CandidateOffsets: calls, branches, `lea` and memory operands do not occur in the modelled windows; lines without an address are left out.
- BasicBlock.FindBasicBlock: the range of one function is a parameter; recognising entries and mnemonics in the text of the disassembly is left out.
- Lock-free statistics of the per-task transition: minimum and maximum are approximations by design and no law holds.
- Userspace activation, which follows even a time-out (src/cli.py:932-935), is outside the global rounds.
- Subprocesses, bpftool, module loading, `/proc` and shared-memory files, tables on disk, argument handling, plotting and demos: input and output.
- Parsing of disassembly text and printing of C text: instructions, signatures and expressions are data types.
- Jump-optimisation probing, insertion-point search and the legacy solver: easy, external or unused.
