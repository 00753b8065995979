/** Whole runs of the global transition protocol.

    A round starts with a scan.  Its `Drift` is what the scan counted too much (or, if negative, too
    little).  Until the count reaches zero it stays exactly `Drift` away from the number of activations
    inside spans, so when it first is zero the spans are empty exactly when the drift is zero. */
module Rounds {
  import opened Wrappers
  import opened Consistency
  import opened Protocol

  /** A history: `states[i + 1]` follows from `states[i]` by `steps[i]`. */
  datatype History = History(states: seq<System>, steps: seq<Step>)

  ghost predicate ValidHistory(r: History) {
    && |r.states| == |r.steps| + 1
    && IsInit(r.states[0])
    && forall i :: 0 <= i < |r.steps| ==> Follows(r, i)
  }

  ghost predicate Follows(r: History, i: nat)
    requires i < |r.steps| && |r.states| == |r.steps| + 1
  {
    CanStep(r.states[i], r.steps[i]) && r.states[i + 1] == Next(r.states[i], r.steps[i])
  }

  ghost function Drift(sys: System): int {
    sys.mod.refcount - Occupancy(sys.threads)
  }

  ghost predicate AllGuards(sys: System) {
    forall s :: 0 <= s < |sys.mod.probes| ==> sys.mod.probes[s].guard
  }

  ghost predicate AllUnguards(sys: System) {
    forall s :: 0 <= s < |sys.mod.probes| ==> sys.mod.probes[s].unguard
  }

  /** The scan whose verdict is still open at state i is step k. */
  ghost predicate RoundOf(r: History, k: nat, i: nat) {
    && |r.states| == |r.steps| + 1
    && k < i < |r.states|
    && r.steps[k].event.Scan?
    && forall m :: k < m < i ==> !r.steps[m].event.Attach? && !r.steps[m].event.Scan?
  }

  // ---------------------------------------------------------------- the module's own invariant

  /** The handlers count: a round has been scanned, its probes are enabled and it has not ended. */
  ghost predicate Live(sys: System) {
    sys.mod.enabled && (sys.phase.Scanned? || (sys.phase.Started? && !Terminal(sys.mod.state)))
  }

  ghost predicate PhaseMatches(phase: Phase, m: Module) {
    match phase
    case Loaded => m.state == Pending && !m.enabled && m.refcount == 0 && m.tEnd == 0
    case Attached(reverse) =>
      m.state == (if reverse then Done else Pending) && !m.enabled && m.refcount == 0 && m.tEnd == 0
    case Scanned(reverse) => m.state == (if reverse then Done else Pending) && (!m.enabled ==> m.tEnd == 0)
    case Started(reverse) =>
      && m.state in (if reverse then {ReversePending, ReverseDone, ReverseFailed} else {Pending, Done, Failed})
      && (m.state in {Pending, ReversePending} ==> m.enabled)
      && (m.state == Done ==> m.tEnd == 0)
    case Unloaded => m.state in {Failed, ReverseDone, ReverseFailed}
  }

  /** What holds of the module's state in every reachable state. */
  ghost predicate Kept(sys: System) {
    var m := sys.mod;
    && Placed(sys)
    && PhaseMatches(sys.phase, m)
    && 0 <= m.refcount
    && m.tStart <= sys.clock && m.tEnd <= sys.clock
    && 0 <= m.pollCount
    && (m.nap.Some? ==> sys.phase.Started? && !Terminal(m.state))
    && (m.nap.None? ==> m.pollCount == 0)
    && (Live(sys) ==> m.tStart > 0 && (if m.refcount == 0 then m.tStart <= m.tEnd else m.tEnd == 0))
    && (!Live(sys) && !sys.phase.Attached? && m.enabled ==> m.probes == NoProbes(|m.probes|))
  }

  /** A handler that may run outside a live round changes nothing. */
  lemma IdleHandlers(sys: System, act: Action, now: nat)
    requires Kept(sys) && !Live(sys)
    ensures ModAfter(sys.mod, act, now) == sys.mod
  {
  }

  lemma KeptRunStep(sys: System, step: Step)
    requires Kept(sys) && CanStep(sys, step) && step.event.Run?
    ensures Kept(Next(sys, step)) && (Live(sys) <==> Live(Next(sys, step)))
  {
    PlacedStep(sys, step);
    if !Live(sys) {
      IdleHandlers(sys, step.event.act, step.now);
    }
  }

  lemma KeptPollStep(sys: System, step: Step)
    requires Kept(sys) && CanStep(sys, step) && step.event.Poll?
    ensures Kept(Next(sys, step))
  {
    PlacedStep(sys, step);
  }

  lemma KeptScanStep(sys: System, step: Step)
    requires Kept(sys) && CanStep(sys, step) && step.event.Scan?
    ensures Kept(Next(sys, step))
  {
    PlacedStep(sys, step);
    ScanTasksMeaning(sys.spans, step.event.tasks, 0, false);
  }

  lemma KeptRoundStep(sys: System, step: Step)
    requires Kept(sys) && CanStep(sys, step) && (step.event.Attach? || step.event.Settle?)
    ensures Kept(Next(sys, step))
  {
    PlacedStep(sys, step);
  }

  lemma KeptStep(sys: System, step: Step)
    requires Kept(sys) && CanStep(sys, step)
    ensures Kept(Next(sys, step))
  {
    match step.event
    case Run(_, _) => KeptRunStep(sys, step);
    case Scan(_) => KeptScanStep(sys, step);
    case Poll(_, _) => KeptPollStep(sys, step);
    case Attach(_) => KeptRoundStep(sys, step);
    case Settle => KeptRoundStep(sys, step);
    case _ => PlacedStep(sys, step);
  }

  /** The invariant of every reachable state: among other things the count is never negative, and while
      a round is live its start time is set and its end time is set exactly when the count is zero. */
  lemma {:induction false} KeptAlways(r: History, i: nat)
    requires ValidHistory(r) && i < |r.states|
    ensures Kept(r.states[i])
  {
    if i > 0 {
      KeptAlways(r, i - 1);
      assert Follows(r, i - 1);
      KeptStep(r.states[i - 1], r.steps[i - 1]);
    }
  }

  // ---------------------------------------------------------------- the life of the module

  /** The only changes of the state word. */
  ghost predicate StateOrder(before: XkState, after: XkState) {
    || before == after
    || (before == Pending && after in {Done, Failed})
    || (before == Done && after in {ReversePending, ReverseDone})
    || (before == ReversePending && after in {ReverseDone, ReverseFailed})
  }

  lemma StateOrderStep(sys: System, step: Step)
    requires Kept(sys) && CanStep(sys, step)
    ensures StateOrder(sys.mod.state, Next(sys, step).mod.state)
  {
  }

  /** After a forward time-out there is no reverse round. */
  lemma {:induction false} FailedIsFinal(r: History, i: nat, j: nat)
    requires ValidHistory(r) && i <= j < |r.states| && r.states[i].mod.state == Failed
    ensures r.states[j].mod.state == Failed
    ensures i < j ==> !r.steps[j - 1].event.Attach? && !r.steps[j - 1].event.Scan?
  {
    if i < j {
      FailedIsFinal(r, i, j - 1);
      KeptAlways(r, j - 1);
      assert Follows(r, j - 1);
      StateOrderStep(r.states[j - 1], r.steps[j - 1]);
    }
  }

  /** Within a round zero is absorbing, and only the daemon's own turn clears a recorded end time. */
  lemma ZeroAbsorbs(sys: System, step: Step)
    requires CanStep(sys, step) && !step.event.Attach? && !step.event.Scan?
    ensures sys.mod.refcount == 0 ==> Next(sys, step).mod.refcount == 0
    ensures sys.mod.tEnd != 0 && !step.event.Poll? ==> Next(sys, step).mod.tEnd == sys.mod.tEnd
    ensures sys.mod.tEnd != 0 && step.event.Poll? && !Terminal(Next(sys, step).mod.state)
            ==> Next(sys, step).mod.tEnd == sys.mod.tEnd
  {
  }

  // ---------------------------------------------------------------- the count within a round

  /** `count` is as far from the occupancy of `sys` as the drift allows: never below it if every guard
      is registered, never above it if every unguard is. */
  ghost predicate Bound(scanned: System, sys: System, count: int) {
    && (AllGuards(scanned) ==> count >= Occupancy(sys.threads) + Drift(scanned))
    && (AllUnguards(scanned) ==> count <= Occupancy(sys.threads) + Drift(scanned))
  }

  ghost predicate FirstZero(r: History, k: nat, j: nat) {
    k < j < |r.states| && r.states[j].mod.refcount == 0 && forall m :: k < m < j ==> r.states[m].mod.refcount != 0
  }

  /** The count of the round scanned by step k first reached zero in state j. */
  ghost predicate ZeroAt(r: History, k: nat, i: nat, j: nat)
    requires RoundOf(r, k, i)
  {
    && FirstZero(r, k, j) && j <= i
    && Bound(r.states[k + 1], r.states[j], 0)
    && (Live(r.states[i]) ==> r.states[i].mod.tEnd == r.states[j].clock)
  }

  ghost predicate Counting(scanned: System, sys: System) {
    && !sys.phase.Attached? && !sys.phase.Loaded?
    && (Live(sys) ==> sys.mod.probes == scanned.mod.probes && sys.mod.tStart == scanned.mod.tStart)
    && (Live(sys) && sys.mod.refcount > 0 ==> Bound(scanned, sys, sys.mod.refcount))
  }

  ghost predicate RoundCounts(r: History, k: nat, i: nat)
    requires RoundOf(r, k, i)
  {
    var scanned, sys := r.states[k + 1], r.states[i];
    && Counting(scanned, sys)
    && (sys.mod.refcount == 0 ==> exists j: nat :: ZeroAt(r, k, i, j))
    && (AllSaved(r.steps[k].event.tasks) && !sys.mod.enabled ==> sys.mod.refcount == 0)
    && (sys.mod.enabled <==> Waits(r, k))
  }

  /** The scan of step k was completed and found a frame in a span. */
  ghost predicate Waits(r: History, k: nat)
    requires k < |r.steps| && |r.states| == |r.steps| + 1 && r.steps[k].event.Scan?
  {
    AllSaved(r.steps[k].event.tasks) && PairsOfTasks(r.states[k].spans, r.steps[k].event.tasks) > 0
  }

  /** What a probe crossing by a live round's handlers does to the count. */
  lemma CrossingCounts(scanned: System, m: Module, act: Action, now: nat, occupancy: int)
    requires m.enabled && m.refcount > 0 && m.probes == scanned.mod.probes && m.tEnd == 0
    requires act.Guard? || act.Unguard? ==> act.s < |m.probes|
    requires AllGuards(scanned) ==> m.refcount >= occupancy
    requires AllUnguards(scanned) ==> m.refcount <= occupancy
    ensures var next := ModAfter(m, act, now);
            && (AllGuards(scanned) ==> next.refcount >= occupancy + Crossing(act))
            && (AllUnguards(scanned) ==> next.refcount <= occupancy + Crossing(act))
            && (next.refcount == 0 ==> next.tEnd == now)
  {
  }

  /** The handlers leave the probes, the switch and the start time as they are. */
  lemma HandlersKeep(m: Module, act: Action, now: nat)
    ensures var next := ModAfter(m, act, now);
            next.probes == m.probes && next.enabled == m.enabled && next.tStart == m.tStart && next.state == m.state
  {
  }

  /** Moving a probe-registered thread across a probe keeps count and occupancy in step. */
  lemma RunCounts(scanned: System, sys: System, step: Step)
    requires Kept(sys) && CanStep(sys, step) && step.event.Run? && Counting(scanned, sys)
    ensures var next := Next(sys, step);
            && Counting(scanned, next) && next.mod.enabled == sys.mod.enabled
            && (sys.mod.refcount > 0 && next.mod.refcount == 0 ==>
                  Bound(scanned, next, 0) && next.mod.tEnd == next.clock)
  {
    KeptRunStep(sys, step);
    HandlersKeep(sys.mod, step.event.act, step.now);
    if !Live(sys) {
      IdleHandlers(sys, step.event.act, step.now);
    } else if sys.mod.refcount > 0 {
      OccupancyStep(sys, step);
      CrossingCounts(scanned, sys.mod, step.event.act, step.now, Occupancy(sys.threads) + Drift(scanned));
    } else {
      ZeroAbsorbs(sys, step);
    }
  }

  lemma OtherCounts(scanned: System, sys: System, step: Step)
    requires Kept(sys) && CanStep(sys, step) && !step.event.Run? && Counting(scanned, sys)
    requires !step.event.Attach? && !step.event.Scan?
    ensures var next := Next(sys, step);
            && Counting(scanned, next) && next.mod.enabled == sys.mod.enabled
            && next.mod.refcount == sys.mod.refcount
  {
    OccupancyStep(sys, step);
  }

  lemma RoundStep(r: History, k: nat, i: nat)
    requires ValidHistory(r) && RoundOf(r, k, i) && RoundOf(r, k, i + 1) && RoundCounts(r, k, i)
    ensures RoundCounts(r, k, i + 1)
  {
    assert Follows(r, i);
    KeptAlways(r, i);
    var scanned, sys, step, next := r.states[k + 1], r.states[i], r.steps[i], r.states[i + 1];
    if step.event.Run? {
      RunCounts(scanned, sys, step);
    } else {
      OtherCounts(scanned, sys, step);
    }
    ZeroAbsorbs(sys, step);
    if sys.mod.refcount == 0 {
      var j: nat :| ZeroAt(r, k, i, j);
      ZeroPersists(r, k, i, j);
    } else if next.mod.refcount == 0 {
      NonzeroBefore(r, k, i);
      assert ZeroAt(r, k, i + 1, i + 1);
    }
  }

  /** While the count is not zero it was not zero before in the round. */
  lemma {:induction false} NonzeroBefore(r: History, k: nat, i: nat)
    requires ValidHistory(r) && RoundOf(r, k, i) && r.states[i].mod.refcount != 0
    ensures forall m :: k < m <= i ==> r.states[m].mod.refcount != 0
  {
    if i > k + 1 {
      assert Follows(r, i - 1);
      ZeroAbsorbs(r.states[i - 1], r.steps[i - 1]);
      NonzeroBefore(r, k, i - 1);
    }
  }

  lemma ZeroPersists(r: History, k: nat, i: nat, j: nat)
    requires ValidHistory(r) && RoundOf(r, k, i) && RoundOf(r, k, i + 1) && ZeroAt(r, k, i, j)
    requires r.states[i].mod.refcount == 0 && Kept(r.states[i]) && !r.states[i].phase.Attached? && !r.states[i].phase.Loaded?
    ensures ZeroAt(r, k, i + 1, j)
  {
    assert Follows(r, i);
    ZeroAbsorbs(r.states[i], r.steps[i]);
    if Live(r.states[i + 1]) {
      LiveBefore(r.states[i], r.steps[i]);
    }
  }

  /** A round does not come back to life, and an end time stays while it lives. */
  lemma LiveBefore(sys: System, step: Step)
    requires Kept(sys) && CanStep(sys, step) && !step.event.Attach? && !step.event.Scan?
    requires !sys.phase.Attached? && !sys.phase.Loaded? && Live(Next(sys, step))
    ensures Live(sys)
  {
  }

  /** From the scan on, the count equals the occupancy plus the drift until it first reaches zero; and
      when it is zero, zero was the right distance at the moment it was first reached, and while the round
      is live the recorded end time is that moment. */
  lemma {:induction false} CountWithinRound(r: History, k: nat, i: nat)
    requires ValidHistory(r) && RoundOf(r, k, i)
    ensures RoundCounts(r, k, i)
  {
    if i == k + 1 {
      assert Follows(r, k);
      KeptAlways(r, k);
      KeptAlways(r, i);
      ScanTasksMeaning(r.states[k].spans, r.steps[k].event.tasks, 0, false);
      if r.states[i].mod.refcount == 0 {
        assert ZeroAt(r, k, i, i);
      }
    } else {
      assert RoundOf(r, k, i - 1);
      CountWithinRound(r, k, i - 1);
      RoundStep(r, k, i - 1);
    }
  }

  // ---------------------------------------------------------------- the verdict

  /** In every state past an Attached phase there is a scan whose round is the current one. */
  lemma {:induction false} LastScan(r: History, i: nat) returns (k: nat)
    requires ValidHistory(r) && i < |r.states|
    requires r.states[i].phase.Scanned? || r.states[i].phase.Started? || r.states[i].phase.Unloaded?
    ensures RoundOf(r, k, i)
  {
    assert Follows(r, i - 1);
    if r.steps[i - 1].event.Scan? {
      k := i - 1;
    } else {
      KeptAlways(r, i - 1);
      k := LastScan(r, i - 1);
    }
  }

  /** The scan looked at every frame, no frame stood on an unexecuted probe, and every guard is registered. */
  ghost predicate CleanScan(before: System, tasks: seq<Saved>, after: System) {
    && SavedWhole(before.threads, tasks)
    && NonePaused(before.spans, before.threads)
    && AllGuards(after)
  }

  lemma {:induction false} WholeIsSaved(threads: seq<Stack>, tasks: seq<Saved>)
    requires SavedWhole(threads, tasks) && forall t :: 0 <= t < |threads| ==> threads[t] != []
    ensures AllSaved(tasks)
  {
  }

  /** The drift of a whole scan is the imbalance of the frames that stand on probes. */
  lemma DriftIsImbalance(sys: System, step: Step)
    requires Kept(sys) && CanStep(sys, step) && step.event.Scan? && SavedWhole(sys.threads, step.event.tasks)
    ensures Drift(Next(sys, step)) == Imbalance(sys.spans, sys.threads)
  {
    var tasks := step.event.tasks;
    WholeIsSaved(sys.threads, tasks);
    ScanTasksMeaning(sys.spans, tasks, 0, false);
    WholeScanCount(sys.spans, sys.threads, tasks);
  }

  /** Whenever a round is reported done, forward or reverse, after waiting or at once, no activation of any
      thread was inside any span in the state of that round, at or after its scan, in which the count first
      was zero, provided the scan was clean. */
  lemma DoneMeansQuiescent(r: History, i: nat)
    requires ValidHistory(r) && i + 1 < |r.states|
    requires r.states[i + 1].mod.state in {Done, ReverseDone} && r.states[i].mod.state != r.states[i + 1].mod.state
    ensures exists k: nat ::
              && RoundOf(r, k, i)
              && (CleanScan(r.states[k], r.steps[k].event.tasks, r.states[k + 1]) ==>
                    exists j: nat :: j <= i && FirstZero(r, k, j) && Quiescent(r.states[j].threads))
  {
    assert Follows(r, i);
    KeptAlways(r, i);
    var sys := r.states[i];
    var k := LastScan(r, i);
    if CleanScan(r.states[k], r.steps[k].event.tasks, r.states[k + 1]) {
      assert Follows(r, k);
      KeptAlways(r, k);
      WholeIsSaved(r.states[k].threads, r.steps[k].event.tasks);
      DriftIsImbalance(r.states[k], r.steps[k]);
      Balanced(r.states[k].spans, r.states[k].threads);
      CountWithinRound(r, k, i);
      ZeroWhenDone(r, k, i);
      var j: nat :| ZeroAt(r, k, i, j);
      QuiescentIsEmpty(r.states[j].threads);
      assert Quiescent(r.states[j].threads);
    }
  }

  /** A round that was scanned to the end is reported done only when its count is zero. */
  lemma {:induction false} ZeroWhenDone(r: History, k: nat, i: nat)
    requires ValidHistory(r) && RoundOf(r, k, i) && i < |r.steps|
    requires AllSaved(r.steps[k].event.tasks)
    requires r.states[i + 1].mod.state in {Done, ReverseDone} && r.states[i].mod.state != r.states[i + 1].mod.state
    ensures r.states[i].mod.refcount == 0
  {
    assert Follows(r, i);
    KeptAlways(r, i);
    CountWithinRound(r, k, i);
  }

  /** After a clean scan with all probes registered the count is the occupancy, until it reaches zero. */
  lemma CountIsOccupancy(r: History, k: nat, i: nat)
    requires ValidHistory(r) && RoundOf(r, k, i) && Live(r.states[i]) && r.states[i].mod.refcount > 0
    requires CleanScan(r.states[k], r.steps[k].event.tasks, r.states[k + 1]) && AllUnguards(r.states[k + 1])
    ensures r.states[i].mod.refcount == Occupancy(r.states[i].threads)
  {
    assert Follows(r, k);
    KeptAlways(r, k);
    DriftIsImbalance(r.states[k], r.steps[k]);
    Balanced(r.states[k].spans, r.states[k].threads);
    CountWithinRound(r, k, i);
  }

  /** With all probes registered, what a zero count means is decided by the drift alone: exactly `-Drift`
      pairs were still inside in the state in which the count first was zero, so at that moment the spans
      were empty exactly when the drift is zero; with a positive drift the count never reaches zero. */
  lemma VerdictIsDrift(r: History, k: nat, i: nat)
    requires ValidHistory(r) && RoundOf(r, k, i) && r.states[i].mod.refcount == 0
    requires AllGuards(r.states[k + 1]) && AllUnguards(r.states[k + 1])
    ensures Drift(r.states[k + 1]) <= 0
    ensures exists j: nat ::
              && j <= i && FirstZero(r, k, j)
              && Occupancy(r.states[j].threads) == -Drift(r.states[k + 1])
              && (Quiescent(r.states[j].threads) <==> Drift(r.states[k + 1]) == 0)
  {
    CountWithinRound(r, k, i);
    var j: nat :| ZeroAt(r, k, i, j);
    QuiescentIsEmpty(r.states[j].threads);
  }

  /** A round is reported done at once exactly when its scan found nothing or was cut short by a stack that
      could not be saved; in both cases the threads are where they were. */
  lemma InstantVerdict(r: History, k: nat, i: nat)
    requires ValidHistory(r) && RoundOf(r, k, i) && i < |r.steps| && r.steps[i].event.Settle?
    ensures r.states[i].phase.Scanned?
    ensures r.states[i + 1].mod.state in {Done, ReverseDone} <==> !Waits(r, k)
    ensures !AllSaved(r.steps[k].event.tasks) ==>
              r.states[i + 1].mod.state == if r.states[i].phase.reverse then ReverseDone else Done
    ensures r.states[i + 1].threads == r.states[i].threads
  {
    assert Follows(r, i);
    KeptAlways(r, i);
    CountWithinRound(r, k, i);
  }

  /** A turn of the daemon writes a timing record exactly when it ends the round; the record of a success
      has a start and a later end, that of a time-out is marked. */
  lemma ReportsAreSound(sys: System, step: Step)
    requires Kept(sys) && CanStep(sys, step) && step.event.Poll?
    ensures var report, after := Reported(sys.mod), Next(sys, step).mod.state;
            && (report.Some? <==> !Terminal(sys.mod.state) && Terminal(after))
            && (report.Some? ==> 0 < report.value.start == sys.mod.tStart)
            && (report.Some? && after in {Done, ReverseDone} ==>
                  && report.value.end == sys.mod.tEnd && report.value.start <= report.value.end
                  && 0 <= report.value.elapsed
                  && report.value.elapsed * 1000 <= report.value.end - report.value.start < (report.value.elapsed + 1) * 1000
                  && Next(sys, step).mod.tStart == Next(sys, step).mod.tEnd == 0)
            && (report.Some? && after in {Failed, ReverseFailed} ==> report.value.end == 0 && report.value.elapsed == -1)
            && (report.Some? ==> report.value.reverse == (after in {ReverseDone, ReverseFailed}))
  {
  }

  lemma ReportedIsLive(sys: System, step: Step)
    requires Kept(sys) && CanStep(sys, step) && step.event.Poll? && Reported(sys.mod).Some?
    ensures Live(sys)
    ensures Next(sys, step).mod.state in {Done, ReverseDone} ==> sys.mod.refcount == 0
  {
  }

  /** A scan that starts the wait is its start time. */
  lemma ScanStarts(r: History, k: nat)
    requires ValidHistory(r) && k < |r.steps| && r.steps[k].event.Scan? && Waits(r, k)
    ensures r.states[k + 1].mod.tStart == r.steps[k].now
  {
    assert Follows(r, k);
    KeptAlways(r, k);
    ScanTasksMeaning(r.states[k].spans, r.steps[k].event.tasks, 0, false);
  }

  /** The record's start is the time of the round's scan, and the end of a success is the time at which the
      count first was zero. */
  lemma TimingIsExact(r: History, k: nat, i: nat)
    requires ValidHistory(r) && RoundOf(r, k, i) && i < |r.steps| && r.steps[i].event.Poll?
    requires Reported(r.states[i].mod).Some?
    ensures var report := Reported(r.states[i].mod).value;
            && report.start == r.steps[k].now
            && (r.states[i + 1].mod.state in {Done, ReverseDone} ==>
                  exists j: nat :: j <= i && FirstZero(r, k, j) && report.end == r.states[j].clock)
  {
    assert Follows(r, i);
    KeptAlways(r, i);
    CountWithinRound(r, k, i);
    ReportsAreSound(r.states[i], r.steps[i]);
    ReportedIsLive(r.states[i], r.steps[i]);
    ScanStarts(r, k);
    if r.states[i + 1].mod.state in {Done, ReverseDone} {
      var j: nat :| ZeroAt(r, k, i, j);
    }
  }

  // ---------------------------------------------------------------- how long the daemon waits

  ghost predicate FixedParameters(r: History, timeoutSec: int, pollIntervalMs: int) {
    forall m :: 0 <= m < |r.steps| && r.steps[m].event.Poll? ==>
      r.steps[m].event == Poll(timeoutSec, pollIntervalMs)
  }

  ghost predicate Waiting(sys: System) {
    sys.phase.Started? && !Terminal(sys.mod.state)
  }

  /** How often the daemon woke up between states k and i and found the round still waiting. */
  ghost function Wakes(r: History, k: nat, i: nat): nat
    requires k <= i < |r.states| && |r.states| == |r.steps| + 1
  {
    if i == k then 0
    else Wakes(r, k, i - 1) + if r.steps[i - 1].event.Poll? && Waiting(r.states[i - 1]) then 1 else 0
  }

  ghost predicate WakesCounted(sys: System, wakes: nat, limit: int) {
    && (sys.phase.Scanned? ==> wakes == 0 && sys.mod.nap.None?)
    && (Waiting(sys) && sys.mod.nap.None? ==> wakes == 0)
    && (Waiting(sys) && sys.mod.nap.Some? ==>
          sys.mod.nap.value == limit && wakes == sys.mod.pollCount + 1 && sys.mod.pollCount <= if limit > 0 then limit else 0)
  }

  lemma WakesPollStep(sys: System, step: Step, wakes: nat, limit: int)
    requires Kept(sys) && CanStep(sys, step) && step.event.Poll?
    requires !sys.phase.Attached? && !sys.phase.Loaded? && WakesCounted(sys, wakes, limit)
    requires limit == MaxPolls(step.event.timeoutSec, step.event.pollIntervalMs)
    ensures WakesCounted(Next(sys, step), wakes + if Waiting(sys) then 1 else 0, limit)
  {
  }

  lemma WakesOtherStep(sys: System, step: Step, wakes: nat, limit: int)
    requires Kept(sys) && CanStep(sys, step) && !step.event.Attach? && !step.event.Scan? && !step.event.Poll?
    requires !sys.phase.Attached? && !sys.phase.Loaded? && WakesCounted(sys, wakes, limit)
    ensures WakesCounted(Next(sys, step), wakes, limit)
  {
    if step.event.Run? {
      KeptRunStep(sys, step);
    }
  }

  /** Right after the scan the daemon has not been woken. */
  lemma WakesAtScan(r: History, k: nat, limit: int)
    requires ValidHistory(r) && RoundOf(r, k, k + 1)
    ensures WakesCounted(r.states[k + 1], 0, limit)
  {
    assert Follows(r, k);
    KeptAlways(r, k + 1);
  }

  lemma WakesNext(r: History, k: nat, i: nat, wakes: nat, timeoutSec: int, pollIntervalMs: int, limit: int)
    requires ValidHistory(r) && RoundOf(r, k, i) && RoundOf(r, k, i + 1) && FixedParameters(r, timeoutSec, pollIntervalMs)
    requires limit == MaxPolls(timeoutSec, pollIntervalMs) && WakesCounted(r.states[i], wakes, limit)
    ensures WakesCounted(r.states[i + 1], wakes + if r.steps[i].event.Poll? && Waiting(r.states[i]) then 1 else 0, limit)
  {
    assert Follows(r, i);
    KeptAlways(r, i);
    CountWithinRound(r, k, i);
    if r.steps[i].event.Poll? {
      WakesPollStep(r.states[i], r.steps[i], wakes, limit);
    } else {
      WakesOtherStep(r.states[i], r.steps[i], wakes, limit);
    }
  }

  lemma {:induction false} WakesWithinRound(r: History, k: nat, i: nat, timeoutSec: int, pollIntervalMs: int, limit: int)
    requires ValidHistory(r) && RoundOf(r, k, i) && FixedParameters(r, timeoutSec, pollIntervalMs)
    requires limit == MaxPolls(timeoutSec, pollIntervalMs)
    ensures WakesCounted(r.states[i], Wakes(r, k + 1, i), limit)
  {
    if i == k + 1 {
      WakesAtScan(r, k, limit);
    } else {
      assert RoundOf(r, k, i - 1);
      WakesWithinRound(r, k, i - 1, timeoutSec, pollIntervalMs, limit);
      WakesNext(r, k, i - 1, Wakes(r, k + 1, i - 1), timeoutSec, pollIntervalMs, limit);
    }
  }

  lemma PollLimitOf(limit: nat, timeoutSec: int, pollIntervalMs: int)
    requires var p := if pollIntervalMs < 1 then 1 else pollIntervalMs;
             if timeoutSec >= 0 then limit * p <= 1000 * timeoutSec < (limit + 1) * p else limit == 0
    ensures var n := MaxPolls(timeoutSec, pollIntervalMs); limit == if n > 0 then n else 0
  {
    var p := if pollIntervalMs < 1 then 1 else pollIntervalMs;
    PollLimit(timeoutSec, pollIntervalMs, p);
    if timeoutSec >= 0 {
      OnePollLimit(timeoutSec, pollIntervalMs, p, limit);
    }
  }

  /** With fixed parameters a waiting round survives at most `limit + 1` turns of the daemon. */
  lemma WaitingIsBounded(r: History, k: nat, i: nat, timeoutSec: int, pollIntervalMs: int, limit: nat)
    requires ValidHistory(r) && RoundOf(r, k, i) && FixedParameters(r, timeoutSec, pollIntervalMs)
    requires var p := if pollIntervalMs < 1 then 1 else pollIntervalMs;
             if timeoutSec >= 0 then limit * p <= 1000 * timeoutSec < (limit + 1) * p else limit == 0
    ensures Waiting(r.states[i]) ==> Wakes(r, k + 1, i) <= limit + 1
  {
    PollLimitOf(limit, timeoutSec, pollIntervalMs);
    WakesWithinRound(r, k, i, timeoutSec, pollIntervalMs, MaxPolls(timeoutSec, pollIntervalMs));
    WakesLimit(r.states[i], Wakes(r, k + 1, i), MaxPolls(timeoutSec, pollIntervalMs), limit);
  }

  lemma WakesLimit(sys: System, wakes: nat, n: int, limit: nat)
    requires WakesCounted(sys, wakes, n) && limit == if n > 0 then n else 0
    ensures Waiting(sys) ==> wakes <= limit + 1
  {
  }

  /** And it times out no earlier: the daemon had looked at it exactly `limit + 1` times before, and had
      found it waiting each time.  The time-out is not stopped by a count that reached zero in the last
      nap. */
  lemma TimeoutIsExact(r: History, k: nat, i: nat, timeoutSec: int, pollIntervalMs: int, limit: nat)
    requires ValidHistory(r) && RoundOf(r, k, i) && i < |r.steps| && FixedParameters(r, timeoutSec, pollIntervalMs)
    requires var p := if pollIntervalMs < 1 then 1 else pollIntervalMs;
             if timeoutSec >= 0 then limit * p <= 1000 * timeoutSec < (limit + 1) * p else limit == 0
    requires Waiting(r.states[i]) && r.steps[i].event.Poll?
    ensures r.states[i + 1].mod.state in {Failed, ReverseFailed} <==> Wakes(r, k + 1, i) == limit + 1
  {
    PollLimitOf(limit, timeoutSec, pollIntervalMs);
    WakesWithinRound(r, k, i, timeoutSec, pollIntervalMs, MaxPolls(timeoutSec, pollIntervalMs));
    assert Follows(r, i);
    KeptAlways(r, i);
    TimeoutStep(r.states[i], r.steps[i], Wakes(r, k + 1, i), MaxPolls(timeoutSec, pollIntervalMs), limit);
  }

  lemma TimeoutStep(sys: System, step: Step, wakes: nat, n: int, limit: nat)
    requires Kept(sys) && CanStep(sys, step) && step.event.Poll? && Waiting(sys)
    requires WakesCounted(sys, wakes, n) && limit == if n > 0 then n else 0
    ensures Next(sys, step).mod.state in {Failed, ReverseFailed} <==> wakes == limit + 1
  {
  }

  /** Only a turn of the daemon gives a round up. */
  lemma OnlyPollsTimeOut(sys: System, step: Step)
    requires Kept(sys) && CanStep(sys, step) && !(sys.mod.state in {Failed, ReverseFailed})
    requires Next(sys, step).mod.state in {Failed, ReverseFailed}
    ensures step.event.Poll? && Waiting(sys)
  {
  }

  // ---------------------------------------------------------------- what the hypotheses rule out

  const ONE_SPAN: seq<Span> := [Span(0x1000, 0x10, 0x20)]

  ghost function Started0(threads: seq<Stack>): System {
    System(ONE_SPAN, Module(0, false, Pending, 0, 0, NoProbes(1), 0, None), threads, Loaded, 0)
  }

  lemma OneSpanCount(entries: seq<nat>)
    requires |entries| == 1
    ensures Pairs(ONE_SPAN, entries) == if 0x1010 <= entries[0] < 0x1020 then 1 else 0
  {
    assert ONE_SPAN[0].Lo() == 0x1010 && ONE_SPAN[0].Hi() == 0x1020;
    assert InSpans(ONE_SPAN, entries[0]) == if 0x1010 <= entries[0] < 0x1020 then {0} else {};
    assert entries[1..] == [];
  }

  ghost const LEAVING := Frame(0x1020, {0})
  ghost const INNER := Frame(0x1018, {0})
  ghost const LEFT := Frame(0x1020, {})
  ghost const BOTH: seq<Probe> := [Probe(true, true)]
  ghost const PAUSED: seq<Saved> := [Saved([0x1020], false), Saved([0x1018], false)]

  /** The module in the five states after `PausedRun`'s first. */
  ghost function PausedState(i: nat): System {
    if i == 0 then Started0([[LEAVING], [INNER]])
    else if i == 1 then System(ONE_SPAN, Module(0, false, Pending, 0, 0, BOTH, 0, None), [[LEAVING], [INNER]], Attached(false), 1)
    else if i == 2 then System(ONE_SPAN, Module(1, true, Pending, 2, 0, BOTH, 0, None), [[LEAVING], [INNER]], Scanned(false), 2)
    else if i == 3 then System(ONE_SPAN, Module(1, true, Pending, 2, 0, BOTH, 0, None), [[LEAVING], [INNER]], Started(false), 3)
    else if i == 4 then System(ONE_SPAN, Module(0, true, Pending, 2, 4, BOTH, 0, None), [[LEFT], [INNER]], Started(false), 4)
    else System(ONE_SPAN, Module(0, true, Done, 0, 0, NoProbes(1), 0, None), [[LEFT], [INNER]], Started(false), 5)
  }

  ghost const PAUSED_STEPS: seq<Step> :=
    [Step(Attach(BOTH), 1), Step(Scan(PAUSED), 2), Step(Settle, 3), Step(Run(0, Unguard(0)), 4), Step(Poll(5, 1), 5)]

  lemma PausedScan()
    ensures CanStep(PausedState(1), PAUSED_STEPS[1]) && Next(PausedState(1), PAUSED_STEPS[1]) == PausedState(2)
    ensures SavedWhole([[LEAVING], [INNER]], PAUSED)
  {
    assert Pcs([LEAVING]) == [0x1020] && Pcs([INNER]) == [0x1018];
    OneSpanCount([0x1020]);
    OneSpanCount([0x1018]);
    assert PAUSED[1..] == [PAUSED[1]] && PAUSED[1..][1..] == [];
    assert ScanTasks(ONE_SPAN, PAUSED[1..], 0, false) == ScanCount(1, true, false);
  }

  lemma PausedUnguard()
    ensures CanStep(PausedState(3), PAUSED_STEPS[3]) && Next(PausedState(3), PAUSED_STEPS[3]) == PausedState(4)
  {
    assert ONE_SPAN[0].Lo() == 0x1010 && ONE_SPAN[0].Hi() == 0x1020;
    assert 0 in Leaving(ONE_SPAN, LEAVING);
    assert LEAVING.inside - {0} == {};
    assert LEAVING.(inside := LEAVING.inside - {0}) == LEFT;
    assert StackAfter([LEAVING], Unguard(0)) == [LEFT];
    assert PausedState(3).threads[0 := [LEFT]] == [[LEFT], [INNER]];
  }

  lemma PausedFollows(i: nat)
    requires i < 5
    ensures CanStep(PausedState(i), PAUSED_STEPS[i]) && Next(PausedState(i), PAUSED_STEPS[i]) == PausedState(i + 1)
  {
    if i == 1 {
      PausedScan();
    } else if i == 3 {
      PausedUnguard();
    }
  }

  lemma PausedInit()
    ensures IsInit(PausedState(0))
  {
  }

  ghost function PausedHistory(): History {
    History(seq(6, (i: nat) => PausedState(i)), PAUSED_STEPS)
  }

  lemma PausedIsValid()
    ensures ValidHistory(PausedHistory())
  {
    PausedInit();
    forall i | 0 <= i < 5
      ensures Follows(PausedHistory(), i)
    {
      PausedFollows(i);
    }
  }

  lemma PausedThreads(i: nat)
    requires i <= 5
    ensures !Quiescent(PausedState(i).threads)
  {
    assert PausedState(i).threads[1][0] == INNER;
  }

  lemma PausedShape()
    ensures var r := PausedHistory(); |r.steps| == 5 && RoundOf(r, 1, 4) && forall i :: 0 <= i <= 5 ==> r.states[i] == PausedState(i)
  {
  }

  lemma PausedEnd()
    ensures AllGuards(PausedState(2)) && AllUnguards(PausedState(2)) && PausedState(5).mod.state == Done
  {
  }

  /** A frame that stands exactly on `eoff` is not seen by the scan, yet its unguard is counted: one
      other thread inside the span, and the round is reported done while that thread is still inside. */
  lemma PausedAtExitEndsEarly() returns (r: History)
    ensures ValidHistory(r) && RoundOf(r, 1, 4) && |r.steps| == 5
    ensures SavedWhole(r.states[1].threads, r.steps[1].event.tasks) && AllGuards(r.states[2]) && AllUnguards(r.states[2])
    ensures r.states[5].mod.state == Done
    ensures forall j :: 0 <= j <= 5 ==> !Quiescent(r.states[j].threads)
  {
    r := PausedHistory();
    PausedIsValid();
    PausedShape();
    PausedEnd();
    PausedScan();
    assert r.states[1] == PausedState(1) && r.states[2] == PausedState(2) && r.states[5] == PausedState(5);
    forall j | 0 <= j <= 5
      ensures !Quiescent(r.states[j].threads)
    {
      PausedThreads(j);
    }
  }

  ghost const UNSAVED: seq<Saved> := [Saved([], false)]

  ghost function UnsavedState(i: nat): System {
    if i == 0 then Started0([[INNER]])
    else if i == 1 then System(ONE_SPAN, Module(0, false, Pending, 0, 0, BOTH, 0, None), [[INNER]], Attached(false), 1)
    else if i == 2 then System(ONE_SPAN, Module(0, false, Pending, 0, 0, BOTH, 0, None), [[INNER]], Scanned(false), 2)
    else System(ONE_SPAN, Module(0, false, Done, 0, 0, NoProbes(1), 0, None), [[INNER]], Started(false), 3)
  }

  ghost const UNSAVED_STEPS: seq<Step> := [Step(Attach(BOTH), 1), Step(Scan(UNSAVED), 2), Step(Settle, 3)]

  lemma UnsavedFollows(i: nat)
    requires i < 3
    ensures CanStep(UnsavedState(i), UNSAVED_STEPS[i]) && Next(UnsavedState(i), UNSAVED_STEPS[i]) == UnsavedState(i + 1)
  {
    if i == 1 {
      assert ScanTasks(ONE_SPAN, UNSAVED, 0, false) == ScanCount(0, false, true);
    }
  }

  lemma UnsavedInit()
    ensures IsInit(UnsavedState(0)) && NonePaused(ONE_SPAN, [[INNER]])
  {
    assert ONE_SPAN[0].Lo() == 0x1010 && ONE_SPAN[0].Hi() == 0x1020;
    assert WellPlaced(ONE_SPAN, INNER) && Crossed(ONE_SPAN, INNER);
  }

  /** One stack that cannot be saved stops the scan with the probes disabled, and the round is reported
      done at once although a thread is inside the span. */
  lemma UnsavedStackEndsAtOnce() returns (r: History)
    ensures ValidHistory(r) && RoundOf(r, 1, 2) && |r.steps| == 3 && NonePaused(r.states[1].spans, r.states[1].threads)
    ensures AllGuards(r.states[2]) && AllUnguards(r.states[2])
    ensures r.states[3].mod.state == Done
    ensures forall j :: 0 <= j <= 3 ==> !Quiescent(r.states[j].threads)
  {
    r := History(seq(4, (i: nat) => UnsavedState(i)), UNSAVED_STEPS);
    UnsavedInit();
    forall i | 0 <= i < 3
      ensures Follows(r, i)
    {
      UnsavedFollows(i);
    }
    forall j | 0 <= j <= 3
      ensures !Quiescent(r.states[j].threads)
    {
      assert r.states[j].threads[0][0] == INNER;
    }
  }
}
