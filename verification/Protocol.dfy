/** The global transition protocol as a step system: any number of threads, each with a stack of
    activations of any depth, run beside the module's init code, its exit code and its daemon.

    A frame remembers which spans it is inside of, that is, whose `soff` probe it has passed and whose
    `eoff` probe it has not.  The scan cannot see this: it only sees addresses.  A frame that stands
    exactly on a probe address it has not yet executed is counted differently by the two, and `Imbalance`
    measures by how much. */
module Protocol {
  import opened Wrappers
  import opened Consistency

  datatype Frame = Frame(pc: nat, inside: set<nat>)

  /** Innermost frame first, as the unwinder saves it. */
  type Stack = seq<Frame>

  datatype Phase =
    | Loaded
    | Attached(reverse: bool)   // probes registered, stacks not scanned yet
    | Scanned(reverse: bool)    // stop_machine returned
    | Started(reverse: bool)    // init returned, or exit waits
    | Unloaded

  datatype System = System(spans: seq<Span>, mod: Module, threads: seq<Stack>, phase: Phase, clock: nat)

  /** One instruction, or one probe handler, executed by a thread. */
  datatype Action =
    | Advance(pc: nat)
    | Call(ret: nat, entry: nat)
    | Return
    | Guard(s: nat)
    | Unguard(s: nat)

  datatype Event =
    | Spawn(entry: nat)
    | Exit(t: nat)
    | Run(t: nat, act: Action)
    | Attach(outcomes: seq<Probe>)
    | Scan(tasks: seq<Saved>)
    | Settle
    | Poll(timeoutSec: int, pollIntervalMs: int)
    | Unload

  datatype Step = Step(event: Event, now: nat)

  // ---------------------------------------------------------------- frames and spans

  ghost predicate ValidSpans(spans: seq<Span>) {
    forall s :: 0 <= s < |spans| ==> spans[s].Lo() < spans[s].Hi()
  }

  /** The spans that control flow has entered once it stands at `pc`, the instruction at `pc` not executed. */
  function Within(spans: seq<Span>, pc: nat): set<nat> {
    set s | 0 <= s < |spans| && spans[s].Lo() < pc <= spans[s].Hi()
  }

  /** Spans whose guard the frame stands on and has not executed. */
  function Entering(spans: seq<Span>, f: Frame): set<nat> {
    set s | 0 <= s < |spans| && f.pc == spans[s].Lo() && s !in f.inside
  }

  /** Spans whose unguard the frame stands on and has not executed. */
  function Leaving(spans: seq<Span>, f: Frame): set<nat> {
    set s | 0 <= s < |spans| && f.pc == spans[s].Hi() && s in f.inside
  }

  /** The frame has executed every probe at its address. */
  predicate Crossed(spans: seq<Span>, f: Frame) {
    Entering(spans, f) == {} && Leaving(spans, f) == {}
  }

  ghost predicate WellPlaced(spans: seq<Span>, f: Frame) {
    && (forall s :: s in f.inside ==> 0 <= s < |spans| && spans[s].Lo() <= f.pc <= spans[s].Hi())
    && (forall s :: 0 <= s < |spans| && spans[s].Lo() < f.pc < spans[s].Hi() ==> s in f.inside)
  }

  ghost predicate StackPlaced(spans: seq<Span>, stack: Stack) {
    stack != [] && forall d :: 0 <= d < |stack| ==> WellPlaced(spans, stack[d])
  }

  ghost predicate ThreadsPlaced(spans: seq<Span>, threads: seq<Stack>) {
    forall t :: 0 <= t < |threads| ==> StackPlaced(spans, threads[t])
  }

  // ---------------------------------------------------------------- counting

  function StackInside(stack: Stack): nat {
    if stack == [] then 0 else |stack[0].inside| + StackInside(stack[1..])
  }

  /** The number of (activation, span) pairs inside a span, over all threads. */
  function Occupancy(threads: seq<Stack>): nat {
    if threads == [] then 0 else StackInside(threads[0]) + Occupancy(threads[1..])
  }

  function StackImbalance(spans: seq<Span>, stack: Stack): int {
    if stack == [] then 0
    else |Entering(spans, stack[0])| - |Leaving(spans, stack[0])| + StackImbalance(spans, stack[1..])
  }

  /** Frames standing on an unexecuted guard, less frames standing on an unexecuted unguard. */
  function Imbalance(spans: seq<Span>, threads: seq<Stack>): int {
    if threads == [] then 0 else StackImbalance(spans, threads[0]) + Imbalance(spans, threads[1..])
  }

  /** No activation of any thread is inside any span. */
  ghost predicate Quiescent(threads: seq<Stack>) {
    forall t, d :: 0 <= t < |threads| && 0 <= d < |threads[t]| ==> threads[t][d].inside == {}
  }

  lemma {:induction false} EmptyStack(stack: Stack)
    ensures StackInside(stack) == 0 <==> forall d :: 0 <= d < |stack| ==> stack[d].inside == {}
  {
    if stack != [] {
      EmptyStack(stack[1..]);
      assert stack == [stack[0]] + stack[1..];
    }
  }

  lemma {:induction false} QuiescentIsEmpty(threads: seq<Stack>)
    ensures Quiescent(threads) <==> Occupancy(threads) == 0
  {
    if threads != [] {
      EmptyStack(threads[0]);
      QuiescentIsEmpty(threads[1..]);
      assert threads == [threads[0]] + threads[1..];
      assert Quiescent(threads) ==> Quiescent(threads[1..]) by {
        assert forall t, d :: 0 <= t < |threads[1..]| && 0 <= d < |threads[1..][t]| ==>
          threads[1..][t][d] == threads[t + 1][d];
      }
      assert Quiescent(threads[1..]) && StackInside(threads[0]) == 0 ==> Quiescent(threads) by {
        assert forall t, d :: 1 <= t < |threads| && 0 <= d < |threads[t]| ==>
          threads[t][d] == threads[1..][t - 1][d];
      }
    }
  }

  lemma {:induction false} OccupancySplit(a: seq<Stack>, b: seq<Stack>)
    ensures Occupancy(a + b) == Occupancy(a) + Occupancy(b)
  {
    if a == [] {
      assert a + b == b;
    } else {
      assert (a + b)[0] == a[0] && (a + b)[1..] == a[1..] + b;
      OccupancySplit(a[1..], b);
    }
  }

  lemma OccupancyAt(threads: seq<Stack>, t: nat)
    requires t < |threads|
    ensures Occupancy(threads) == Occupancy(threads[..t]) + StackInside(threads[t]) + Occupancy(threads[t + 1..])
  {
    assert threads == threads[..t] + threads[t..] && threads[t..][1..] == threads[t + 1..];
    OccupancySplit(threads[..t], threads[t..]);
  }

  lemma OccupancyUpdate(threads: seq<Stack>, t: nat, stack: Stack)
    requires t < |threads|
    ensures Occupancy(threads[t := stack]) == Occupancy(threads) - StackInside(threads[t]) + StackInside(stack)
    ensures Occupancy(threads[..t] + threads[t + 1..]) == Occupancy(threads) - StackInside(threads[t])
  {
    var after := threads[t := stack];
    assert after[..t] == threads[..t] && after[t + 1..] == threads[t + 1..];
    OccupancyAt(threads, t);
    OccupancyAt(after, t);
    OccupancySplit(threads[..t], threads[t + 1..]);
  }

  // ---------------------------------------------------------------- what a scan counts

  function Pcs(stack: Stack): seq<nat> {
    seq(|stack|, i requires 0 <= i < |stack| => stack[i].pc)
  }

  /** What the unwinder saved of each stack: its innermost frames, at most 100 of them, or nothing. */
  ghost predicate SavedFrom(threads: seq<Stack>, tasks: seq<Saved>) {
    && |tasks| == |threads|
    && forall t :: 0 <= t < |threads| ==>
         tasks[t].entries == Pcs(threads[t])[..Min(|threads[t]|, MAX_STACK_ENTRIES)] || tasks[t].entries == []
  }

  function Min(a: nat, b: nat): nat {
    if a <= b then a else b
  }

  /** Every stack was saved from its innermost to its outermost frame. */
  ghost predicate SavedWhole(threads: seq<Stack>, tasks: seq<Saved>) {
    |tasks| == |threads| && forall t :: 0 <= t < |threads| ==> tasks[t].entries == Pcs(threads[t])
  }

  /** Of at most 100 frames none is left out: stacks are saved whole exactly where they are not deeper and
      were saved at all. */
  lemma SavedWholeExact(threads: seq<Stack>, tasks: seq<Saved>)
    requires SavedFrom(threads, tasks)
    ensures SavedWhole(threads, tasks) <==>
            forall t :: 0 <= t < |threads| ==> |threads[t]| <= 100 && (tasks[t].entries == [] ==> threads[t] == [])
  {
    forall t | 0 <= t < |threads|
      ensures tasks[t].entries == Pcs(threads[t]) <==> |threads[t]| <= 100 && (tasks[t].entries == [] ==> threads[t] == [])
    {
      assert |Pcs(threads[t])| == |threads[t]|;
      assert Pcs(threads[t])[..|threads[t]|] == Pcs(threads[t]);
    }
  }

  /** No frame stands on a probe that it has not executed. */
  ghost predicate NonePaused(spans: seq<Span>, threads: seq<Stack>) {
    forall t, d :: 0 <= t < |threads| && 0 <= d < |threads[t]| ==> Crossed(spans, threads[t][d])
  }

  lemma FrameCount(spans: seq<Span>, f: Frame)
    requires ValidSpans(spans) && WellPlaced(spans, f)
    ensures |InSpans(spans, f.pc)| == |f.inside| + |Entering(spans, f)| - |Leaving(spans, f)|
  {
    var e, l, seen := Entering(spans, f), Leaving(spans, f), InSpans(spans, f.pc);
    assert l <= f.inside;
    assert seen == (f.inside - l) + e;
    assert (f.inside - l) !! e;
    assert |f.inside - l| == |f.inside| - |l|;
  }

  lemma {:induction false} StackCount(spans: seq<Span>, stack: Stack)
    requires ValidSpans(spans)
    requires forall d :: 0 <= d < |stack| ==> WellPlaced(spans, stack[d])
    ensures Pairs(spans, Pcs(stack)) == StackInside(stack) + StackImbalance(spans, stack)
  {
    if stack != [] {
      FrameCount(spans, stack[0]);
      assert Pcs(stack)[1..] == Pcs(stack[1..]);
      StackCount(spans, stack[1..]);
    }
  }

  /** What a scan of whole stacks counts: the pairs inside, plus the frames about to enter, minus the
      frames about to leave. */
  lemma {:induction false} WholeScanCount(spans: seq<Span>, threads: seq<Stack>, tasks: seq<Saved>)
    requires ValidSpans(spans) && ThreadsPlaced(spans, threads) && SavedWhole(threads, tasks)
    ensures PairsOfTasks(spans, tasks) == Occupancy(threads) + Imbalance(spans, threads)
  {
    if threads != [] {
      assert StackPlaced(spans, threads[0]);
      StackCount(spans, threads[0]);
      assert ThreadsPlaced(spans, threads[1..]) by {
        assert forall t :: 0 <= t < |threads[1..]| ==> threads[1..][t] == threads[t + 1];
      }
      WholeScanCount(spans, threads[1..], tasks[1..]);
    }
  }

  lemma {:induction false} StackBalanced(spans: seq<Span>, stack: Stack)
    requires forall d :: 0 <= d < |stack| ==> Crossed(spans, stack[d])
    ensures StackImbalance(spans, stack) == 0
  {
    if stack != [] {
      StackBalanced(spans, stack[1..]);
    }
  }

  lemma {:induction false} Balanced(spans: seq<Span>, threads: seq<Stack>)
    requires NonePaused(spans, threads)
    ensures Imbalance(spans, threads) == 0
  {
    if threads != [] {
      StackBalanced(spans, threads[0]);
      assert NonePaused(spans, threads[1..]) by {
        assert forall t :: 0 <= t < |threads[1..]| ==> threads[1..][t] == threads[t + 1];
      }
      Balanced(spans, threads[1..]);
    }
  }

  // ---------------------------------------------------------------- steps

  /** When a thread can take a step.  Control flow enters a span only by executing the instruction at its
      `soff`, and leaves it only by executing the one at its `eoff`. */
  ghost predicate CanRun(spans: seq<Span>, stack: Stack, act: Action) {
    stack != [] &&
    match act
    case Advance(pc) => Crossed(spans, stack[0]) && Within(spans, pc) == stack[0].inside
    case Call(ret, entry) =>
      Crossed(spans, stack[0]) && Within(spans, ret) == stack[0].inside && Within(spans, entry) == {}
    case Return => |stack| > 1 && Crossed(spans, stack[0]) && stack[0].inside == {}
    case Guard(s) => s in Entering(spans, stack[0])
    case Unguard(s) => s in Leaving(spans, stack[0])
  }

  function StackAfter(stack: Stack, act: Action): Stack
    requires stack != []
  {
    match act
    case Advance(pc) => [stack[0].(pc := pc)] + stack[1..]
    case Call(ret, entry) => [Frame(entry, {})] + ([stack[0].(pc := ret)] + stack[1..])
    case Return => stack[1..]
    case Guard(s) => [stack[0].(inside := stack[0].inside + {s})] + stack[1..]
    case Unguard(s) => [stack[0].(inside := stack[0].inside - {s})] + stack[1..]
  }

  /** The handlers run only if their probe is registered. */
  function ModAfter(m: Module, act: Action, now: nat): Module {
    match act
    case Guard(s) => if s < |m.probes| && m.probes[s].guard then GuardFired(m, now) else m
    case Unguard(s) => if s < |m.probes| && m.probes[s].unguard then UnguardFired(m, now) else m
    case _ => m
  }

  ghost predicate CanStep(sys: System, step: Step) {
    && sys.clock <= step.now && step.now > 0
    && match step.event
       case Spawn(entry) => Within(sys.spans, entry) == {}
       case Exit(t) => t < |sys.threads| && StackInside(sys.threads[t]) == 0
       case Attach(outcomes) =>
         && |outcomes| == |sys.spans|
         && (sys.phase == Loaded || (sys.phase == Started(false) && sys.mod.state !in {Pending, Failed}))
       case Scan(tasks) => sys.phase.Attached? && SavedFrom(sys.threads, tasks)
       case Settle => sys.phase.Scanned?
       case Poll(_, _) => sys.phase == Started(false) || (!sys.phase.Loaded? && !sys.phase.Unloaded? && sys.phase.reverse)
       case Unload =>
         || (sys.phase == Started(false) && sys.mod.state == Failed)
         || (sys.phase == Started(true) && sys.mod.state != ReversePending)
       case Run(t, act) => t < |sys.threads| && CanRun(sys.spans, sys.threads[t], act)
  }

  /** The threads after a step. */
  ghost function ThreadsAfter(sys: System, step: Step): seq<Stack>
    requires CanStep(sys, step)
  {
    match step.event
    case Spawn(entry) => sys.threads + [[Frame(entry, {})]]
    case Exit(t) => sys.threads[..t] + sys.threads[t + 1..]
    case Run(t, act) => sys.threads[t := StackAfter(sys.threads[t], act)]
    case _ => sys.threads
  }

  ghost function Next(sys: System, step: Step): System
    requires CanStep(sys, step)
  {
    var after := sys.(threads := ThreadsAfter(sys, step), clock := step.now);
    match step.event
    case Attach(outcomes) =>
      after.(mod := ProbesAttached(sys.mod, outcomes), phase := Attached(sys.phase != Loaded))
    case Scan(tasks) =>
      after.(mod := StacksScanned(sys.mod, sys.spans, tasks, step.now), phase := Scanned(sys.phase.reverse))
    case Settle =>
      after.(mod := RoundSettled(sys.mod, sys.phase.reverse), phase := Started(sys.phase.reverse))
    case Poll(timeoutSec, pollIntervalMs) => after.(mod := DaemonTurn(sys.mod, timeoutSec, pollIntervalMs))
    case Unload => after.(phase := Unloaded)
    case Run(_, act) => after.(mod := ModAfter(sys.mod, act, step.now))
    case _ => after
  }

  ghost predicate IsInit(sys: System) {
    && ValidSpans(sys.spans) && ThreadsPlaced(sys.spans, sys.threads)
    && sys.mod == Module(0, false, Pending, 0, 0, NoProbes(|sys.spans|), 0, None)
    && sys.phase == Loaded
  }

  // ---------------------------------------------------------------- what every step keeps

  ghost predicate Placed(sys: System) {
    ValidSpans(sys.spans) && ThreadsPlaced(sys.spans, sys.threads) && |sys.mod.probes| == |sys.spans|
  }

  function Crossing(act: Action): int {
    if act.Guard? then 1 else if act.Unguard? then -1 else 0
  }

  lemma PlacedTop(spans: seq<Span>, f: Frame, rest: Stack)
    requires WellPlaced(spans, f) && forall d :: 0 <= d < |rest| ==> WellPlaced(spans, rest[d])
    ensures StackPlaced(spans, [f] + rest)
  {
  }

  lemma RunKeepsPlaced(spans: seq<Span>, stack: Stack, act: Action)
    requires ValidSpans(spans) && StackPlaced(spans, stack) && CanRun(spans, stack, act)
    ensures StackPlaced(spans, StackAfter(stack, act))
  {
    match act
    case Advance(pc) => PlacedTop(spans, stack[0].(pc := pc), stack[1..]);
    case Call(ret, entry) =>
      PlacedTop(spans, stack[0].(pc := ret), stack[1..]);
      PlacedTop(spans, Frame(entry, {}), [stack[0].(pc := ret)] + stack[1..]);
    case Return =>
    case Guard(s) => PlacedTop(spans, stack[0].(inside := stack[0].inside + {s}), stack[1..]);
    case Unguard(s) => PlacedTop(spans, stack[0].(inside := stack[0].inside - {s}), stack[1..]);
  }

  lemma RunCount(spans: seq<Span>, stack: Stack, act: Action)
    requires CanRun(spans, stack, act)
    ensures StackInside(StackAfter(stack, act)) == StackInside(stack) + Crossing(act)
  {
    match act
    case Call(ret, entry) => assert StackAfter(stack, act)[1..] == [stack[0].(pc := ret)] + stack[1..];
    case Unguard(s) => assert stack[0].inside == (stack[0].inside - {s}) + {s};
    case _ =>
  }

  lemma PlacedStep(sys: System, step: Step)
    requires Placed(sys) && CanStep(sys, step)
    ensures Placed(Next(sys, step))
  {
    assert ThreadsPlaced(sys.spans, ThreadsAfter(sys, step)) by {
      match step.event
      case Run(t, act) => RunKeepsPlaced(sys.spans, sys.threads[t], act);
      case _ =>
    }
    assert |Next(sys, step).mod.probes| == |sys.spans|;
  }

  /** How a step changes the occupancy: only crossing a probe does. */
  lemma OccupancyStep(sys: System, step: Step)
    requires CanStep(sys, step)
    ensures Occupancy(ThreadsAfter(sys, step)) ==
            Occupancy(sys.threads) + if step.event.Run? then Crossing(step.event.act) else 0
  {
    match step.event
    case Spawn(entry) =>
      OccupancySplit(sys.threads, [[Frame(entry, {})]]);
      assert StackInside([Frame(entry, {})]) == 0;
    case Exit(t) => OccupancyUpdate(sys.threads, t, []);
    case Run(t, act) =>
      RunCount(sys.spans, sys.threads[t], act);
      OccupancyUpdate(sys.threads, t, StackAfter(sys.threads[t], act));
    case _ =>
  }
}
