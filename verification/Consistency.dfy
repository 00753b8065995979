/** The global consistency module: kernel/consistency/core.h, core.c and kprobe.c.

    `Module` is the module's shared state as a value, and the functions over it say what each routine
    does to that state.  Class `ConsistencyModule` holds the same state in mutable fields; its methods
    are the routines, each proved to change the state exactly as its function says.  Time is an argument
    (`now`), as are the results of `register_kprobe` and of the stack unwinder. */
module Consistency {
  import opened Wrappers

  const WORD: nat := 0x1_0000_0000_0000_0000
  const MAX_STACK_ENTRIES: nat := 100

  datatype XkState = Pending | Done | Failed | ReversePending | ReverseDone | ReverseFailed

  /** One `struct xk_target_func`; the offsets are added in 64-bit arithmetic. */
  datatype Span = Span(funcAddr: nat, soff: nat, eoff: nat) {
    function Lo(): nat { (funcAddr + soff) % WORD }
    function Hi(): nat { (funcAddr + eoff) % WORD }
  }

  predicate AddrInSpan(addr: nat, span: Span) {
    span.Lo() <= addr < span.Hi()
  }

  /** The bounds of a span are 64-bit words: a sum that does not fit one wraps around. */
  lemma SpanBounds(span: Span)
    requires span.funcAddr < WORD && span.soff < WORD && span.eoff < WORD
    ensures span.Lo() == span.funcAddr + span.soff - if span.funcAddr + span.soff < 0x1_0000_0000_0000_0000 then 0 else 0x1_0000_0000_0000_0000
    ensures span.Hi() == span.funcAddr + span.eoff - if span.funcAddr + span.eoff < 0x1_0000_0000_0000_0000 then 0 else 0x1_0000_0000_0000_0000
  {
  }

  /** Which of a span's two probes are registered. */
  datatype Probe = Probe(guard: bool, unguard: bool)

  /** What `save_stack` got for one task: the saved addresses, innermost first, and whether the task is
      a `migration/` thread, whose empty stack is not an error. */
  datatype Saved = Saved(entries: seq<nat>, migration: bool)

  datatype Timing = Timing(start: nat, end: nat, elapsed: int, reverse: bool)

  /** `nap` is the poll limit computed before the daemon went to sleep in `schedule_timeout`;
      it is None while the daemon is not in that call. */
  datatype Module = Module(refcount: int, enabled: bool, state: XkState, tStart: nat, tEnd: nat,
                           probes: seq<Probe>, pollCount: int, nap: Option<int>)

  // ---------------------------------------------------------------- counting

  /** The spans that the scan finds an address in. */
  function InSpans(spans: seq<Span>, addr: nat): set<nat> {
    set s | 0 <= s < |spans| && AddrInSpan(addr, spans[s])
  }

  /** The number of (frame, span) pairs on one saved stack. */
  function Pairs(spans: seq<Span>, entries: seq<nat>): nat {
    if entries == [] then 0 else |InSpans(spans, entries[0])| + Pairs(spans, entries[1..])
  }

  /** The number of saved addresses inside one span: what one pass of the inner loop adds. */
  function Hits(span: Span, entries: seq<nat>): nat {
    if entries == [] then 0
    else Hits(span, entries[..|entries| - 1]) + if AddrInSpan(entries[|entries| - 1], span) then 1 else 0
  }

  function HitsOfSpans(spans: seq<Span>, entries: seq<nat>): nat {
    if spans == [] then 0
    else HitsOfSpans(spans[..|spans| - 1], entries) + Hits(spans[|spans| - 1], entries)
  }

  lemma {:induction false} HitsCons(span: Span, a: nat, rest: seq<nat>)
    ensures Hits(span, [a] + rest) == Hits(span, rest) + if AddrInSpan(a, span) then 1 else 0
    decreases |rest|
  {
    var all := [a] + rest;
    if rest == [] {
      assert all[..0] == [];
    } else {
      assert all[..|all| - 1] == [a] + rest[..|rest| - 1];
      HitsCons(span, a, rest[..|rest| - 1]);
    }
  }

  lemma {:induction false} HitsOfSpansCons(spans: seq<Span>, a: nat, rest: seq<nat>)
    ensures HitsOfSpans(spans, [a] + rest) == |InSpans(spans, a)| + HitsOfSpans(spans, rest)
    decreases |spans|
  {
    if spans == [] {
      assert InSpans(spans, a) == {};
    } else {
      var n := |spans| - 1;
      HitsOfSpansCons(spans[..n], a, rest);
      HitsCons(spans[n], a, rest);
      var fewer := InSpans(spans[..n], a);
      if AddrInSpan(a, spans[n]) {
        assert InSpans(spans, a) == fewer + {n};
      } else {
        assert InSpans(spans, a) == fewer;
      }
    }
  }

  /** Counting span by span, as the nested loops do, and counting frame by frame agree. */
  lemma {:induction false} SpanMajorIsFrameMajor(spans: seq<Span>, entries: seq<nat>)
    ensures HitsOfSpans(spans, entries) == Pairs(spans, entries)
  {
    if entries == [] {
      NoEntriesNoHits(spans);
    } else {
      SpanMajorIsFrameMajor(spans, entries[1..]);
      assert entries == [entries[0]] + entries[1..];
      HitsOfSpansCons(spans, entries[0], entries[1..]);
    }
  }

  lemma NoEntriesNoHits(spans: seq<Span>)
    ensures HitsOfSpans(spans, []) == 0
  {
  }

  datatype ScanCount = ScanCount(refcount: int, needWait: bool, failed: bool)

  /** The loop over all tasks: it stops at the first task whose stack could not be saved. */
  function ScanTasks(spans: seq<Span>, tasks: seq<Saved>, refcount: int, needWait: bool): ScanCount {
    if tasks == [] then ScanCount(refcount, needWait, false)
    else if tasks[0].entries == [] && !tasks[0].migration then ScanCount(refcount, needWait, true)
    else
      var found := Pairs(spans, tasks[0].entries);
      ScanTasks(spans, tasks[1..], refcount + found, needWait || found > 0)
  }

  predicate AllSaved(tasks: seq<Saved>) {
    forall i :: 0 <= i < |tasks| ==> tasks[i].entries != [] || tasks[i].migration
  }

  function PairsOfTasks(spans: seq<Span>, tasks: seq<Saved>): nat {
    if tasks == [] then 0 else Pairs(spans, tasks[0].entries) + PairsOfTasks(spans, tasks[1..])
  }

  /** The scan reaches its end exactly when every stack was saved; it then has counted every pair, and
      it asks to wait exactly when there is one. */
  lemma {:induction false} ScanTasksMeaning(spans: seq<Span>, tasks: seq<Saved>, refcount: int, needWait: bool)
    ensures var r := ScanTasks(spans, tasks, refcount, needWait);
            && r.refcount >= refcount
            && (!r.failed <==> AllSaved(tasks))
            && (!r.failed ==> r.refcount == refcount + PairsOfTasks(spans, tasks))
            && (!r.failed ==> (r.needWait <==> needWait || PairsOfTasks(spans, tasks) > 0))
    decreases tasks
  {
    if tasks != [] {
      var found := Pairs(spans, tasks[0].entries);
      ScanTasksMeaning(spans, tasks[1..], refcount + found, needWait || found > 0);
      assert AllSaved(tasks) <==> (tasks[0].entries != [] || tasks[0].migration) && AllSaved(tasks[1..]) by {
        assert forall i :: 1 <= i < |tasks| ==> tasks[i] == tasks[1..][i - 1];
      }
    }
  }

  // ---------------------------------------------------------------- the routines, as functions

  function EndRecorded(m: Module, now: nat): Module {
    if m.tEnd == 0 then m.(tEnd := now) else m
  }

  function GuardFired(m: Module, now: nat): Module {
    if !m.enabled then m
    else if m.refcount == 0 then EndRecorded(m, now)
    else m.(refcount := m.refcount + 1)
  }

  function UnguardFired(m: Module, now: nat): Module {
    if !m.enabled || m.refcount <= 0 then m
    else if m.refcount == 1 then EndRecorded(m.(refcount := 0), now)
    else m.(refcount := m.refcount - 1)
  }

  function ProbesAttached(m: Module, outcomes: seq<Probe>): Module {
    m.(enabled := false, refcount := 0, probes := outcomes)
  }

  function NoProbes(n: nat): seq<Probe> {
    seq(n, _ => Probe(false, false))
  }

  function ProbesDetached(m: Module): Module {
    m.(probes := NoProbes(|m.probes|))
  }

  function StacksScanned(m: Module, spans: seq<Span>, tasks: seq<Saved>, now: nat): Module {
    var r := ScanTasks(spans, tasks, m.refcount, false);
    var counted := m.(refcount := r.refcount);
    if !r.failed && r.needWait then counted.(enabled := true, tStart := now) else counted
  }

  /** The end of `consistency_init` (forward) and of `consistency_exit` (reverse), after the scan. */
  function RoundSettled(m: Module, reverse: bool): Module {
    if m.enabled then (if reverse then m.(state := ReversePending) else m)
    else ProbesDetached(m).(state := if reverse then ReverseDone else Done)
  }

  predicate Terminal(s: XkState) {
    s != Pending && s != ReversePending
  }

  /** C division truncates toward zero; the divisor is at least 1. */
  function MaxPolls(timeoutSec: int, pollIntervalMs: int): int {
    var d := if pollIntervalMs > 1 then pollIntervalMs else 1;
    if timeoutSec >= 0 then timeoutSec * 1000 / d else -((-timeoutSec) * 1000 / d)
  }

  lemma QuotientBounds(x: nat, p: nat, n: int)
    requires p >= 1 && n == x / p
    ensures n >= 0 && n * p <= x < (n + 1) * p
  {
    assert x == n * p + x % p;
  }

  lemma ProductGrows(a: nat, b: nat, p: nat)
    requires a <= b
    ensures a * p <= b * p
  {
    assert b * p == a * p + (b - a) * p;
  }

  lemma OneQuotient(x: nat, p: nat, m: nat, n: nat)
    requires m * p <= x < (m + 1) * p && n * p <= x < (n + 1) * p
    ensures m <= n
  {
    if m > n {
      ProductGrows(n + 1, m, p);
    }
  }

  /** The limit is the number of whole poll intervals, each of a millisecond at least, that fit into the
      time-out; it is not positive for a negative time-out. */
  lemma PollLimit(timeoutSec: int, pollIntervalMs: int, p: nat)
    requires p == if pollIntervalMs < 1 then 1 else pollIntervalMs
    ensures var n := MaxPolls(timeoutSec, pollIntervalMs);
            if timeoutSec >= 0 then n >= 0 && n * p <= 1000 * timeoutSec < (n + 1) * p else n <= 0
  {
    if timeoutSec >= 0 {
      QuotientBounds(timeoutSec * 1000, p, MaxPolls(timeoutSec, pollIntervalMs));
    } else {
      QuotientBounds(-timeoutSec * 1000, p, (-timeoutSec) * 1000 / p);
    }
  }

  /** Those inequalities have one solution. */
  lemma OnePollLimit(timeoutSec: int, pollIntervalMs: int, p: nat, n: nat)
    requires p == if pollIntervalMs < 1 then 1 else pollIntervalMs
    requires timeoutSec >= 0 && n * p <= 1000 * timeoutSec < (n + 1) * p
    ensures MaxPolls(timeoutSec, pollIntervalMs) == n
  {
    PollLimit(timeoutSec, pollIntervalMs, p);
    OneQuotient(1000 * timeoutSec, p, n, MaxPolls(timeoutSec, pollIntervalMs));
    OneQuotient(1000 * timeoutSec, p, MaxPolls(timeoutSec, pollIntervalMs), n);
  }

  function NapEnded(m: Module): Module {
    if m.nap.None? then m
    else
      var polled := m.(pollCount := m.pollCount + 1, nap := None);
      if polled.pollCount > m.nap.value then
        ProbesDetached(polled).(state := if m.state == ReversePending then ReverseFailed else Failed,
                                pollCount := 0)
      else polled
  }

  function LoopTop(m: Module, timeoutSec: int, pollIntervalMs: int): Module {
    if Terminal(m.state) then m
    else if m.refcount == 0 then
      ProbesDetached(m).(tStart := 0, tEnd := 0, pollCount := 0,
                         state := if m.state == ReversePending then ReverseDone else Done)
    else m.(nap := Some(MaxPolls(timeoutSec, pollIntervalMs)))
  }

  /** One turn of the daemon from the point where it is woken to the point where it sleeps again. */
  function DaemonTurn(m: Module, timeoutSec: int, pollIntervalMs: int): Module {
    LoopTop(NapEnded(m), timeoutSec, pollIntervalMs)
  }

  /** The limit with which a turn of the daemon goes to sleep. */
  lemma NapLimit(m: Module, timeoutSec: int, pollIntervalMs: int, p: nat)
    requires p == if pollIntervalMs < 1 then 1 else pollIntervalMs
    ensures var n := DaemonTurn(m, timeoutSec, pollIntervalMs).nap;
            && (n.Some? && timeoutSec >= 0 ==> n.value >= 0 && n.value * p <= 1000 * timeoutSec < (n.value + 1) * p)
            && (n.Some? && timeoutSec < 0 ==> n.value <= 0)
  {
    PollLimit(timeoutSec, pollIntervalMs, p);
    FreshNap(m, timeoutSec, pollIntervalMs);
  }

  lemma FreshNap(m: Module, timeoutSec: int, pollIntervalMs: int)
    ensures var n := DaemonTurn(m, timeoutSec, pollIntervalMs).nap; n.Some? ==> n.value == MaxPolls(timeoutSec, pollIntervalMs)
  {
  }

  /** Nanoseconds to microseconds, truncated toward zero. */
  function Micros(ns: int): int {
    if ns >= 0 then ns / 1000 else -(-ns / 1000)
  }

  lemma MicrosExact(ns: nat)
    ensures 0 <= Micros(ns) && Micros(ns) * 1000 <= ns < (Micros(ns) + 1) * 1000
  {
  }

  /** A handler of an enabled round that finds the count at zero, or brings it there, leaves an end time
      behind: the earlier one if there is one, otherwise its own. */
  lemma ZeroIsTimed(m: Module, now: nat)
    requires m.enabled
    ensures m.refcount == 0 ==> GuardFired(m, now) == m.(tEnd := if m.tEnd == 0 then now else m.tEnd)
    ensures m.refcount == 1 ==> UnguardFired(m, now) == m.(refcount := 0, tEnd := if m.tEnd == 0 then now else m.tEnd)
    ensures m.refcount == 0 ==> UnguardFired(m, now) == m
  {
  }

  /** The timing record that a turn of the daemon writes: of a time-out, if the nap was one too many, or
      of a round that it finds ended. */
  function Reported(m: Module): Option<Timing> {
    var napped := NapEnded(m);
    if m.nap.Some? && m.pollCount + 1 > m.nap.value then Some(Timing(m.tStart, 0, -1, m.state == ReversePending))
    else if !Terminal(napped.state) && napped.refcount == 0 then
      Some(Timing(m.tStart, m.tEnd, Micros(m.tEnd - m.tStart), m.state == ReversePending))
    else None
  }

  // ---------------------------------------------------------------- the routines, as code

  class ConsistencyModule {
    const spans: seq<Span>
    var refcount: int
    var enabled: bool
    var state: XkState
    var tStart: nat
    var tEnd: nat
    var probes: seq<Probe>
    var pollCount: int
    var nap: Option<int>

    constructor (spans: seq<Span>)
      ensures this.spans == spans && Valid()
      ensures View() == Module(0, false, Pending, 0, 0, NoProbes(|spans|), 0, None)
    {
      this.spans := spans;
      refcount, enabled, state, tStart, tEnd, pollCount, nap := 0, false, Pending, 0, 0, 0, None;
      probes := NoProbes(|spans|);
    }

    ghost predicate Valid()
      reads this
    {
      |probes| == |spans|
    }

    ghost function View(): Module
      reads this
    {
      Module(refcount, enabled, state, tStart, tEnd, probes, pollCount, nap)
    }

    method RecordEndTime(now: nat)
      modifies this`tEnd
      ensures View() == EndRecorded(old(View()), now)
    {
      if tEnd == 0 {
        tEnd := now;
      }
    }

    /** `atomic_inc_not_zero`: reports whether it incremented. */
    method RefcountIncNotZero() returns (incremented: bool)
      modifies this`refcount
      ensures incremented == (old(refcount) != 0)
      ensures refcount == old(refcount) + if incremented then 1 else 0
    {
      incremented := refcount != 0;
      if incremented {
        refcount := refcount + 1;
      }
    }

    /** `atomic_dec_if_positive`: the decremented value, stored only if it is not negative. */
    method RefcountDecIfPositive() returns (value: int)
      modifies this`refcount
      ensures value == old(refcount) - 1
      ensures refcount == if value < 0 then old(refcount) else value
    {
      value := refcount - 1;
      if value >= 0 {
        refcount := value;
      }
    }

    method HandlerGuard(now: nat)
      modifies this`refcount, this`tEnd
      ensures View() == GuardFired(old(View()), now)
    {
      if !enabled {
        return;
      }
      var incremented := RefcountIncNotZero();
      if !incremented {
        RecordEndTime(now);
      }
    }

    method HandlerUnguard(now: nat)
      modifies this`refcount, this`tEnd
      ensures View() == UnguardFired(old(View()), now)
    {
      if !enabled {
        return;
      }
      var value := RefcountDecIfPositive();
      if value == 0 {
        RecordEndTime(now);
      }
    }

    /** `outcomes[i]` says which of span i's two registrations succeed; a failure is only logged. */
    method AttachAuxKprobes(outcomes: seq<Probe>)
      requires Valid() && |outcomes| == |spans|
      modifies this`enabled, this`refcount, this`probes
      ensures Valid() && View() == ProbesAttached(old(View()), outcomes)
      ensures probes == outcomes && !enabled && refcount == 0
    {
      enabled := false;
      refcount := 0;
      var i := 0;
      while i < |spans|
        invariant 0 <= i <= |spans| && Valid()
        invariant probes[..i] == outcomes[..i]
        invariant !enabled && refcount == 0
      {
        probes := probes[i := Probe(false, false)];
        if outcomes[i].guard {
          probes := probes[i := probes[i].(guard := true)];
        }
        if outcomes[i].unguard {
          probes := probes[i := probes[i].(unguard := true)];
        }
        i := i + 1;
      }
    }

    method DetachAuxKprobes()
      requires Valid()
      modifies this`probes
      ensures Valid() && View() == ProbesDetached(old(View()))
      ensures forall i :: 0 <= i < |probes| ==> !probes[i].guard && !probes[i].unguard
    {
      var i := 0;
      while i < |spans|
        invariant 0 <= i <= |spans| && Valid()
        invariant forall k :: 0 <= k < i ==> probes[k] == Probe(false, false)
      {
        if probes[i].guard {
          probes := probes[i := probes[i].(guard := false)];
        }
        if probes[i].unguard {
          probes := probes[i := probes[i].(unguard := false)];
        }
        i := i + 1;
      }
    }

    method CheckTaskInSpans(entries: seq<nat>) returns (found: bool)
      modifies this`refcount
      ensures refcount == old(refcount) + Pairs(spans, entries)
      ensures found <==> Pairs(spans, entries) > 0
    {
      found := false;
      var j := 0;
      while j < |spans|
        invariant 0 <= j <= |spans|
        invariant refcount == old(refcount) + HitsOfSpans(spans[..j], entries)
        invariant found <==> HitsOfSpans(spans[..j], entries) > 0
      {
        assert spans[..j + 1][..j] == spans[..j];
        var i := 0;
        while i < |entries|
          invariant 0 <= i <= |entries|
          invariant refcount == old(refcount) + HitsOfSpans(spans[..j], entries) + Hits(spans[j], entries[..i])
          invariant found <==> HitsOfSpans(spans[..j], entries) + Hits(spans[j], entries[..i]) > 0
        {
          assert entries[..i + 1][..i] == entries[..i];
          if AddrInSpan(entries[i], spans[j]) {
            refcount := refcount + 1;
            found := true;
          }
          i := i + 1;
        }
        assert entries[..i] == entries;
        j := j + 1;
      }
      assert spans[..j] == spans;
      SpanMajorIsFrameMajor(spans, entries);
    }

    method StopMachineCheckStacks(tasks: seq<Saved>, now: nat)
      modifies this`refcount, this`enabled, this`tStart
      ensures View() == StacksScanned(old(View()), spans, tasks, now)
    {
      var needWait := false;
      var i := 0;
      while i < |tasks|
        invariant 0 <= i <= |tasks|
        invariant enabled == old(enabled) && tStart == old(tStart)
        invariant ScanTasks(spans, tasks, old(refcount), false) == ScanTasks(spans, tasks[i..], refcount, needWait)
      {
        var entries := tasks[i].entries;
        assert tasks[i..][1..] == tasks[i + 1..];
        if entries == [] && !tasks[i].migration {
          return;
        }
        if entries != [] {
          var found := CheckTaskInSpans(entries);
          needWait := needWait || found;
        }
        i := i + 1;
      }
      if needWait {
        enabled := true;
        tStart := now;
      }
    }

    /** `report` is the timing record of an instant transition. */
    method SettleRound(reverse: bool, now: nat) returns (report: Option<Timing>)
      requires Valid()
      modifies this`state, this`probes
      ensures Valid() && View() == RoundSettled(old(View()), reverse)
      ensures report == if old(enabled) then None else Some(Timing(now, now, 0, reverse))
    {
      report := None;
      if enabled {
        if reverse {
          state := ReversePending;
        }
      } else {
        report := Some(Timing(now, now, 0, reverse));
        DetachAuxKprobes();
        state := if reverse then ReverseDone else Done;
      }
    }

    /** The body of the daemon's loop, cut at the point where the daemon sleeps.  `report` is the timing
        record of the turn; at most one is written, as a round that timed out is not looked at again. */
    method DaemonWake(timeoutSec: int, pollIntervalMs: int) returns (report: Option<Timing>)
      requires Valid()
      modifies this`state, this`probes, this`pollCount, this`nap, this`tStart, this`tEnd
      ensures Valid() && View() == DaemonTurn(old(View()), timeoutSec, pollIntervalMs)
      ensures report == Reported(old(View()))
    {
      report := None;
      if nap.Some? {
        var limit := nap.value;
        nap := None;
        pollCount := pollCount + 1;
        if pollCount > limit {
          report := Some(Timing(tStart, 0, -1, state == ReversePending));
          DetachAuxKprobes();
          state := if state == ReversePending then ReverseFailed else Failed;
          pollCount := 0;
        }
      }
      var maxPolls := MaxPolls(timeoutSec, pollIntervalMs);
      if Terminal(state) {
        return;
      }
      if refcount == 0 {
        report := Some(Timing(tStart, tEnd, Micros(tEnd - tStart), state == ReversePending));
        tStart := 0;
        tEnd := 0;
        DetachAuxKprobes();
        state := if state == ReversePending then ReverseDone else Done;
        pollCount := 0;
      } else {
        nap := Some(maxPolls);
      }
    }
  }
}
