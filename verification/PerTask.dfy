/** The per-task transition (mode 1): `per_task_transition_handler` and `transition_done` of
    bpf/xkernel.bpf.h, with the loader's epoch and activation updates as steps. */
module PerTask {
  import opened SpanSearch

  /** A task's record in task-local storage; a new record is all zero. */
  datatype TaskData = TaskData(done: bool, epoch: nat, transitionStart: nat, transitionEnd: nat)

  const ZERO_DATA := TaskData(false, 0, 0, 0)

  datatype Runtime = Runtime(csLen: nat, cs: Table, ssLen: nat, ss: Table, active: bool, epoch: nat,
                             records: map<nat, TaskData>) {
    /** The table the check uses: safe spans if there are any. */
    function SpanTable(): Table { if ssLen > 0 then ss else cs }

    function SpanCount(): nat { if ssLen > 0 then ssLen else csLen }
  }

  /** What a guard probe sees: the task, the saved stack and the clock. */
  datatype Visit = Visit(task: nat, stack: seq<nat>, stackSize: nat, now: nat) {
    predicate Valid() { |stack| == MAX_STACK_DEPTH }
  }

  /** A bump reads the epoch from a dump of its map; a dump that cannot be read counts as epoch 0. */
  datatype Event = Guard(visit: Visit) | BumpEpoch(readable: bool) | Activate | Deactivate

  // ---------------------------------------------------------------- the operations, as functions

  function Refreshed(data: TaskData, epoch: nat): TaskData {
    if data.epoch != epoch then TaskData(false, epoch, 0, 0) else data
  }

  function Checked(data: TaskData, safe: bool, now: nat): TaskData {
    if data.done then data
    else data.(done := safe,
               transitionStart := if data.transitionStart == 0 then now else data.transitionStart,
               transitionEnd := if safe && data.transitionEnd == 0 then now else data.transitionEnd)
  }

  function Guarded(st: Runtime, v: Visit): Runtime
    requires v.Valid()
  {
    if st.csLen == 0 && st.ssLen == 0 then st
    else
      var data := if v.task in st.records then st.records[v.task] else ZERO_DATA;
      var safe := StackSafe(st.SpanTable(), st.SpanCount(), v.stack, v.stackSize);
      st.(records := st.records[v.task := Checked(Refreshed(data, st.epoch), safe, v.now)])
  }

  /** Writes the successor of the epoch that was read; packing one that does not fit a word raises. */
  function Bumped(st: Runtime, current: nat): Runtime {
    if current + 1 < U32 then st.(epoch := current + 1) else st
  }

  function Next(st: Runtime, event: Event): Runtime
    requires event.Guard? ==> event.visit.Valid()
  {
    match event
    case Guard(v) => Guarded(st, v)
    case BumpEpoch(readable) => Bumped(st, if readable then st.epoch else 0)
    case Activate => st.(active := true)
    case Deactivate => st.(active := false)
  }

  predicate TransitionDone(st: Runtime, task: nat) {
    st.active && task in st.records && st.records[task].done
  }

  // ---------------------------------------------------------------- the operations, as code

  class PerTaskRuntime {
    const csLen: nat
    const cs: Table
    const ssLen: nat
    const ss: Table
    var active: bool
    var epoch: nat
    var records: map<nat, TaskData>

    ghost function View(): Runtime
      reads this
    {
      Runtime(csLen, cs, ssLen, ss, active, epoch, records)
    }

    constructor (csLen: nat, cs: Table, ssLen: nat, ss: Table)
      ensures View() == Runtime(csLen, cs, ssLen, ss, false, 0, map[])
    {
      this.csLen, this.cs, this.ssLen, this.ss := csLen, cs, ssLen, ss;
      active, epoch, records := false, 0, map[];
    }

    method PerTaskTransitionHandler(v: Visit)
      requires v.Valid()
      modifies this`records
      ensures View() == Guarded(old(View()), v)
    {
      if csLen == 0 && ssLen == 0 {
        return;
      }
      var data := ZERO_DATA;
      if v.task in records {
        data := records[v.task];
      }
      if data.epoch != epoch {
        data := data.(done := false);
        data := data.(transitionStart := 0);
        data := data.(transitionEnd := 0);
        data := data.(epoch := epoch);
      }
      if !data.done {
        if data.transitionStart == 0 {
          data := data.(transitionStart := v.now);
        }
        var safe: bool;
        if ssLen > 0 {
          safe := CheckStackSafe(ss, ssLen, v.stack, v.stackSize);
        } else {
          safe := CheckStackSafe(cs, csLen, v.stack, v.stackSize);
        }
        data := data.(done := safe);
        if data.done && data.transitionEnd == 0 {
          data := data.(transitionEnd := v.now);
        }
      }
      records := records[v.task := data];
    }

    method IsTransitionDone(task: nat) returns (done: bool)
      ensures done == TransitionDone(View(), task)
    {
      if !active {
        return false;
      }
      if task !in records {
        return false;
      }
      return records[task].done;
    }
  }

  // ---------------------------------------------------------------- runs

  datatype History = History(states: seq<Runtime>, events: seq<Event>)

  ghost predicate Follows(h: History, i: nat)
    requires i < |h.events| && |h.states| == |h.events| + 1
  {
    && (h.events[i].Guard? ==> h.events[i].visit.Valid())
    && h.states[i + 1] == Next(h.states[i], h.events[i])
  }

  ghost predicate ValidHistory(h: History) {
    && |h.states| == |h.events| + 1
    && h.states[0].records == map[]
    && forall i :: 0 <= i < |h.events| ==> Follows(h, i)
  }

  /** Event j is a guard of the task, in the given epoch, whose stack check succeeded. */
  ghost predicate SafeGuard(h: History, j: nat, task: nat, epoch: nat)
    requires |h.states| == |h.events| + 1
  {
    && j < |h.events|
    && h.events[j].Guard? && h.events[j].visit.Valid() && h.events[j].visit.task == task
    && h.states[j].epoch == epoch
    && (h.states[j].csLen > 0 || h.states[j].ssLen > 0)
    && StackSafe(h.states[j].SpanTable(), h.states[j].SpanCount(), h.events[j].visit.stack, h.events[j].visit.stackSize)
  }

  /** A set flag was set by an earlier guard of the same task that found its stack safe, and the epoch
      stored beside it is the epoch of that guard. */
  lemma {:induction false} DoneHasSafeGuard(h: History, i: nat, task: nat)
    requires ValidHistory(h) && i < |h.states|
    requires task in h.states[i].records && h.states[i].records[task].done
    ensures exists j: nat :: j < i && SafeGuard(h, j, task, h.states[i].records[task].epoch)
  {
    assert i > 0;
    assert Follows(h, i - 1);
    var before := h.states[i - 1];
    if task in before.records && before.records[task].done
       && before.records[task].epoch == h.states[i].records[task].epoch {
      DoneHasSafeGuard(h, i - 1, task);
    } else {
      assert SafeGuard(h, i - 1, task, h.states[i].records[task].epoch);
    }
  }

  /** Every bump before event n could read the epoch. */
  ghost predicate AllReadable(h: History, n: nat)
    requires n <= |h.events|
  {
    forall m :: 0 <= m < n && h.events[m].BumpEpoch? ==> h.events[m].readable
  }

  /** The tables of a loaded constant do not change. */
  lemma {:induction false} TablesStay(h: History, i: nat, j: nat)
    requires ValidHistory(h) && i <= j < |h.states|
    ensures h.states[j].ss == h.states[i].ss && h.states[j].ssLen == h.states[i].ssLen
    ensures h.states[j].cs == h.states[i].cs && h.states[j].csLen == h.states[i].csLen
  {
    if i < j {
      TablesStay(h, i, j - 1);
      assert Follows(h, j - 1);
    }
  }

  /** As long as every bump could read it, the epoch never goes back. */
  lemma {:induction false} EpochGrows(h: History, i: nat, j: nat)
    requires ValidHistory(h) && i <= j < |h.states| && AllReadable(h, j)
    ensures h.states[i].epoch <= h.states[j].epoch
  {
    if i < j {
      EpochGrows(h, i, j - 1);
      assert Follows(h, j - 1);
    }
  }

  /** What one guard decides: a task that was done in this epoch keeps its whole record; otherwise it is done
      exactly if no scanned caller hits a safe span, or, without any safe span, a critical one. */
  lemma GuardDecides(st: Runtime, v: Visit)
    requires v.Valid() && (st.csLen > 0 || st.ssLen > 0)
    ensures var was := if v.task in st.records && st.records[v.task].epoch == st.epoch then st.records[v.task]
                       else TaskData(false, st.epoch, 0, 0);
            var after := Next(st, Guard(v)).records;
            && v.task in after && after[v.task].epoch == st.epoch
            && (was.done ==> after[v.task] == was)
            && (!was.done && st.ssLen > 0 ==>
                  (after[v.task].done <==>
                     && v.stackSize != 0
                     && forall d :: 1 <= d < 32 && 8 * (d + 1) <= v.stackSize ==> !Hit(st.ss, st.ssLen, v.stack[d])))
            && (!was.done && st.ssLen == 0 ==>
                  (after[v.task].done <==>
                     && v.stackSize != 0
                     && forall d :: 1 <= d < 32 && 8 * (d + 1) <= v.stackSize ==> !Hit(st.cs, st.csLen, v.stack[d])))
            && (!was.done ==> after[v.task].transitionStart == if was.transitionStart == 0 then v.now else was.transitionStart)
  {
  }

  /** A task that is not done has no end time. */
  lemma {:induction false} NoEndBeforeDone(h: History, i: nat, task: nat)
    requires ValidHistory(h) && i < |h.states| && task in h.states[i].records && !h.states[i].records[task].done
    ensures h.states[i].records[task].transitionEnd == 0
  {
    assert i > 0;
    assert Follows(h, i - 1);
    if task in h.states[i - 1].records && !h.states[i - 1].records[task].done {
      NoEndBeforeDone(h, i - 1, task);
    }
  }

  /** The end time of a task that is done is the time of the guard that found its stack safe. */
  lemma {:induction false} EndIsVerdict(h: History, i: nat, task: nat)
    requires ValidHistory(h) && i < |h.states| && task in h.states[i].records && h.states[i].records[task].done
    ensures exists j: nat ::
              && j < i && SafeGuard(h, j, task, h.states[i].records[task].epoch)
              && h.events[j].visit.now == h.states[i].records[task].transitionEnd
  {
    assert i > 0;
    assert Follows(h, i - 1);
    var before := h.states[i - 1];
    if task in before.records && before.records[task] == h.states[i].records[task] {
      EndIsVerdict(h, i - 1, task);
    } else {
      if task in before.records && !before.records[task].done {
        NoEndBeforeDone(h, i - 1, task);
      }
      assert SafeGuard(h, i - 1, task, h.states[i].records[task].epoch);
    }
  }

  /** The check used at a guard of a run, with the tables of any other of its states. */
  lemma GuardStack(h: History, j: nat, i: nat, task: nat, epoch: nat)
    requires ValidHistory(h) && j < i < |h.states| && SafeGuard(h, j, task, epoch)
    ensures var st, v := h.states[i], h.events[j].visit;
            if st.ssLen > 0 then StackSafe(st.ss, st.ssLen, v.stack, v.stackSize)
            else StackSafe(st.cs, st.csLen, v.stack, v.stackSize)
  {
    TablesStay(h, j, i);
  }

  /** No scanned caller of the visit lies inside one of the first `len` spans. */
  ghost predicate CallersOutside(table: Table, len: nat, v: Visit)
    requires v.Valid()
  {
    v.stackSize != 0 && forall d :: 1 <= d < 32 && 8 * (d + 1) <= v.stackSize ==> !Inside(table, len, v.stack[d])
  }

  /** Whenever the runtime says that a task's transition is done, the constant is active and an earlier
      guard of that task, in the epoch its record stores, found every scanned caller frame outside every
      safe span, or every critical span if no safe spans are loaded, for sorted spans without a hole that fit
      the table. */
  lemma TransitionDoneIsSafe(h: History, i: nat, task: nat)
    requires ValidHistory(h) && i < |h.states| && TransitionDone(h.states[i], task)
    requires var st := h.states[i];
             if st.ssLen > 0 then st.ssLen <= MAX_SPANS && Ordered(st.ss, st.ssLen) && NoHole(st.ss, st.ssLen)
             else st.csLen <= MAX_SPANS && Ordered(st.cs, st.csLen) && NoHole(st.cs, st.csLen)
    ensures h.states[i].active
    ensures exists j: nat ::
              && j < i && SafeGuard(h, j, task, h.states[i].records[task].epoch)
              && (h.states[i].ssLen > 0 ==> CallersOutside(h.states[i].ss, h.states[i].ssLen, h.events[j].visit))
              && (h.states[i].ssLen == 0 ==> CallersOutside(h.states[i].cs, h.states[i].csLen, h.events[j].visit))
  {
    DoneHasSafeGuard(h, i, task);
    var j: nat :| j < i && SafeGuard(h, j, task, h.states[i].records[task].epoch);
    GuardStack(h, j, i, task, h.states[i].records[task].epoch);
    TablesStay(h, j, i);
    var st, v := h.states[i], h.events[j].visit;
    if st.ssLen > 0 {
      StackSafeIsLinear(st.ss, st.ssLen, v.stack, v.stackSize);
    } else {
      StackSafeIsLinear(st.cs, st.csLen, v.stack, v.stackSize);
    }
  }

  /** The last switch before state i. */
  ghost predicate LastSwitch(h: History, j: nat, i: nat)
    requires i <= |h.events|
  {
    && j < i && (h.events[j].Activate? || h.events[j].Deactivate?)
    && forall m :: j < m < i ==> !h.events[m].Activate? && !h.events[m].Deactivate?
  }

  lemma {:induction false} ActiveIsLastSwitch(h: History, j: nat, i: nat)
    requires ValidHistory(h) && i < |h.states| && LastSwitch(h, j, i)
    ensures h.states[i].active <==> h.events[j].Activate?
  {
    assert Follows(h, i - 1);
    if j < i - 1 {
      ActiveIsLastSwitch(h, j, i - 1);
    }
  }

  /** Only the task's own guard clears its flag, and only after the epoch has moved on. */
  lemma FlagClearedOnlyByGuard(st: Runtime, event: Event, task: nat)
    requires event.Guard? ==> event.visit.Valid()
    requires task in st.records && st.records[task].done
    requires !(task in Next(st, event).records && Next(st, event).records[task].done)
    ensures event.Guard? && event.visit.task == task && st.records[task].epoch != st.epoch
  {
  }

  /** Once a guard of the task has run, its record's epoch is at least that guard's. */
  lemma {:induction false} RecordEpochGrows(h: History, j: nat, i: nat, task: nat)
    requires ValidHistory(h) && j < i < |h.states| && AllReadable(h, i)
    requires SafeGuard(h, j, task, h.states[j].epoch)
    ensures task in h.states[i].records && h.states[j].epoch <= h.states[i].records[task].epoch
  {
    assert Follows(h, i - 1);
    EpochGrows(h, j, i - 1);
    if j < i - 1 {
      RecordEpochGrows(h, j, i - 1, task);
    }
  }

  /** A record is never ahead of the runtime. */
  lemma {:induction false} RecordNotAhead(h: History, i: nat, task: nat)
    requires ValidHistory(h) && i < |h.states| && AllReadable(h, i) && task in h.states[i].records
    ensures h.states[i].records[task].epoch <= h.states[i].epoch
  {
    assert i > 0;
    assert Follows(h, i - 1);
    if task in h.states[i - 1].records {
      RecordNotAhead(h, i - 1, task);
    }
  }

  /** A verdict stays for as long as the record's epoch does. */
  lemma {:induction false} VerdictStays(h: History, j: nat, i: nat, task: nat)
    requires ValidHistory(h) && j < i < |h.states| && AllReadable(h, i)
    requires SafeGuard(h, j, task, h.states[j].epoch)
    requires task in h.states[i].records && h.states[i].records[task].epoch == h.states[j].epoch
    ensures h.states[i].records[task].done
  {
    assert Follows(h, i - 1);
    if j < i - 1 {
      RecordEpochGrows(h, j, i - 1, task);
      RecordNotAhead(h, i - 1, task);
      if h.states[i - 1].records[task].epoch == h.states[j].epoch {
        VerdictStays(h, j, i - 1, task);
      }
    }
  }

  /** If every bump could read the epoch, the runtime says that a task's transition is done exactly when the
      constant is active and the task passed a guard safely in the epoch that its record stores. */
  lemma TransitionDoneExactly(h: History, i: nat, task: nat)
    requires ValidHistory(h) && i < |h.states| && AllReadable(h, i)
    ensures TransitionDone(h.states[i], task) <==>
            && h.states[i].active && task in h.states[i].records
            && exists j: nat :: j < i && SafeGuard(h, j, task, h.states[i].records[task].epoch)
  {
    if task in h.states[i].records {
      var epoch := h.states[i].records[task].epoch;
      if h.states[i].records[task].done {
        DoneHasSafeGuard(h, i, task);
      } else if j: nat :| j < i && SafeGuard(h, j, task, epoch) {
        VerdictStays(h, j, i, task);
        assert false;
      }
    }
  }

  /** Ending an epoch does not end the verdicts given in it: a task that was done stays done until its
      next guard.  A verdict is one of the current epoch exactly when the record's epoch says so, that is,
      exactly when the task passed a guard safely in the current epoch, if every bump could read it. */
  lemma StaleVerdicts(h: History, i: nat, task: nat, readable: bool)
    requires ValidHistory(h) && i < |h.states| && TransitionDone(h.states[i], task)
    ensures TransitionDone(Next(h.states[i], BumpEpoch(readable)), task)
    ensures AllReadable(h, i) ==>
              && h.states[i].records[task].epoch <= h.states[i].epoch
              && (h.states[i].records[task].epoch == h.states[i].epoch <==>
                    exists j: nat :: j < i && SafeGuard(h, j, task, h.states[i].epoch))
  {
    if AllReadable(h, i) {
      DoneHasSafeGuard(h, i, task);
      var j: nat :| j < i && SafeGuard(h, j, task, h.states[i].records[task].epoch);
      EpochGrows(h, j, i);
      if k: nat :| k < i && SafeGuard(h, k, task, h.states[i].epoch) {
        RecordEpochGrows(h, k, i, task);
      }
    }
  }

  /** A bump advances the epoch exactly when it could read it or there was nothing to read yet. */
  lemma BumpAdvancesExactly(st: Runtime, readable: bool)
    requires st.epoch + 1 < U32
    ensures Next(st, BumpEpoch(readable)).epoch > st.epoch <==> readable || st.epoch == 0
    ensures Next(st, BumpEpoch(readable)).epoch == if readable then st.epoch + 1 else 1
  {
  }

  /** The largest epoch has no successor. */
  lemma LastEpochStays(st: Runtime)
    requires st.epoch == 0xFFFF_FFFF
    ensures Next(st, BumpEpoch(true)).epoch == 0xFFFF_FFFF
  {
  }

  /** Otherwise it goes back to epoch 1, and the verdicts of that epoch count again: the task's next guards
      do not look at its stack. */
  lemma UnreadableDumpRevivesVerdicts(st: Runtime, v: Visit)
    requires v.Valid() && TransitionDone(st, v.task) && st.records[v.task].epoch == 1
    ensures var after := Next(Next(st, BumpEpoch(false)), Guard(v));
            TransitionDone(after, v.task) && after.records[v.task] == st.records[v.task]
  {
  }
}
