/** The binary search over the sorted span table: `bs_fn`, `ss_bs_fn` and `check_stack_safe` of
    bpf/xkernel.bpf.h.  All index arithmetic is 32-bit and wraps. */
module SpanSearch {
  const U32: nat := 0x1_0000_0000
  const MAX_SPANS: nat := 64
  const MAX_BPF_LOOP: nat := 128
  const MAX_STACK_DEPTH: nat := 32

  datatype CriticalSpan = CriticalSpan(soff: nat, eoff: nat)

  /** An array map with 64 entries. */
  type Table = t: seq<CriticalSpan> | |t| == MAX_SPANS witness seq(MAX_SPANS, _ => CriticalSpan(0, 0))

  datatype BsCtx = BsCtx(addr: nat, left: nat, right: nat, found: bool, start: nat, end: nat, matchIdx: nat)

  // ---------------------------------------------------------------- the search, as functions

  predicate Stops(table: Table, ctx: BsCtx) {
    ctx.left > ctx.right || (ctx.left + ctx.right) % U32 / 2 >= MAX_SPANS
  }

  function BsStep(table: Table, ctx: BsCtx): BsCtx
    requires !Stops(table, ctx)
  {
    var mid := (ctx.left + ctx.right) % U32 / 2;
    if ctx.addr >= table[mid].soff then
      ctx.(start := table[mid].soff, end := table[mid].eoff, matchIdx := mid, found := true, left := mid + 1)
    else ctx.(right := (mid + U32 - 1) % U32)
  }

  function BsLoop(table: Table, ctx: BsCtx, n: nat): BsCtx
    decreases n, ctx.addr
  {
    if n == 0 || Stops(table, ctx) then ctx else BsLoop(table, BsStep(table, ctx), n - 1)
  }

  function BsStart(len: nat, addr: nat): BsCtx {
    BsCtx(addr, 0, (len + U32 - 1) % U32, false, 0, 0, 0)
  }

  /** What the code takes for "the address is inside a span". */
  predicate Hit(table: Table, len: nat, addr: nat) {
    var ctx := BsLoop(table, BsStart(len, addr), MAX_BPF_LOOP);
    ctx.found && ctx.end >= addr
  }

  /** The verdict of `check_stack_safe`, for a result of `bpf_get_stack` taken as unsigned: the 8-byte entries
      that were returned are looked at, 32 at most; entry 0, the current function, is skipped. */
  predicate StackSafe(table: Table, len: nat, stack: seq<nat>, stackSize: nat)
    requires |stack| == MAX_STACK_DEPTH
  {
    stackSize != 0 && forall i :: 1 <= i < 32 && 8 * (i + 1) <= stackSize ==> !Hit(table, len, stack[i])
  }

  // ---------------------------------------------------------------- the search, as code

  class BsContext {
    const addr: nat
    var left: nat
    var right: nat
    var found: bool
    var start: nat
    var end: nat
    var matchIdx: nat

    ghost function View(): BsCtx
      reads this
    {
      BsCtx(addr, left, right, found, start, end, matchIdx)
    }

    constructor (addr: nat, len: nat)
      ensures View() == BsStart(len, addr)
    {
      this.addr := addr;
      left, right, found := 0, (len + U32 - 1) % U32, false;
      start, end, matchIdx := 0, 0, 0;
    }

    /** The callback; it returns true to end the loop. */
    method BsFn(table: Table) returns (stop: bool)
      modifies this
      ensures stop == Stops(table, old(View()))
      ensures View() == if stop then old(View()) else BsStep(table, old(View()))
    {
      if left > right {
        return true;
      }
      var mid := (left + right) % U32 / 2;
      if mid >= MAX_SPANS {
        return true;
      }
      if addr >= table[mid].soff {
        start := table[mid].soff;
        end := table[mid].eoff;
        matchIdx := mid;
        found := true;
        left := mid + 1;
      } else {
        right := (mid + U32 - 1) % U32;
      }
      return false;
    }

    method BpfLoop(table: Table, nr: nat)
      modifies this
      ensures View() == BsLoop(table, old(View()), nr)
    {
      var index := 0;
      while index < nr
        invariant 0 <= index <= nr
        invariant BsLoop(table, old(View()), nr) == BsLoop(table, View(), nr - index)
      {
        var stop := BsFn(table);
        if stop {
          return;
        }
        index := index + 1;
      }
    }
  }

  method CheckStackSafe(table: Table, len: nat, stack: seq<nat>, stackSize: nat) returns (safe: bool)
    requires |stack| == MAX_STACK_DEPTH
    ensures safe == StackSafe(table, len, stack, stackSize)
    ensures safe <==> stackSize != 0 && forall i :: 1 <= i < 32 && 8 * (i + 1) <= stackSize ==> !Hit(table, len, stack[i])
  {
    if stackSize == 0 {
      return false;
    }
    var stackLen := stackSize / 8;
    if stackLen > MAX_STACK_DEPTH {
      stackLen := MAX_STACK_DEPTH;
    }
    var i := 1;
    while i < stackLen
      invariant 1 <= i
      invariant forall k :: 1 <= k < i && k < stackLen ==> !Hit(table, len, stack[k])
    {
      var ctx := new BsContext(stack[i], len);
      ctx.BpfLoop(table, MAX_BPF_LOOP);
      if ctx.found && ctx.end >= stack[i] {
        return false;
      }
      i := i + 1;
    }
    return true;
  }

  // ---------------------------------------------------------------- what the search finds

  ghost predicate Sorted(table: Table, len: nat) {
    len <= MAX_SPANS && forall i, j :: 0 <= i <= j < len ==> table[i].soff <= table[j].soff
  }

  /** k is the last of the first `len` spans that starts at or before the address. */
  ghost predicate LastStart(table: Table, len: nat, addr: nat, k: nat) {
    && k < len <= MAX_SPANS && table[k].soff <= addr
    && forall j :: k < j < len ==> table[j].soff > addr
  }

  /** The match is the span before `left`, with its index and both its ends. */
  ghost predicate IsMatch(table: Table, ctx: BsCtx) {
    && 0 < ctx.left <= MAX_SPANS && ctx.matchIdx == ctx.left - 1
    && ctx.start == table[ctx.left - 1].soff && ctx.end == table[ctx.left - 1].eoff
  }

  ghost predicate Searching(table: Table, len: nat, ctx: BsCtx)
    requires 1 <= len <= MAX_SPANS
  {
    && (forall k :: 0 <= k < ctx.left && k < len ==> table[k].soff <= ctx.addr)
    && (ctx.found <==> ctx.left > 0)
    && (ctx.found ==> ctx.left <= len && IsMatch(table, ctx))
    && if ctx.right == U32 - 1 then ctx.left == 0 && ctx.addr < table[0].soff
       else ctx.left <= ctx.right + 1 <= len && forall k :: ctx.right < k < len ==> table[k].soff > ctx.addr
  }

  lemma MidOf(left: nat, right: nat)
    requires left <= right < MAX_SPANS
    ensures left <= (left + right) % U32 / 2 == (left + right) / 2 <= right
  {
  }

  lemma MidInRange(table: Table, len: nat, ctx: BsCtx)
    requires 1 <= len <= MAX_SPANS && Searching(table, len, ctx) && !Stops(table, ctx)
    ensures ctx.right < len && ctx.left <= (ctx.left + ctx.right) % U32 / 2 == (ctx.left + ctx.right) / 2 <= ctx.right
  {
    assert ctx.right != U32 - 1;
    MidOf(ctx.left, ctx.right);
  }

  /** The address is at or after the middle start. */
  lemma StepUp(table: Table, len: nat, ctx: BsCtx, mid: nat)
    requires 1 <= len <= MAX_SPANS && Sorted(table, len) && Searching(table, len, ctx)
    requires ctx.left <= mid <= ctx.right < len && ctx.addr >= table[mid].soff
    ensures Searching(table, len, ctx.(start := table[mid].soff, end := table[mid].eoff, matchIdx := mid, found := true, left := mid + 1))
  {
    assert forall k :: 0 <= k <= mid ==> table[k].soff <= table[mid].soff;
  }

  /** The address is before the middle start; `mid - 1` wraps if that is the first span. */
  lemma StepDown(table: Table, len: nat, ctx: BsCtx, mid: nat)
    requires 1 <= len <= MAX_SPANS && Sorted(table, len) && Searching(table, len, ctx)
    requires ctx.left <= mid <= ctx.right < len && ctx.addr < table[mid].soff
    ensures Searching(table, len, ctx.(right := if mid == 0 then U32 - 1 else mid - 1))
  {
    assert forall k :: mid <= k < len ==> table[mid].soff <= table[k].soff;
  }

  lemma StepIs(table: Table, ctx: BsCtx, mid: nat)
    requires !Stops(table, ctx) && mid == (ctx.left + ctx.right) % U32 / 2
    ensures mid < MAX_SPANS
    ensures BsStep(table, ctx) ==
            if ctx.addr >= table[mid].soff then
              ctx.(start := table[mid].soff, end := table[mid].eoff, matchIdx := mid, found := true, left := mid + 1)
            else ctx.(right := if mid == 0 then U32 - 1 else mid - 1)
  {
    assert (mid + U32 - 1) % U32 == if mid == 0 then U32 - 1 else mid - 1;
  }

  lemma SearchStep(table: Table, len: nat, ctx: BsCtx)
    requires 1 <= len <= MAX_SPANS && Sorted(table, len) && Searching(table, len, ctx) && !Stops(table, ctx)
    ensures Searching(table, len, BsStep(table, ctx))
    ensures BsStep(table, ctx).right != U32 - 1 ==> BsStep(table, ctx).right - BsStep(table, ctx).left < ctx.right - ctx.left
  {
    var mid := (ctx.left + ctx.right) / 2;
    MidInRange(table, len, ctx);
    StepIs(table, ctx, mid);
    if ctx.addr >= table[mid].soff {
      StepUp(table, len, ctx, mid);
    } else {
      StepDown(table, len, ctx, mid);
    }
  }

  /** Neither the wrap of `mid - 1` nor the limit on the steps disturbs the search. */
  lemma {:induction false} SearchInvariant(table: Table, len: nat, ctx: BsCtx, n: nat)
    requires 1 <= len <= MAX_SPANS && Sorted(table, len) && Searching(table, len, ctx)
    requires n > 0 && (ctx.right != U32 - 1 ==> ctx.right + 2 - ctx.left < n)
    ensures var r := BsLoop(table, ctx, n);
            && r.addr == ctx.addr && Searching(table, len, r) && Stops(table, r)
    decreases n
  {
    if !Stops(table, ctx) {
      MidInRange(table, len, ctx);
      SearchStep(table, len, ctx);
      SearchInvariant(table, len, BsStep(table, ctx), n - 1);
    }
  }

  lemma EndOfSearch(table: Table, len: nat, r: BsCtx)
    requires 1 <= len <= MAX_SPANS && Sorted(table, len) && Searching(table, len, r) && Stops(table, r)
    ensures r.found ==> r.left > 0 && LastStart(table, len, r.addr, r.left - 1) && IsMatch(table, r)
    ensures !r.found ==> forall j :: 0 <= j < len ==> table[j].soff > r.addr
  {
  }

  /** The last span that starts at or before the address is found, with its index and its ends, and no span
      is found only if none starts there. */
  lemma SearchFinds(table: Table, len: nat, addr: nat)
    requires 1 <= len <= MAX_SPANS && Sorted(table, len)
    ensures var r := BsLoop(table, BsStart(len, addr), MAX_BPF_LOOP);
            && (r.found ==>
                  && LastStart(table, len, addr, r.matchIdx) && r.left == r.matchIdx + 1
                  && r.start == table[r.matchIdx].soff && r.end == table[r.matchIdx].eoff)
            && (!r.found ==> forall j :: 0 <= j < len ==> table[j].soff > addr)
  {
    SearchInvariant(table, len, BsStart(len, addr), MAX_BPF_LOOP);
    EndOfSearch(table, len, BsLoop(table, BsStart(len, addr), MAX_BPF_LOOP));
  }

  // ---------------------------------------------------------------- tables that do not fit the map

  /** A length of 65 to 128: the first lookup succeeds, but a walk upward may meet an index that the map
      does not have and end there.  The search never sees more than the first `Cut` spans. */
  function CutFrom(left: nat, right: nat): nat
    requires left <= right + 1 < 2 * MAX_SPANS + 1
    decreases right + 1 - left
  {
    if left > right || (left + right) / 2 >= MAX_SPANS then left else CutFrom((left + right) / 2 + 1, right)
  }

  function Cut(len: nat): nat
    requires MAX_SPANS < len <= 2 * MAX_SPANS
  {
    CutFrom(0, len - 1)
  }

  lemma {:induction false} CutBounds(left: nat, right: nat)
    requires left <= right + 1 < 2 * MAX_SPANS + 1 && left <= MAX_SPANS <= right
    ensures left <= CutFrom(left, right) <= MAX_SPANS
    decreases right + 1 - left
  {
    if (left + right) / 2 < MAX_SPANS {
      CutBounds((left + right) / 2 + 1, right);
    }
  }

  /** All lookups so far went upward. */
  ghost predicate Climbing(table: Table, len: nat, ctx: BsCtx)
    requires MAX_SPANS < len <= 2 * MAX_SPANS
  {
    && ctx.right == len - 1 && ctx.left <= MAX_SPANS && CutFrom(ctx.left, ctx.right) == Cut(len)
    && (forall k :: 0 <= k < ctx.left ==> table[k].soff <= ctx.addr)
    && (ctx.found <==> ctx.left > 0) && (ctx.found ==> IsMatch(table, ctx))
  }

  /** A climb ends at the cut. */
  lemma ClimbEnds(table: Table, len: nat, ctx: BsCtx)
    requires MAX_SPANS < len <= 2 * MAX_SPANS && Climbing(table, len, ctx) && Stops(table, ctx)
    ensures ctx.found && ctx.left == Cut(len) <= MAX_SPANS
  {
    assert (ctx.left + ctx.right) % U32 / 2 == (ctx.left + ctx.right) / 2;
  }

  lemma ClimbUp(table: Table, len: nat, ctx: BsCtx, mid: nat)
    requires MAX_SPANS < len <= 2 * MAX_SPANS && Sorted(table, MAX_SPANS) && Climbing(table, len, ctx)
    requires mid == (ctx.left + ctx.right) / 2 < MAX_SPANS && ctx.addr >= table[mid].soff
    ensures Climbing(table, len, ctx.(start := table[mid].soff, end := table[mid].eoff, matchIdx := mid, found := true, left := mid + 1))
    ensures 1 <= Cut(len) <= MAX_SPANS
  {
    CutBounds(mid + 1, ctx.right);
    assert forall k :: 0 <= k <= mid ==> table[k].soff <= table[mid].soff;
  }

  lemma ClimbDown(table: Table, len: nat, ctx: BsCtx, mid: nat)
    requires MAX_SPANS < len <= 2 * MAX_SPANS && Sorted(table, MAX_SPANS) && Climbing(table, len, ctx)
    requires mid == (ctx.left + ctx.right) / 2 < MAX_SPANS && ctx.addr < table[mid].soff
    ensures 1 <= Cut(len) <= MAX_SPANS
    ensures mid > 0 && Searching(table, Cut(len), ctx.(right := mid - 1))
  {
    CutBounds(mid + 1, ctx.right);
    assert mid < Cut(len);
    assert forall k :: mid <= k < MAX_SPANS ==> table[mid].soff <= table[k].soff;
  }

  /** What the search has found when it ends, its limit not being reached. */
  ghost predicate FoundWithin(table: Table, cut: nat, addr: nat, r: BsCtx) {
    && 1 <= cut <= MAX_SPANS && r.addr == addr
    && (r.found ==> r.left > 0 && LastStart(table, cut, addr, r.left - 1) && IsMatch(table, r))
    && (!r.found ==> forall j :: 0 <= j < cut ==> table[j].soff > addr)
  }

  lemma SearchFrom(table: Table, cut: nat, ctx: BsCtx, n: nat)
    requires 1 <= cut <= MAX_SPANS && Sorted(table, cut) && Searching(table, cut, ctx) && n > MAX_SPANS + 1
    ensures FoundWithin(table, cut, ctx.addr, BsLoop(table, ctx, n))
  {
    SearchInvariant(table, cut, ctx, n);
    EndOfSearch(table, cut, BsLoop(table, ctx, n));
  }

  /** Enough steps are left: after the first lookup at least half of the way is done. */
  predicate Enough(ctx: BsCtx, n: nat) {
    if ctx.left == 0 then n == MAX_BPF_LOOP else 2 * ctx.left > ctx.right && n > 2 * MAX_SPANS + 1 - ctx.left
  }

  lemma LoopStep(table: Table, ctx: BsCtx, n: nat)
    requires n > 0
    ensures BsLoop(table, ctx, n) == if Stops(table, ctx) then ctx else BsLoop(table, BsStep(table, ctx), n - 1)
  {
  }

  lemma ClimbIsOver(table: Table, len: nat, ctx: BsCtx)
    requires MAX_SPANS < len <= 2 * MAX_SPANS && Climbing(table, len, ctx) && Stops(table, ctx)
    ensures FoundWithin(table, Cut(len), ctx.addr, ctx)
  {
    ClimbEnds(table, len, ctx);
  }

  /** One lookup of a climb. */
  lemma ClimbStep(table: Table, len: nat, ctx: BsCtx, n: nat)
    requires MAX_SPANS < len <= 2 * MAX_SPANS && Sorted(table, MAX_SPANS) && Climbing(table, len, ctx) && Enough(ctx, n)
    requires !Stops(table, ctx)
    ensures var next := BsStep(table, ctx);
            && n > MAX_SPANS + 2 && next.addr == ctx.addr && 1 <= Cut(len) <= MAX_SPANS
            && ((Climbing(table, len, next) && Enough(next, n - 1)) || Searching(table, Cut(len), next))
  {
    var mid := (ctx.left + ctx.right) / 2;
    ClimbMid(ctx, mid);
    StepIs(table, ctx, mid);
    if ctx.addr >= table[mid].soff {
      ClimbUp(table, len, ctx, mid);
    } else {
      ClimbDown(table, len, ctx, mid);
    }
  }

  lemma {:induction false} ClimbFinds(table: Table, len: nat, ctx: BsCtx, n: nat)
    requires MAX_SPANS < len <= 2 * MAX_SPANS && Sorted(table, MAX_SPANS) && Climbing(table, len, ctx) && Enough(ctx, n)
    ensures FoundWithin(table, Cut(len), ctx.addr, BsLoop(table, ctx, n))
    decreases n
  {
    LoopStep(table, ctx, n);
    if Stops(table, ctx) {
      ClimbIsOver(table, len, ctx);
    } else {
      var next := BsStep(table, ctx);
      ClimbStep(table, len, ctx, n);
      if Climbing(table, len, next) && Enough(next, n - 1) {
        ClimbFinds(table, len, next, n - 1);
      } else {
        SearchFrom(table, Cut(len), next, n - 1);
      }
    }
  }

  lemma ClimbMid(ctx: BsCtx, mid: nat)
    requires ctx.left <= MAX_SPANS <= ctx.right < 2 * MAX_SPANS && mid == (ctx.left + ctx.right) / 2
    ensures (ctx.left + ctx.right) % U32 / 2 == mid && ctx.left <= mid && 2 * (mid + 1) > ctx.right
  {
  }

  lemma CutIsHalf(len: nat)
    requires MAX_SPANS < len <= 2 * MAX_SPANS
    ensures (len + 1) / 2 <= Cut(len) <= MAX_SPANS
  {
    CutBounds((len - 1) / 2 + 1, len - 1);
  }

  lemma LongTableFinds(table: Table, len: nat, addr: nat)
    requires MAX_SPANS < len <= 2 * MAX_SPANS && Sorted(table, MAX_SPANS)
    ensures FoundWithin(table, Cut(len), addr, BsLoop(table, BsStart(len, addr), MAX_BPF_LOOP))
  {
    assert BsStart(len, addr).right == len - 1;
    ClimbFinds(table, len, BsStart(len, addr), MAX_BPF_LOOP);
  }

  /** A table of 65 to 128 spans is searched as if it held its first `Cut` spans, at least half of them. */
  lemma LongTableIsCut(table: Table, len: nat, addr: nat)
    requires MAX_SPANS < len <= 2 * MAX_SPANS && Sorted(table, MAX_SPANS)
    ensures (len + 1) / 2 <= Cut(len) <= MAX_SPANS && (Hit(table, len, addr) <==> Hit(table, Cut(len), addr))
  {
    CutIsHalf(len);
    LongTableFinds(table, len, addr);
    SearchFinds(table, Cut(len), addr);
    SameFound(table, Cut(len), addr, BsLoop(table, BsStart(len, addr), MAX_BPF_LOOP),
              BsLoop(table, BsStart(Cut(len), addr), MAX_BPF_LOOP));
  }

  lemma SameFound(table: Table, cut: nat, addr: nat, r: BsCtx, q: BsCtx)
    requires FoundWithin(table, cut, addr, r)
    requires q.found ==> q.left > 0 && LastStart(table, cut, addr, q.left - 1) && q.end == table[q.left - 1].eoff
    requires !q.found ==> forall j :: 0 <= j < cut ==> table[j].soff > addr
    ensures r.found == q.found && (r.found ==> r.end == q.end)
  {
  }

  // ---------------------------------------------------------------- against a linear scan

  /** The address lies in one of the first `len` closed spans. */
  ghost predicate Inside(table: Table, len: nat, addr: nat) {
    exists k :: 0 <= k < len && k < MAX_SPANS && table[k].soff <= addr <= table[k].eoff
  }

  ghost predicate Ordered(table: Table, len: nat) {
    Sorted(table, len) && forall k :: 0 <= k < len ==> table[k].soff <= table[k].eoff
  }

  /** An earlier span may reach past the end of a later one only if the next span starts there. */
  ghost predicate NoHole(table: Table, len: nat)
    requires len <= MAX_SPANS
  {
    forall i, j :: 0 <= i < j < len ==> table[i].eoff <= table[j].eoff || Continued(table, len, j)
  }

  ghost predicate Continued(table: Table, len: nat, j: nat)
    requires j < len <= MAX_SPANS
  {
    j + 1 < len && table[j + 1].soff <= table[j].eoff + 1
  }

  ghost predicate Disjoint(table: Table, len: nat)
    requires len <= MAX_SPANS
  {
    forall i, j :: 0 <= i < j < len ==> table[i].eoff < table[j].soff
  }

  lemma HitIsInside(table: Table, len: nat, addr: nat)
    requires 1 <= len && Ordered(table, len) && NoHole(table, len)
    ensures Hit(table, len, addr) <==> Inside(table, len, addr)
  {
    SearchFinds(table, len, addr);
    var r := BsLoop(table, BsStart(len, addr), MAX_BPF_LOOP);
    if r.found {
      var k := r.left - 1;
      if Inside(table, len, addr) {
        var i :| 0 <= i < len && table[i].soff <= addr <= table[i].eoff;
        assert i <= k;
        if i < k {
          assert table[i].eoff <= table[k].eoff || Continued(table, len, k);
        }
      }
    }
  }

  /** If the table has a hole, the first address past the end of span j is inside span i and is missed. */
  lemma HoleIsMissed(table: Table, len: nat, i: nat, j: nat)
    requires 1 <= len && Ordered(table, len) && i < j < len
    requires table[i].eoff > table[j].eoff && !Continued(table, len, j)
    ensures var addr := table[j].eoff + 1; Inside(table, len, addr) && !Hit(table, len, addr)
  {
    var addr := table[j].eoff + 1;
    assert table[i].soff <= addr <= table[i].eoff;
    SearchFinds(table, len, addr);
    var r := BsLoop(table, BsStart(len, addr), MAX_BPF_LOOP);
    assert LastStart(table, len, addr, j) by {
      forall k | j < k < len
        ensures table[k].soff > addr
      {
        assert table[j + 1].soff <= table[k].soff;
      }
    }
  }

  /** The binary search answers like a linear scan on every address exactly when the table has no hole. */
  lemma SearchIsExact(table: Table, len: nat)
    requires 1 <= len && Ordered(table, len)
    ensures (forall addr: nat :: Hit(table, len, addr) <==> Inside(table, len, addr)) <==> NoHole(table, len)
  {
    if NoHole(table, len) {
      forall addr: nat
        ensures Hit(table, len, addr) <==> Inside(table, len, addr)
      {
        HitIsInside(table, len, addr);
      }
    } else {
      var i, j :| 0 <= i < j < len && table[i].eoff > table[j].eoff && !Continued(table, len, j);
      HoleIsMissed(table, len, i, j);
    }
  }

  lemma DisjointHasNoHole(table: Table, len: nat)
    requires Ordered(table, len) && Disjoint(table, len)
    ensures NoHole(table, len)
  {
  }

  /** For sorted spans without a hole, in particular for disjoint ones, the verdict on a stack is that of a
      linear scan. */
  lemma StackSafeIsLinear(table: Table, len: nat, stack: seq<nat>, stackSize: nat)
    requires 1 <= len && Ordered(table, len) && NoHole(table, len) && |stack| == MAX_STACK_DEPTH
    ensures StackSafe(table, len, stack, stackSize) <==>
            stackSize != 0 && forall i :: 1 <= i < 32 && 8 * (i + 1) <= stackSize ==> !Inside(table, len, stack[i])
  {
    forall i | 1 <= i < 32
      ensures Hit(table, len, stack[i]) <==> Inside(table, len, stack[i])
    {
      HitIsInside(table, len, stack[i]);
    }
  }

  /** With 65 to 128 spans loaded, of which the map holds the first 64, the search agrees with a linear scan
      of the first `Cut` spans on all addresses exactly when those have no hole; the spans behind them are
      never found. */
  lemma LongTableIsExact(table: Table, len: nat)
    requires 64 < len <= 128 && Ordered(table, 64)
    ensures 1 <= Cut(len) <= 64
    ensures (forall addr: nat :: Hit(table, len, addr) <==> Inside(table, Cut(len), addr)) <==> NoHole(table, Cut(len))
  {
    LongTableIsCut(table, len, 0);
    forall addr: nat
      ensures 1 <= Cut(len) <= MAX_SPANS && (Hit(table, len, addr) <==> Hit(table, Cut(len), addr))
    {
      LongTableIsCut(table, len, addr);
    }
    SearchIsExact(table, Cut(len));
  }

  /** The call asks for 32 bytes of stack, not 32 entries, so at most entries 1 to 3 decide: whatever lies
      further out may be inside a span. */
  lemma OnlyThreeCallersDecide(table: Table, len: nat, a: seq<nat>, b: seq<nat>, stackSize: nat)
    requires |a| == MAX_STACK_DEPTH && |b| == MAX_STACK_DEPTH && stackSize <= 32 && a[1..4] == b[1..4]
    ensures StackSafe(table, len, a, stackSize) <==> StackSafe(table, len, b, stackSize)
  {
    forall i | 1 <= i < 4
      ensures a[i] == b[i]
    {
      assert a[1..4][i - 1] == b[1..4][i - 1];
    }
  }

  /** The loader does not bound the length.  With more than 128 spans the first lookup fails, so the
      search finds nothing at all, and a stack is called safe wherever its frames are. */
  lemma TooManySpansAreIgnored(table: Table, len: nat, stack: seq<nat>, stackSize: nat)
    requires 128 < len < U32 && |stack| == MAX_STACK_DEPTH && stackSize != 0
    ensures StackSafe(table, len, stack, stackSize)
  {
  }
}
