/** From three builds of a block to the probes: the register path of `analyze_linear_relationship` in
    src/codegen.py, joined to the theorem about probed blocks. */
module Synthesis {
  import opened Wrappers
  import opened Words
  import opened Machine
  import opened SymExec
  import opened SymSound
  import opened LinearFit
  import opened Compound
  import opened Leaks
  import opened Probes
  import opened Tuned
  import opened Helpers
  import I = IvSearch

  type Block = seq<Instr>

  /** What is printed for one block: an overwrite with the fitted value after the seed, or a save before the
      seed and a recomputation after the effective end. */
  datatype Outcome =
    | Simple(target: Reg, step: nat, f: Formula)
    | Irreversible(target: Reg, step: nat, end: nat, c: CExpr)

  /** The seed is one of the operations that destroy their operand; the mnemonic is stripped as in the
      executor. */
  predicate IsIrreversible(i: Instr) { Dispatched(i) && OpOf(i) in {Shr, Shl, Imul, And} }

  /** By the printed mnemonic without its size letter: of the names in the program's list these four are
      operations of the model. */
  lemma IrreversibleByName(i: Instr)
    ensures var base := Stripped(Text(OpOf(i)) + SuffixText(i.suffix));
            IsIrreversible(i) <==> base == "shr" || base == "shl" || base == "imul" || base == "and"
  {
    DispatchExact(i, Shr);
    DispatchExact(i, Shl);
    DispatchExact(i, Imul);
    DispatchExact(i, And);
  }

  // ---------------------------------------------------------------- the hit

  ghost predicate IsHit(b1: Block, b2: Block, b3: Block, v: Triple, order: seq<nat>, hit: I.Found) {
    exists p: nat :: I.IsFirst(Recorded(b1), Recorded(b2), Recorded(b3), v, order, hit, p)
  }

  /** A register that carries an instruction value varies. */
  lemma IvVaries(e1: Expr, e2: Expr, e3: Expr, t: Triple)
    requires I.VariesOnlyIn(e1, e2, e3, t)
    ensures !(e1 == e2 == e3)
  {
    if e1 == e2 == e3 {
      I.EqualDoNotVary(e1, t);
      assert false;
    }
  }

  /** A step that does not write a register leaves its entry, present or not. */
  lemma UnwrittenEntry(code: Block, n: nat, k: nat)
    requires n < |code| && code[n].dst in RunSym(code).regMap ==> RunSym(code).regMap[code[n].dst] != k
    requires n < |code|
    ensures Entry(RunSym(code[..n + 1]).state, k) == Entry(RunSym(code[..n]).state, k)
  {
    StateAfterStep(code, n, RunSym(code).regMap);
  }

  lemma NothingBefore(code: Block, k: nat)
    ensures Entry(RunSym(code[..0]).state, k) == None
  {
    assert code[..0] == [];
    assert RunSym(code[..0]) == EMPTY_SYM;
  }

  ghost predicate Writes(code: Block, n: nat, k: nat)
    requires n < |code|
  {
    code[n].dst in RunSym(code).regMap && RunSym(code).regMap[code[n].dst] == k
  }

  lemma WrittenAlike(a: Block, b: Block, n: nat, k: nat)
    requires SameShapes(a, b) && n < |a|
    ensures Writes(a, n, k) <==> Writes(b, n, k)
  {
    ShapesNameAlike(a, b);
    assert SameShape(a[n], b[n]);
  }

  /** If the first build does not write the register at step n, no build changes its entry there. */
  lemma EntriesStay(b1: Block, b2: Block, b3: Block, n: nat, k: nat)
    requires SameShapes(b1, b2) && SameShapes(b1, b3) && n < |b1| && !Writes(b1, n, k)
    ensures Entry(RunSym(b1[..n + 1]).state, k) == Entry(RunSym(b1[..n]).state, k)
    ensures Entry(RunSym(b2[..n + 1]).state, k) == Entry(RunSym(b2[..n]).state, k)
    ensures Entry(RunSym(b3[..n + 1]).state, k) == Entry(RunSym(b3[..n]).state, k)
  {
    WrittenAlike(b1, b2, n, k);
    WrittenAlike(b1, b3, n, k);
    UnwrittenEntry(b1, n, k);
    UnwrittenEntry(b2, n, k);
    UnwrittenEntry(b3, n, k);
  }

  /** What being first says of the hit's own register. */
  lemma HitIsFirst(b1: Block, b2: Block, b3: Block, v: Triple, order: seq<nat>, hit: I.Found)
    requires IsHit(b1, b2, b3, v, order, hit)
    ensures hit.step < |b1| && hit.step < |b2| && hit.step < |b3|
    ensures I.IsIv(Recorded(b1), Recorded(b2), Recorded(b3), v, hit.step, hit.reg, hit.iv, hit.line)
    ensures hit.step > 0 ==> I.NoIv(Recorded(b1), Recorded(b2), Recorded(b3), v, hit.step - 1, hit.reg)
  {
    var p: nat :| I.IsFirst(Recorded(b1), Recorded(b2), Recorded(b3), v, order, hit, p);
    assert order[p] in order;
  }

  /** A hit is a hit of one of the registers that are searched. */
  lemma HitIsIv(b1: Block, b2: Block, b3: Block, v: Triple, order: seq<nat>, hit: I.Found)
    requires IsHit(b1, b2, b3, v, order, hit)
    ensures !NoHit(b1, b2, b3, v, order)
  {
    HitIsFirst(b1, b2, b3, v, order, hit);
    var i, k := hit.step, hit.reg;
    I.SomeIv(Recorded(b1), Recorded(b2), Recorded(b3), v, i, k, hit.iv, hit.line);
    var p: nat :| I.IsFirst(Recorded(b1), Recorded(b2), Recorded(b3), v, order, hit, p);
    assert k in order;
  }

  /** The first hit is at an instruction that writes the register: otherwise the step before would have been
      a hit. */
  lemma HitIsWritten(b1: Block, b2: Block, b3: Block, v: Triple, order: seq<nat>, hit: I.Found)
    requires SameShapes(b1, b2) && SameShapes(b1, b3) && IsHit(b1, b2, b3, v, order, hit)
    ensures hit.step < |b1| && Writes(b1, hit.step, hit.reg)
  {
    HitIsFirst(b1, b2, b3, v, order, hit);
    var n, k := hit.step, hit.reg;
    if !Writes(b1, n, k) {
      EntriesStay(b1, b2, b3, n, k);
      RecordedAt(b1, n + 1);
      RecordedAt(b2, n + 1);
      RecordedAt(b3, n + 1);
      if n == 0 {
        NothingBefore(b1, k);
      } else {
        RecordedAt(b1, n);
        RecordedAt(b2, n);
        RecordedAt(b3, n);
        assert I.IsIv(Recorded(b1), Recorded(b2), Recorded(b3), v, n - 1, k, hit.iv, hit.line);
      }
      assert false;
    }
  }

  /** A hit with the effective end of its register is a chain. */
  lemma HitIsChain(b1: Block, b2: Block, b3: Block, v: Triple, order: seq<nat>, hit: I.Found, end: nat)
    requires SameShapes(b1, b2) && SameShapes(b1, b3) && IsHit(b1, b2, b3, v, order, hit)
    requires IsEffectiveEnd(Recorded(b1), Recorded(b2), Recorded(b3), hit.reg, hit.step, end)
    ensures hit.step < |b1| && ChainFound(b1, b2, b3, b1[hit.step].dst, hit.step, end)
  {
    HitIsWritten(b1, b2, b3, v, order, hit);
    HitIsFirst(b1, b2, b3, v, order, hit);
    var n, k := hit.step, hit.reg;
    IvVaries(Recorded(b1)[n][k], Recorded(b2)[n][k], Recorded(b3)[n][k], hit.iv);
  }

  // ---------------------------------------------------------------- the analysis

  /** What is printed for a hit. */
  ghost predicate IsOutcome(b1: Block, b2: Block, b3: Block, v: Triple, hit: I.Found, r: Outcome) {
    && hit.step < |b1| && r.target == b1[hit.step].dst && r.step == hit.step
    && (r.Irreversible? <==> IsIrreversible(b1[hit.step]))
    && (r.Simple? ==> r.f == BuildExpr(hit.line))
    && (r.Irreversible? ==>
          && IsEffectiveEnd(Recorded(b1), Recorded(b2), Recorded(b3), hit.reg, r.step, r.end)
          && IsCompound(b1, b2, b3, r.step, r.end + 1, hit.reg, v, r.c))
  }

  /** No register of `order` carries an instruction value at any step. */
  ghost predicate NoHit(b1: Block, b2: Block, b3: Block, v: Triple, order: seq<nat>) {
    forall i, k :: 0 <= i < |b1| && i < |b2| && i < |b3| && k in order ==>
      I.NoIv(Recorded(b1), Recorded(b2), Recorded(b3), v, i, k)
  }

  /** The three values of register k after step `end` have one shape around the value before `step`, which
      occurs in them, and their numbers, of which there is one, are constant or fit lines. */
  ghost predicate CanRecompute(b1: Block, b2: Block, b3: Block, v: Triple, k: nat, step: nat, end: nat) {
    && step <= end < |b1| && end < |b2| && end < |b3|
    && var e1, e2, e3 := ExprAfter(b1, end + 1, k), ExprAfter(b2, end + 1, k), ExprAfter(b3, end + 1, k);
       var saved := ExprAfter(b1, step, k);
       && ShapeOf(e1, saved) == ShapeOf(e2, saved) == ShapeOf(e3, saved)
       && AllFit(NumbersOutside(e1, saved), NumbersOutside(e2, saved), NumbersOutside(e3, saved), v)
       && Occurs(e1, saved) && NumbersOutside(e1, saved) != []
  }

  lemma UpdateKeepsEntry(s: Sym, op: Op, src: Source, e: Expr, a: Expr, d: nat, k: nat)
    requires k in s.state
    ensures k in Updated(s, op, src, e, a, d).state
  {
  }

  lemma StepKeepsEntry(s: Sym, i: Instr, k: nat)
    requires k in s.state
    ensures k in SymStep(s, i).state
  {
    if Dispatched(i) && i.Two? {
      var t := OperandsNamed(s, i);
      UpdateKeepsEntry(t, i.op, i.src, SourceExpr(t, i.src), SourceAlt(t, i.src), t.regMap[i.dst], k);
    }
  }

  /** A register that has an expression keeps one. */
  lemma {:induction false} EntryStays(code: Block, n: nat, m: nat, k: nat)
    requires n <= m <= |code| && k in RunSym(code[..n]).state
    ensures k in RunSym(code[..m]).state
  {
    if n < m {
      EntryStays(code, n, m - 1, k);
      RunSymStep(code, m - 1);
      StepKeepsEntry(RunSym(code[..m - 1]), code[m - 1], k);
    }
  }

  lemma RecordedStays(code: Block, n: nat, m: nat, k: nat)
    requires n <= m < |code| && k in Recorded(code)[n]
    ensures k in Recorded(code)[m]
  {
    RecordedAt(code, n + 1);
    RecordedAt(code, m + 1);
    EntryStays(code, n + 1, m + 1, k);
  }

  lemma NoEarlierEnd(st1: I.States, st2: I.States, st3: I.States, k: nat, step: nat, a: nat, b: nat)
    requires IsEffectiveEnd(st1, st2, st3, k, step, a) && IsEffectiveEnd(st1, st2, st3, k, step, b)
    ensures a >= b
  {
  }

  /** The value at the effective end of the hit can be recomputed. */
  ghost predicate Recoverable(b1: Block, b2: Block, b3: Block, v: Triple, hit: I.Found) {
    exists end: nat ::
      && IsEffectiveEnd(Recorded(b1), Recorded(b2), Recorded(b3), hit.reg, hit.step, end)
      && CanRecompute(b1, b2, b3, v, hit.reg, hit.step, end)
  }

  lemma EndDecides(b1: Block, b2: Block, b3: Block, v: Triple, hit: I.Found, end: nat)
    requires IsEffectiveEnd(Recorded(b1), Recorded(b2), Recorded(b3), hit.reg, hit.step, end)
    ensures Recoverable(b1, b2, b3, v, hit) <==> CanRecompute(b1, b2, b3, v, hit.reg, hit.step, end)
  {
    if Recoverable(b1, b2, b3, v, hit) {
      var other: nat :| IsEffectiveEnd(Recorded(b1), Recorded(b2), Recorded(b3), hit.reg, hit.step, other)
                        && CanRecompute(b1, b2, b3, v, hit.reg, hit.step, other);
      NoEarlierEnd(Recorded(b1), Recorded(b2), Recorded(b3), hit.reg, hit.step, end, other);
      NoEarlierEnd(Recorded(b1), Recorded(b2), Recorded(b3), hit.reg, hit.step, other, end);
    }
  }

  lemma RecordedGet(code: Block, n: nat, k: nat)
    requires n <= |code|
    ensures n == 0 ==> ExprAfter(code, n, k) == Name(k)
    ensures n > 0 ==> ExprAfter(code, n, k) == Get(Recorded(code)[n - 1], k)
  {
    if n == 0 {
      NothingBefore(code, k);
    } else {
      RecordedAt(code, n);
    }
  }

  /** The expression for the apply helper; None if the register is missing at the effective end in one of the
      builds or the three values there cannot be recomputed. */
  method Compose(b1: Block, b2: Block, b3: Block, st1: seq<map<nat, Expr>>, st2: seq<map<nat, Expr>>, st3: seq<map<nat, Expr>>,
                 v: Triple, k: nat, step: nat, end: nat) returns (c: Option<CExpr>)
    requires st1 == Recorded(b1) && st2 == Recorded(b2) && st3 == Recorded(b3)
    requires step <= end < |b1| && end < |b2| && end < |b3|
    ensures c.Some? ==> IsCompound(b1, b2, b3, step, end + 1, k, v, c.value)
    ensures c.Some? <==> k in st1[end] && k in st2[end] && k in st3[end] && CanRecompute(b1, b2, b3, v, k, step, end)
  {
    if k !in st1[end] || k !in st2[end] || k !in st3[end] {
      return None;
    }
    var saved := if step > 0 then Get(st1[step - 1], k) else Name(k);
    RecordedGet(b1, step, k);
    RecordedGet(b1, end + 1, k);
    RecordedGet(b2, end + 1, k);
    RecordedGet(b3, end + 1, k);
    c := BuildCompound(Get(st1[end], k), Get(st2[end], k), Get(st3[end], k), saved, v);
    CompoundExact(Get(st1[end], k), Get(st2[end], k), Get(st3[end], k), saved, v);
  }

  /** At the effective end of a hit its register is present in every build. */
  lemma HitIsPresent(b1: Block, b2: Block, b3: Block, v: Triple, order: seq<nat>, hit: I.Found, end: nat)
    requires IsHit(b1, b2, b3, v, order, hit) && hit.step <= end < |b1| && end < |b2| && end < |b3|
    ensures hit.reg in Recorded(b1)[end] && hit.reg in Recorded(b2)[end] && hit.reg in Recorded(b3)[end]
  {
    HitIsFirst(b1, b2, b3, v, order, hit);
    RecordedStays(b1, hit.step, end, hit.reg);
    RecordedStays(b2, hit.step, end, hit.reg);
    RecordedStays(b3, hit.step, end, hit.reg);
  }

  /** What is printed for the hit; None if its value at the effective end cannot be recomputed. */
  method SynthesizeHit(b1: Block, b2: Block, b3: Block, st1: seq<map<nat, Expr>>, st2: seq<map<nat, Expr>>, st3: seq<map<nat, Expr>>,
                       v: Triple, ghost order: seq<nat>, hit: I.Found) returns (r: Option<Outcome>)
    requires st1 == Recorded(b1) && st2 == Recorded(b2) && st3 == Recorded(b3)
    requires IsHit(b1, b2, b3, v, order, hit) && hit.step < |b1| && hit.step < |b2| && hit.step < |b3|
    ensures r.Some? ==> IsOutcome(b1, b2, b3, v, hit, r.value)
    ensures r.Some? <==> !IsIrreversible(b1[hit.step]) || Recoverable(b1, b2, b3, v, hit)
  {
    var step, k := hit.step, hit.reg;
    if !IsIrreversible(b1[step]) {
      return Some(Simple(b1[step].dst, step, BuildExpr(hit.line)));
    }
    var end := EffectiveEnd(st1, st2, st3, k, step);
    HitIsPresent(b1, b2, b3, v, order, hit, end);
    EndDecides(b1, b2, b3, v, hit, end);
    var c := Compose(b1, b2, b3, st1, st2, st3, v, k, step, end);
    r := None;
    if c.Some? {
      r := Some(Irreversible(b1[step].dst, step, end, c.value));
    }
  }

  /** The probes for one block, from its three builds.  There are none exactly when no register carries an
      instruction value, or when the first that does is written by an operation that destroys its operand
      and its value at the effective end cannot be recomputed from the one before. */
  method Synthesize(b1: Block, b2: Block, b3: Block, v: Triple, order: seq<nat>) returns (r: Option<Outcome>, ghost hit: I.Found)
    ensures r.Some? ==> IsHit(b1, b2, b3, v, order, hit) && IsOutcome(b1, b2, b3, v, hit, r.value)
    ensures r.Some? ==> (r.value.Irreversible? <==>
              Dispatched(b1[hit.step]) && (OpOf(b1[hit.step]) == Shr || OpOf(b1[hit.step]) == Shl
                                           || OpOf(b1[hit.step]) == Imul || OpOf(b1[hit.step]) == And))
    ensures NoHit(b1, b2, b3, v, order) ==> r.None?
    ensures !NoHit(b1, b2, b3, v, order) ==> IsHit(b1, b2, b3, v, order, hit) && hit.step < |b1|
    ensures !NoHit(b1, b2, b3, v, order) ==>
              (r.Some? <==> !IsIrreversible(b1[hit.step]) || Recoverable(b1, b2, b3, v, hit))
  {
    var st1, _, _ := RunSymbolicExec(b1);
    var st2, _, _ := RunSymbolicExec(b2);
    var st3, _, _ := RunSymbolicExec(b3);
    var found := I.FindIv(st1, st2, st3, v, order);
    hit := I.Found(0, 0, v, Line(0.0, 0.0));
    r := None;
    if found.Some? {
      hit := found.value;
      assert IsHit(b1, b2, b3, v, order, hit);
      HitIsFirst(b1, b2, b3, v, order, hit);
      HitIsIv(b1, b2, b3, v, order, hit);
      r := SynthesizeHit(b1, b2, b3, st1, st2, st3, v, order, found.value);
    }
  }

  // ---------------------------------------------------------------- the probes that come out are right

  /** An irreversible outcome is a chain with its compound expression, for the register that the seed
      names. */
  lemma OutcomeIsChain(b1: Block, b2: Block, b3: Block, v: Triple, order: seq<nat>, hit: I.Found,
                       target: Reg, step: nat, end: nat, c: CExpr)
    requires SameShapes(b1, b2) && SameShapes(b1, b3)
    requires IsHit(b1, b2, b3, v, order, hit) && IsOutcome(b1, b2, b3, v, hit, Irreversible(target, step, end, c))
    ensures step <= end < |b1| && target in RunSym(b1).regMap && |b1| == |b2| == |b3|
    ensures ChainFound(b1, b2, b3, target, step, end)
    ensures IsCompound(b1, b2, b3, step, end + 1, RunSym(b1).regMap[target], v, c)
  {
    OutcomeParts(b1, b2, b3, v, hit, target, step, end, c);
    HitIsWritten(b1, b2, b3, v, order, hit);
    assert RunSym(b1).regMap[target] == hit.reg;
    HitIsChain(b1, b2, b3, v, order, hit, end);
  }

  lemma OutcomeParts(b1: Block, b2: Block, b3: Block, v: Triple, hit: I.Found,
                     target: Reg, step: nat, end: nat, c: CExpr)
    requires IsOutcome(b1, b2, b3, v, hit, Irreversible(target, step, end, c))
    ensures step == hit.step < |b1| && target == b1[step].dst
    ensures IsEffectiveEnd(Recorded(b1), Recorded(b2), Recorded(b3), hit.reg, step, end)
    ensures step <= end < |b1| && end < |b2| && end < |b3| && IsCompound(b1, b2, b3, step, end + 1, hit.reg, v, c)
  {
  }

  /** Whatever three builds of one shape the analysis is given: if it prints a save and an apply helper, then
      at every value at which nothing leaks the first build run with them leaves every register with the
      same low w bits as the build that follows the fit at that value.  (`c` is the outcome's expression.) */
  lemma OutcomeIsFaithful(w: nat, b1: Block, b2: Block, b3: Block, b4: Block, v: Triple, order: seq<nat>, hit: I.Found,
                          target: Reg, step: nat, end: nat, c: CExpr, val: int, regs: Regs)
    requires 0 < w <= 64 && SameShapes(b1, b2) && SameShapes(b1, b3) && step <= end < |b1|
    requires IsHit(b1, b2, b3, v, order, hit) && IsOutcome(b1, b2, b3, v, hit, Irreversible(target, step, end, c))
    requires IntegerForm(c) && Closed(c) && NoLeak(w, c, RunCpu(w, b1[..step], regs)[target], val)
    requires DifferWithin(b1, b2, step, end) && DifferWithin(b1, b3, step, end)
    requires BlockFollows(b1, b2, b3, b4, v, val) && end < |b4| && Supported(w, b4[..end + 1], regs)
    ensures SameLow(w, RunProbed(w, b1, target, step, end + 1, c, val, regs), RunCpu(w, b4, regs))
  {
    OutcomeIsChain(b1, b2, b3, v, order, hit, target, step, end, c);
    TunedBlockIsFaithful(w, b1, b2, b3, b4, v, val, target, step, end, c, regs);
  }

  predicate MovesImm(i: Instr) { i.Two? && i.op == Mov && i.src.Imm? }

  lemma MovedEntry(code: Block, n: nat)
    requires n < |code| && MovesImm(code[n])
    ensures code[n].dst in RunSym(code).regMap
    ensures Entry(Recorded(code)[n], RunSym(code).regMap[code[n].dst]) == Some(Num(code[n].src.value))
  {
    StateAfterStep(code, n, RunSym(code).regMap);
    RecordedAt(code, n + 1);
  }

  /** Of three plain numbers the instruction value is those numbers. */
  lemma PlainIv(n1: nat, n2: nat, n3: nat, t: Triple)
    requires I.VariesOnlyIn(Num(n1), Num(n2), Num(n3), t)
    ensures t == Triple(n1, n2, n3)
  {
    I.ExtractExact(Num(n1), Num(n2), Num(n3), t);
  }

  /** A hit at a `mov` of an immediate is the immediate. */
  lemma MovHit(b1: Block, b2: Block, b3: Block, v: Triple, order: seq<nat>, hit: I.Found)
    requires SameShapes(b1, b2) && SameShapes(b1, b3) && IsHit(b1, b2, b3, v, order, hit)
    requires hit.step < |b1| && MovesImm(b1[hit.step])
    ensures MovesImm(b2[hit.step]) && MovesImm(b3[hit.step])
    ensures hit.iv == Triple(b1[hit.step].src.value, b2[hit.step].src.value, b3[hit.step].src.value)
    ensures BuildNumber(hit.iv, v) == Some(Tuned(BuildExpr(hit.line)))
  {
    var n := hit.step;
    HitIsFirst(b1, b2, b3, v, order, hit);
    HitIsWritten(b1, b2, b3, v, order, hit);
    ShapesNameAlike(b1, b2);
    ShapesNameAlike(b1, b3);
    assert SameShape(b1[n], b2[n]) && SameShape(b1[n], b3[n]);
    MovedEntry(b1, n);
    MovedEntry(b2, n);
    MovedEntry(b3, n);
    PlainIv(b1[n].src.value, b2[n].src.value, b3[n].src.value, hit.iv);
  }

  /** And if it prints the simple helper for a `mov` seed, the first build run with the helper after the seed
      agrees, at every value, with the build that follows the fit at that value. */
  lemma SimpleOutcomeIsFaithful(w: nat, b1: Block, b2: Block, b3: Block, b4: Block, v: Triple, order: seq<nat>, hit: I.Found,
                                target: Reg, step: nat, p: int, q: int, val: int, regs: Regs)
    requires 0 < w <= 64 && SameShapes(b1, b2) && SameShapes(b1, b3) && step < |b1| && MovesImm(b1[step])
    requires IsHit(b1, b2, b3, v, order, hit) && IsOutcome(b1, b2, b3, v, hit, Simple(target, step, Integral(p, q)))
    requires DifferWithin(b1, b2, step, step) && DifferWithin(b1, b3, step, step) && BlockFollows(b1, b2, b3, b4, v, val)
    ensures SameLow(w, RunPatched(w, b1, step + 1, target, Low(64, p * val + q), regs), RunCpu(w, b4, regs))
  {
    var n4 := FollowingMov(b1, b2, b3, b4, v, order, hit, target, step, p, q, val);
    FollowingDiffersWithin(b1, b2, b3, b4, v, val, step, step);
    SimpleHelperExact(w, Mov, n4);
    ModPow2(n4, w, 64);
    SimpleBlockIsFaithful(w, b1, b4, step, n4, Low(64, n4), regs);
  }

  /** The build that follows the fit moves what the simple helper writes. */
  lemma FollowingMov(b1: Block, b2: Block, b3: Block, b4: Block, v: Triple, order: seq<nat>, hit: I.Found,
                     target: Reg, step: nat, p: int, q: int, val: int) returns (n4: nat)
    requires SameShapes(b1, b2) && SameShapes(b1, b3) && step < |b1| && MovesImm(b1[step])
    requires IsHit(b1, b2, b3, v, order, hit) && IsOutcome(b1, b2, b3, v, hit, Simple(target, step, Integral(p, q)))
    requires BlockFollows(b1, b2, b3, b4, v, val)
    ensures step < |b4| && MovesImm(b4[step]) && b4[step].src == Imm(n4) && b4[step].dst == target && n4 == p * val + q
  {
    SimpleParts(b1, b2, b3, v, hit, target, step, Integral(p, q));
    MovHit(b1, b2, b3, v, order, hit);
    assert InstrFollows(b1[step], b2[step], b3[step], b4[step], v, val);
    n4 := b4[step].src.value;
  }

  lemma SimpleParts(b1: Block, b2: Block, b3: Block, v: Triple, hit: I.Found, target: Reg, step: nat, f: Formula)
    requires IsOutcome(b1, b2, b3, v, hit, Simple(target, step, f))
    ensures step == hit.step < |b1| && target == b1[step].dst && f == BuildExpr(hit.line)
  {
  }
}
