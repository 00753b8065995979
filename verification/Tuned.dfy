/** Values other than the three observed ones.  A further build of the block follows the observed builds if
    each of its immediates is the one that the fit of the three predicts for the new value; then the probed
    first build, with that value in `val`, computes what the further build computes. */
module Tuned {
  import opened Machine
  import opened SymExec
  import opened SymSound
  import opened LinearFit
  import opened Compound
  import opened Leaks
  import opened Window
  import opened Probes

  // ---------------------------------------------------------------- following the fit

  /** n is what the three numbers predict for `val`; numbers that fit no integer line predict nothing. */
  predicate NumFollows(n: Triple, n4: nat, v: Triple, val: int) {
    match BuildNumber(n, v)
    case Some(Literal(m)) => n4 == m
    case Some(Tuned(Integral(p, q))) => n4 == p * val + q
    case _ => true
  }

  /** The expression has the shape of the three, and its numbers follow. */
  predicate ExprFollows(e1: Expr, e2: Expr, e3: Expr, e4: Expr, v: Triple, val: int) {
    match e1
    case Name(_) => e1 == e2 == e3 == e4
    case Num(n) => e2.Num? && e3.Num? && e4.Num? && NumFollows(Triple(n, e2.n, e3.n), e4.n, v, val)
    case Bin(op, l, r) =>
      && e2.Bin? && e3.Bin? && e4.Bin? && op == e2.op == e3.op == e4.op
      && ExprFollows(l, e2.l, e3.l, e4.l, v, val) && ExprFollows(r, e2.r, e3.r, e4.r, v, val)
  }

  /** Where the three agree, so does the fourth. */
  lemma {:induction false} AgreementFollows(e: Expr, e4: Expr, v: Triple, val: int)
    requires ExprFollows(e, e, e, e4, v, val)
    ensures e4 == e
    decreases e
  {
    if e.Bin? {
      AgreementFollows(e.l, e4.l, v, val);
      AgreementFollows(e.r, e4.r, v, val);
    }
  }

  /** The fourth expression is the merge of the three with `val` put in. */
  lemma {:induction false} MergeFollows(e1: Expr, e2: Expr, e3: Expr, e4: Expr, saved: Expr, v: Triple, val: int)
    requires ExprFollows(e1, e2, e3, e4, v, val)
    requires Merge(e1, e2, e3, saved, v).Some? && IntegerForm(Merge(e1, e2, e3, saved, v).value)
    ensures IsInstance(Merge(e1, e2, e3, saved, v).value, saved, val, e4)
    decreases e1
  {
    if e1 == saved || e2 == saved || e3 == saved {
      AgreementFollows(e1, e4, v, val);
    } else if e1.Bin? {
      MergeFollows(e1.l, e2.l, e3.l, e4.l, saved, v, val);
      MergeFollows(e1.r, e2.r, e3.r, e4.r, saved, v, val);
    }
  }

  // ---------------------------------------------------------------- builds that follow

  predicate HasImm(i: Instr) { i.Imul3? || i.src.Imm? }

  function ImmOf(i: Instr): nat
    requires HasImm(i)
  {
    if i.Imul3? then i.imm else i.src.value
  }

  predicate InstrFollows(i1: Instr, i2: Instr, i3: Instr, i4: Instr, v: Triple, val: int) {
    && SameShape(i1, i2) && SameShape(i1, i3) && SameShape(i1, i4)
    && (HasImm(i1) ==> NumFollows(Triple(ImmOf(i1), ImmOf(i2), ImmOf(i3)), ImmOf(i4), v, val))
  }

  /** Every immediate of the fourth build follows. */
  ghost predicate BlockFollows(b1: seq<Instr>, b2: seq<Instr>, b3: seq<Instr>, b4: seq<Instr>, v: Triple, val: int) {
    && |b1| == |b2| == |b3| == |b4|
    && forall j :: 0 <= j < |b1| ==> InstrFollows(b1[j], b2[j], b3[j], b4[j], v, val)
  }

  type State = map<nat, Expr>

  predicate EntryFollows(s1: State, s2: State, s3: State, s4: State, k: nat, v: Triple, val: int) {
    ExprFollows(Get(s1, k), Get(s2, k), Get(s3, k), Get(s4, k), v, val)
  }

  ghost predicate StatesFollow(s1: State, s2: State, s3: State, s4: State, v: Triple, val: int) {
    forall k: nat :: EntryFollows(s1, s2, s3, s4, k, v, val)
  }

  lemma UpdateFollows(s1: State, s2: State, s3: State, s4: State, k: nat, e1: Expr, e2: Expr, e3: Expr, e4: Expr, v: Triple, val: int)
    requires StatesFollow(s1, s2, s3, s4, v, val) && ExprFollows(e1, e2, e3, e4, v, val)
    ensures StatesFollow(s1[k := e1], s2[k := e2], s3[k := e3], s4[k := e4], v, val)
  {
    var t1, t2, t3, t4 := s1[k := e1], s2[k := e2], s3[k := e3], s4[k := e4];
    forall m: nat
      ensures EntryFollows(t1, t2, t3, t4, m, v, val)
    {
      if m != k {
        assert EntryFollows(s1, s2, s3, s4, m, v, val);
      }
    }
  }

  lemma NewExprFollows(s1: State, s2: State, s3: State, s4: State, i1: Instr, i2: Instr, i3: Instr, i4: Instr, names: map<Reg, nat>,
                       v: Triple, val: int)
    requires StatesFollow(s1, s2, s3, s4, v, val) && InstrFollows(i1, i2, i3, i4, v, val) && OperandNames(i1, names)
    ensures OperandNames(i2, names) && OperandNames(i3, names) && OperandNames(i4, names)
    ensures ExprFollows(NewExpr(s1, i1, names), NewExpr(s2, i2, names), NewExpr(s3, i3, names), NewExpr(s4, i4, names), v, val)
  {
    assert EntryFollows(s1, s2, s3, s4, names[i1.dst], v, val);
    match i1
    case Two(_, _, FromReg(r), _) =>
      assert EntryFollows(s1, s2, s3, s4, names[r], v, val);
    case Two(_, _, Imm(_), _) =>
    case Imul3(_, _, r, _) =>
      assert EntryFollows(s1, s2, s3, s4, names[r], v, val);
  }

  /** The state after n + 1 instructions, in the block's final names. */
  lemma StateAfterStep(code: seq<Instr>, n: nat, names: map<Reg, nat>)
    requires n < |code| && SubNames(RunSym(code).regMap, names)
    ensures Dispatched(code[n]) ==> OperandNames(code[n], names)
    ensures RunSym(code[..n + 1]).state ==
            if Dispatched(code[n]) then RunSym(code[..n]).state[names[code[n].dst] := NewExpr(RunSym(code[..n]).state, code[n], names)]
            else RunSym(code[..n]).state
  {
    PrefixNames(code, n);
    if Dispatched(code[n]) {
      StepNames(RunSym(code[..n]), code[n]);
      ApplyState(RunSym(code[..n]), code[n], names);
    }
  }

  lemma {:induction false} StepFollows(b1: seq<Instr>, b2: seq<Instr>, b3: seq<Instr>, b4: seq<Instr>, n: nat, names: map<Reg, nat>, v: Triple, val: int)
    requires n < |b1| && n < |b2| && n < |b3| && n < |b4| && InstrFollows(b1[n], b2[n], b3[n], b4[n], v, val)
    requires RunSym(b1).regMap == RunSym(b2).regMap == RunSym(b3).regMap == RunSym(b4).regMap == names
    requires StatesFollow(RunSym(b1[..n]).state, RunSym(b2[..n]).state, RunSym(b3[..n]).state, RunSym(b4[..n]).state, v, val)
    ensures StatesFollow(RunSym(b1[..n + 1]).state, RunSym(b2[..n + 1]).state, RunSym(b3[..n + 1]).state, RunSym(b4[..n + 1]).state, v, val)
  {
    StateAfterStep(b1, n, names);
    StateAfterStep(b2, n, names);
    StateAfterStep(b3, n, names);
    StateAfterStep(b4, n, names);
    ShapeDispatch(b1[n], b2[n]);
    ShapeDispatch(b1[n], b3[n]);
    ShapeDispatch(b1[n], b4[n]);
    if Dispatched(b1[n]) {
      var s1, s2, s3, s4 := RunSym(b1[..n]).state, RunSym(b2[..n]).state, RunSym(b3[..n]).state, RunSym(b4[..n]).state;
      NewExprFollows(s1, s2, s3, s4, b1[n], b2[n], b3[n], b4[n], names, v, val);
      UpdateFollows(s1, s2, s3, s4, names[b1[n].dst], NewExpr(s1, b1[n], names), NewExpr(s2, b2[n], names),
                    NewExpr(s3, b3[n], names), NewExpr(s4, b4[n], names), v, val);
    }
  }

  /** Symbolic execution of builds that follow gives expressions that follow, after every prefix. */
  lemma {:induction false} RunFollows(b1: seq<Instr>, b2: seq<Instr>, b3: seq<Instr>, b4: seq<Instr>, n: nat, v: Triple, val: int)
    requires BlockFollows(b1, b2, b3, b4, v, val) && n <= |b1|
    requires RunSym(b1).regMap == RunSym(b2).regMap == RunSym(b3).regMap == RunSym(b4).regMap
    ensures StatesFollow(RunSym(b1[..n]).state, RunSym(b2[..n]).state, RunSym(b3[..n]).state, RunSym(b4[..n]).state, v, val)
  {
    if n == 0 {
      assert b1[..0] == [] && b2[..0] == [] && b3[..0] == [] && b4[..0] == [];
    } else {
      RunFollows(b1, b2, b3, b4, n - 1, v, val);
      StepFollows(b1, b2, b3, b4, n - 1, RunSym(b1).regMap, v, val);
    }
  }

  lemma SameInstr(i: Instr, i4: Instr, v: Triple, val: int)
    requires InstrFollows(i, i, i, i4, v, val)
    ensures i4 == i
  {
  }

  /** Outside the chain, where the three builds agree, the fourth agrees too. */
  lemma FollowingDiffersWithin(b1: seq<Instr>, b2: seq<Instr>, b3: seq<Instr>, b4: seq<Instr>, v: Triple, val: int, step: nat, end: nat)
    requires BlockFollows(b1, b2, b3, b4, v, val) && DifferWithin(b1, b2, step, end) && DifferWithin(b1, b3, step, end)
    ensures DifferWithin(b1, b4, step, end)
  {
    forall j | 0 <= j < |b1| && !(step <= j <= end)
      ensures b1[j] == b4[j]
    {
      SameInstr(b1[j], b4[j], v, val);
    }
  }

  lemma FollowingIsBuild(b1: seq<Instr>, b2: seq<Instr>, b3: seq<Instr>, b4: seq<Instr>, v: Triple, val: int,
                         target: Reg, step: nat, end: nat, c: CExpr)
    requires BlockFollows(b1, b2, b3, b4, v, val) && step <= end < |b1| && target in RunSym(b1).regMap
    requires DifferWithin(b1, b2, step, end) && DifferWithin(b1, b3, step, end)
    requires IsCompound(b1, b2, b3, step, end + 1, RunSym(b1).regMap[target], v, c) && IntegerForm(c)
    ensures IsBuildFor(b1, b4, target, step, end, c, val)
  {
    var k, n := RunSym(b1).regMap[target], end + 1;
    FollowingDiffersWithin(b1, b2, b3, b4, v, val, step, end);
    ShapesNameAlike(b1, b2);
    ShapesNameAlike(b1, b3);
    ShapesNameAlike(b1, b4);
    RunFollows(b1, b2, b3, b4, n, v, val);
    assert EntryFollows(RunSym(b1[..n]).state, RunSym(b2[..n]).state, RunSym(b3[..n]).state, RunSym(b4[..n]).state, k, v, val);
    MergeFollows(ExprAfter(b1, n, k), ExprAfter(b2, n, k), ExprAfter(b3, n, k), ExprAfter(b4, n, k), ExprAfter(b1, step, k), v, val);
  }

  /** The observed builds follow the fit at their own values. */
  lemma ObservedFollow(b1: seq<Instr>, b2: seq<Instr>, b3: seq<Instr>, v: Triple, i: nat)
    requires Spaced(v) && SameShapes(b1, b2) && SameShapes(b1, b3) && 1 <= i <= 3
    ensures BlockFollows(b1, b2, b3, Pick(i, b1, b2, b3), v, Pick(i, v.x1, v.x2, v.x3))
  {
    forall j | 0 <= j < |b1|
      ensures InstrFollows(b1[j], b2[j], b3[j], Pick(i, b1[j], b2[j], b3[j]), v, Pick(i, v.x1, v.x2, v.x3))
    {
      assert SameShape(b1[j], b2[j]) && SameShape(b1[j], b3[j]);
      if HasImm(b1[j]) {
        OwnNumberFollows(Triple(ImmOf(b1[j]), ImmOf(b2[j]), ImmOf(b3[j])), v, i);
      }
    }
  }

  lemma OwnNumberFollows(n: Triple, v: Triple, i: nat)
    requires Spaced(v) && 1 <= i <= 3 && n.x1 >= 0 && n.x2 >= 0 && n.x3 >= 0
    ensures NumFollows(n, Pick(i, n.x1, n.x2, n.x3), v, Pick(i, v.x1, v.x2, v.x3))
  {
    var r := BuildNumber(n, v);
    if r.Some? && IntegerForm(r.value) {
      NumberCorrect(n, v, i);
    }
  }

  /** For every value the first build, run with the save probe and with the apply probe after the chain,
      leaves every register with the same low w bits as the build that follows the fit at that value. */
  lemma TunedBlockIsFaithful(w: nat, b1: seq<Instr>, b2: seq<Instr>, b3: seq<Instr>, b4: seq<Instr>, v: Triple, val: int,
                             target: Reg, step: nat, end: nat, c: CExpr, regs: Regs)
    requires 0 < w <= 64 && BlockFollows(b1, b2, b3, b4, v, val) && end < |b4| && Supported(w, b4[..end + 1], regs)
    requires ChainFound(b1, b2, b3, target, step, end) && step <= end < |b1|
    requires IsCompound(b1, b2, b3, step, end + 1, RunSym(b1).regMap[target], v, c)
    requires IntegerForm(c) && Closed(c) && NoLeak(w, c, RunCpu(w, b1[..step], regs)[target], val)
    requires DifferWithin(b1, b2, step, end) && DifferWithin(b1, b3, step, end)
    ensures SameLow(w, RunProbed(w, b1, target, step, end + 1, c, val, regs), RunCpu(w, b4, regs))
  {
    FollowingIsBuild(b1, b2, b3, b4, v, val, target, step, end, c);
    SamePrefixes(b1, b2, b3, step, end);
    ChainOfBoth(b1, b2, b3, target, step, end, b4);
    BuildIsMatched(w, b1, b4, target, step, end, c, val, regs);
  }

  /** And exactly then, where a leak would show: on leaving the chain the registers agree if and only if
      nothing leaks at the value. */
  lemma TunedExact(w: nat, b1: seq<Instr>, b2: seq<Instr>, b3: seq<Instr>, b4: seq<Instr>, v: Triple, val: int,
                   target: Reg, step: nat, end: nat, c: CExpr, regs: Regs)
    requires 0 < w <= 64 && BlockFollows(b1, b2, b3, b4, v, val) && end < |b4| && Supported(w, b4[..end + 1], regs)
    requires ChainFound(b1, b2, b3, target, step, end) && step <= end < |b1|
    requires IsCompound(b1, b2, b3, step, end + 1, RunSym(b1).regMap[target], v, c)
    requires IntegerForm(c) && Closed(c) && LeakShows(w, c, RunCpu(w, b1[..step], regs)[target], val)
    requires DifferWithin(b1, b2, step, end) && DifferWithin(b1, b3, step, end)
    ensures SameLow(w, RunCpu(w, b1[..end + 1], regs)[target := Applied(w, b1, target, step, c, val, regs)], RunCpu(w, b4[..end + 1], regs))
            <==> NoLeak(w, c, RunCpu(w, b1[..step], regs)[target], val)
  {
    FollowingIsBuild(b1, b2, b3, b4, v, val, target, step, end, c);
    SamePrefixes(b1, b2, b3, step, end);
    ChainOfBoth(b1, b2, b3, target, step, end, b4);
    ChainExact(w, b1, b4, target, step, end, c, val, regs);
  }

  /** The same at every candidate of the attachment window that no earlier instruction of the window spoils. */
  lemma TunedAtAnyCandidate(w: nat, b1: seq<Instr>, b2: seq<Instr>, b3: seq<Instr>, b4: seq<Instr>, v: Triple, val: int,
                            target: Reg, step: nat, end: nat, c: CExpr, candidates: seq<nat>, j: nat, regs: Regs)
    requires 0 < w <= 64 && BlockFollows(b1, b2, b3, b4, v, val) && end < |b4| && Supported(w, b4[..end + 1], regs)
    requires ChainFound(b1, b2, b3, target, step, end) && step <= end < |b1|
    requires IsCompound(b1, b2, b3, step, end + 1, RunSym(b1).regMap[target], v, c)
    requires IntegerForm(c) && Closed(c) && NoLeak(w, c, RunCpu(w, b1[..step], regs)[target], val)
    requires DifferWithin(b1, b2, step, end) && DifferWithin(b1, b3, step, end)
    requires IsWindow(b1[end + 1..], target, candidates) && j in candidates && !WritesTarget(b1[end + 1..][..j], target)
    ensures end + 1 + j <= |b1|
    ensures SameLow(w, RunProbed(w, b1, target, step, end + 1 + j, c, val, regs), RunCpu(w, b4, regs))
  {
    AnyPlacementWillDo(w, b1, target, step, end, c, val, candidates, j, regs);
    TunedBlockIsFaithful(w, b1, b2, b3, b4, v, val, target, step, end, c, regs);
  }
}
