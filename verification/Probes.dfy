/** Probe synthesis: the effective-end loop and the helpers of src/codegen.py
    (`analyze_linear_relationship` and `generate_multi_kprobe_bpf_file`), and what running a block with
    the generated probes computes. */
module Probes {
  import opened Wrappers
  import opened Machine
  import opened SymExec
  import opened SymSound
  import opened LinearFit
  import opened Compound
  import opened Leaks
  import opened Window

  type States = seq<map<nat, Expr>>

  // ---------------------------------------------------------------- the effective end

  function Entry(state: map<nat, Expr>, k: nat): Option<Expr> {
    if k in state then Some(state[k]) else None
  }

  predicate Varies(s1: map<nat, Expr>, s2: map<nat, Expr>, s3: map<nat, Expr>, k: nat) {
    !(Entry(s1, k) == Entry(s2, k) == Entry(s3, k))
  }

  /** Step j still varies and changed the register in the first version. */
  predicate Extends(st1: States, st2: States, st3: States, k: nat, j: nat)
    requires 0 < j < |st1| && j < |st2| && j < |st3|
  {
    Varies(st1[j], st2[j], st3[j], k) && Entry(st1[j], k) != Entry(st1[j - 1], k)
  }

  /** For a register that is present throughout: the three values are not all equal, and the first is not
      that of the step before. */
  lemma ExtendsExact(st1: States, st2: States, st3: States, k: nat, j: nat)
    requires 0 < j < |st1| && j < |st2| && j < |st3|
    requires k in st1[j - 1] && k in st1[j] && k in st2[j] && k in st3[j]
    ensures Extends(st1, st2, st3, k, j) <==>
            (st1[j][k] != st2[j][k] || st1[j][k] != st3[j][k]) && st1[j][k] != st1[j - 1][k]
  {
  }

  ghost predicate IsEffectiveEnd(st1: States, st2: States, st3: States, k: nat, step: nat, end: nat) {
    && step <= end < |st1| && end < |st2| && end < |st3|
    && (forall j :: step < j <= end ==> Extends(st1, st2, st3, k, j))
    && (end + 1 < |st1| && end + 1 < |st2| && end + 1 < |st3| ==> !Extends(st1, st2, st3, k, end + 1))
  }

  method EffectiveEnd(st1: States, st2: States, st3: States, k: nat, step: nat) returns (end: nat)
    requires step < |st1| && step < |st2| && step < |st3|
    ensures IsEffectiveEnd(st1, st2, st3, k, step, end)
  {
    var minLen := if |st1| <= |st2| then |st1| else |st2|;
    minLen := if minLen <= |st3| then minLen else |st3|;
    end := step;
    var j := step + 1;
    while j < minLen
      invariant step < j <= minLen && end == j - 1
      invariant forall m :: step < m <= end ==> Extends(st1, st2, st3, k, m)
    {
      var e1, e2, e3 := Entry(st1[j], k), Entry(st2[j], k), Entry(st3[j], k);
      if e1 == e2 == e3 {
        break;
      }
      if e1 != Entry(st1[j - 1], k) {
        end := j;
      } else {
        break;
      }
      j := j + 1;
    }
  }

  // ---------------------------------------------------------------- the three builds of a block

  /** The same instruction but for the value of an immediate. */
  predicate SameShape(a: Instr, b: Instr) {
    match (a, b)
    case (Two(op, sfx, Imm(_), dst), Two(op', sfx', Imm(_), dst')) => op == op' && sfx == sfx' && dst == dst'
    case (Two(op, sfx, FromReg(r), dst), Two(op', sfx', FromReg(r'), dst')) =>
      op == op' && sfx == sfx' && dst == dst' && r == r'
    case (Imul3(sfx, _, r, dst), Imul3(sfx', _, r', dst')) => sfx == sfx' && dst == dst' && r == r'
    case (_, _) => false
  }

  predicate SameShapes(a: seq<Instr>, b: seq<Instr>) {
    |a| == |b| && forall j :: 0 <= j < |a| ==> SameShape(a[j], b[j])
  }

  /** The two builds differ, if at all, between steps `from` and `to`. */
  ghost predicate DifferWithin(a: seq<Instr>, b: seq<Instr>, from: nat, to: nat) {
    SameShapes(a, b) && forall j :: 0 <= j < |a| && !(from <= j <= to) ==> a[j] == b[j]
  }

  /** Builds of the same shape give their registers the same names. */
  lemma {:induction false} ShapesNameAlike(a: seq<Instr>, b: seq<Instr>)
    requires SameShapes(a, b)
    ensures RunSym(a).regMap == RunSym(b).regMap && RunSym(a).counter == RunSym(b).counter
  {
    if a != [] {
      var n := |a| - 1;
      ShapesNameAlike(a[..n], b[..n]);
      ShapeNames(RunSym(a[..n]), RunSym(b[..n]), a[n], b[n]);
    }
  }

  lemma ShapeDispatch(a: Instr, b: Instr)
    requires SameShape(a, b)
    ensures Dispatched(a) <==> Dispatched(b)
  {
  }

  lemma NamedAlike(s: Sym, t: Sym, r: Reg)
    requires s.regMap == t.regMap && s.counter == t.counter
    ensures Named(s, r).regMap == Named(t, r).regMap && Named(s, r).counter == Named(t, r).counter
  {
  }

  lemma ShapeOperands(s: Sym, t: Sym, a: Instr, b: Instr)
    requires s.regMap == t.regMap && s.counter == t.counter && SameShape(a, b)
    ensures OperandsNamed(s, a).regMap == OperandsNamed(t, b).regMap
    ensures OperandsNamed(s, a).counter == OperandsNamed(t, b).counter
  {
    match a
    case Two(_, _, Imm(_), dst) => NamedAlike(s, t, dst);
    case Two(_, _, FromReg(r), dst) =>
      NamedAlike(s, t, r);
      NamedAlike(Named(s, r), Named(t, r), dst);
    case Imul3(_, _, r, dst) =>
      NamedAlike(s, t, r);
      NamedAlike(Named(s, r), Named(t, r), dst);
  }

  lemma ShapeNames(s: Sym, t: Sym, a: Instr, b: Instr)
    requires s.regMap == t.regMap && s.counter == t.counter && SameShape(a, b)
    ensures SymStep(s, a).regMap == SymStep(t, b).regMap && SymStep(s, a).counter == SymStep(t, b).counter
  {
    ApplyNames(s, a);
    ApplyNames(t, b);
    ShapeDispatch(a, b);
    ShapeOperands(s, t, a, b);
  }

  /** A step that does not write a register leaves its entry. */
  lemma StepKeepsEntry(s: Sym, i: Instr, names: map<Reg, nat>, target: Reg)
    requires WellNamed(s) && SubNames(SymStep(s, i).regMap, names) && target in names && i.dst != target
    requires forall r, q :: r in names && q in names && r != q ==> names[r] != names[q]
    ensures Entry(SymStep(s, i).state, names[target]) == Entry(s.state, names[target])
  {
    if Dispatched(i) {
      StepNames(s, i);
      ApplyState(s, i, names);
    }
  }

  /** The prefix states of a block, seen with the block's final names. */
  lemma PrefixNames(code: seq<Instr>, j: nat)
    requires j < |code|
    ensures RunSym(code[..j + 1]) == SymStep(RunSym(code[..j]), code[j]) && WellNamed(RunSym(code[..j]))
    ensures SubNames(RunSym(code[..j + 1]).regMap, RunSym(code).regMap)
  {
    assert code[..j + 1][..j] == code[..j];
    NamesKept(code[..j]);
    NamesGrow(code, j + 1);
  }

  lemma EntryKept(code: seq<Instr>, j: nat, target: Reg)
    requires j < |code| && target in RunSym(code).regMap && code[j].dst != target
    ensures var k := RunSym(code).regMap[target];
            Entry(RunSym(code[..j + 1]).state, k) == Entry(RunSym(code[..j]).state, k)
  {
    PrefixNames(code, j);
    NamesKept(code);
    StepKeepsEntry(RunSym(code[..j]), code[j], RunSym(code).regMap, target);
  }

  // ---------------------------------------------------------------- save and apply

  /** The expression of an anonymous register after the first n instructions. */
  function ExprAfter(code: seq<Instr>, n: nat, k: nat): Expr
    requires n <= |code|
  {
    Get(RunSym(code[..n]).state, k)
  }

  /** `c` is the compound expression for the chain from `step` up to the first n instructions. */
  predicate IsCompound(b1: seq<Instr>, b2: seq<Instr>, b3: seq<Instr>, step: nat, n: nat, k: nat, v: Triple, c: CExpr)
    requires step <= n <= |b1| && n <= |b2| && n <= |b3|
  {
    BuildCompound(ExprAfter(b1, n, k), ExprAfter(b2, n, k), ExprAfter(b3, n, k), ExprAfter(b1, step, k), v) == Some(c)
  }

  /** The chain of a target: it varies at `step`, and `end` is the effective end. */
  ghost predicate ChainFound(b1: seq<Instr>, b2: seq<Instr>, b3: seq<Instr>, target: Reg, step: nat, end: nat) {
    && SameShapes(b1, b2) && SameShapes(b1, b3) && end < |b1| && target in RunSym(b1).regMap
    && var k := RunSym(b1).regMap[target];
       && IsEffectiveEnd(Recorded(b1), Recorded(b2), Recorded(b3), k, step, end)
       && Varies(Recorded(b1)[step], Recorded(b2)[step], Recorded(b3)[step], k)
  }

  /** The target is written by the seed, in every build. */
  lemma SeedWritesTarget(b1: seq<Instr>, b2: seq<Instr>, b3: seq<Instr>, target: Reg, step: nat)
    requires SameShapes(b1, b2) && SameShapes(b1, b3) && step < |b1| && target in RunSym(b1).regMap
    requires b1[..step] == b2[..step] == b3[..step]
    requires Varies(Recorded(b1)[step], Recorded(b2)[step], Recorded(b3)[step], RunSym(b1).regMap[target])
    ensures b1[step].dst == target
  {
    if b1[step].dst != target {
      assert SameShape(b1[step], b2[step]) && SameShape(b1[step], b3[step]);
      ShapesNameAlike(b1, b2);
      ShapesNameAlike(b1, b3);
      EntryKept(b1, step, target);
      EntryKept(b2, step, target);
      EntryKept(b3, step, target);
      assert false;
    }
  }

  /** Past its seed the chain changes the target's entry at every step. */
  lemma ChainChanges(b1: seq<Instr>, b2: seq<Instr>, b3: seq<Instr>, target: Reg, step: nat, end: nat, j: nat)
    requires ChainFound(b1, b2, b3, target, step, end) && step < j <= end
    ensures var k := RunSym(b1).regMap[target];
            Entry(RunSym(b1[..j + 1]).state, k) != Entry(RunSym(b1[..j]).state, k)
  {
    assert Extends(Recorded(b1), Recorded(b2), Recorded(b3), RunSym(b1).regMap[target], j);
    RecordedAt(b1, j);
    RecordedAt(b1, j + 1);
  }

  /** The target is written by every step of the chain. */
  lemma ChainWritesTarget(b1: seq<Instr>, b2: seq<Instr>, b3: seq<Instr>, target: Reg, step: nat, end: nat, j: nat)
    requires ChainFound(b1, b2, b3, target, step, end) && step <= j <= end
    requires b1[..step] == b2[..step] == b3[..step]
    ensures b1[j].dst == target
  {
    if j == step {
      SeedWritesTarget(b1, b2, b3, target, j);
    } else if b1[j].dst != target {
      ChainChanges(b1, b2, b3, target, step, end, j);
      EntryKept(b1, j, target);
    }
  }

  /** What the apply helper writes, the save probe having run before `step`. */
  function Applied(w: nat, code: seq<Instr>, target: Reg, step: nat, c: CExpr, val: int, regs: Regs): nat
    requires w > 0 && step <= |code| && IntegerForm(c) && Closed(c)
  {
    EvalC(w, c, RunCpu(w, code[..step], regs)[target], val)
  }

  /** The build with a save probe before `step` and an apply probe before position `at`. */
  function RunProbed(w: nat, code: seq<Instr>, target: Reg, step: nat, at: nat, c: CExpr, val: int, regs: Regs): Regs
    requires w > 0 && step <= |code| && at <= |code| && IntegerForm(c) && Closed(c)
  {
    RunPatched(w, code, at, target, Applied(w, code, target, step, c, val, regs), regs)
  }

  /** An assignment of values to names under which every register starts with its initial value. */
  lemma InitialEnv(code: seq<Instr>, regs: Regs) returns (env: nat -> nat)
    ensures Initial(RunSym(code).regMap, env, regs)
  {
    NamesKept(code);
    var names := RunSym(code).regMap;
    env := InverseEnv(names, regs);
  }

  ghost function InverseEnv(names: map<Reg, nat>, regs: Regs): nat -> nat {
    (k: nat) => if exists r: Reg :: r in names && names[r] == k
                then var r: Reg :| r in names && names[r] == k; regs[r] else 0
  }

  /** The recorded expressions of the target before the seed and at the effective end have the values
      that the processor has there. */
  lemma ChainValues(w: nat, code: seq<Instr>, step: nat, end: nat, target: Reg, regs: Regs) returns (env: nat -> nat)
    requires w > 0 && step <= end < |code| && target in RunSym(code).regMap && Supported(w, code[..end + 1], regs)
    ensures var k := RunSym(code).regMap[target];
            && Eval(w, Get(RunSym(code[..step]).state, k), env) == Low(w, RunCpu(w, code[..step], regs)[target])
            && Eval(w, Get(RunSym(code[..end + 1]).state, k), env) == Low(w, RunCpu(w, code[..end + 1], regs)[target])
  {
    var names := RunSym(code).regMap;
    env := InitialEnv(code, regs);
    SupportedPrefix(w, code[..end + 1], step, regs);
    assert code[..end + 1][..step] == code[..step];
    SymExecSound(w, code, step, names, env, regs);
    SymExecSound(w, code, end + 1, names, env, regs);
  }

  /** Saving and substituting: the template has the value of the instance. */
  lemma SubstitutedValue(w: nat, c: CExpr, savedExpr: Expr, val: int, e: Expr, env: nat -> nat, saved: nat)
    requires IntegerForm(c) && IsInstance(c, savedExpr, val, e) && Eval(w, savedExpr, env) == Low(w, saved)
    ensures EvalTemplate(w, c, saved, val, env) == Eval(w, e, env)
  {
    InstanceValue(w, c, savedExpr, val, e, env);
    SavedLow(w, c, saved, val, env);
  }

  /** Of the saved value the template sees the low bits. */
  lemma {:induction false} SavedLow(w: nat, c: CExpr, saved: nat, val: int, env: nat -> nat)
    requires IntegerForm(c)
    ensures EvalTemplate(w, c, Low(w, saved), val, env) == EvalTemplate(w, c, saved, val, env)
    decreases c
  {
    match c
    case Saved => LowLow(w, saved);
    case COp(_, l, r) =>
      SavedLow(w, l, saved, val, env);
      SavedLow(w, r, saved, val, env);
    case _ =>
  }

  /** `b` is a build for `val`: it differs from the first within the chain only, and the target's
      expression at the end of the chain is the compound expression with `val` put in. */
  ghost predicate IsBuildFor(b1: seq<Instr>, b: seq<Instr>, target: Reg, step: nat, end: nat, c: CExpr, val: int) {
    && step <= end < |b1| && DifferWithin(b1, b, step, end) && target in RunSym(b1).regMap && IntegerForm(c)
    && IsInstance(c, ExprAfter(b1, step, RunSym(b1).regMap[target]), val, ExprAfter(b, end + 1, RunSym(b1).regMap[target]))
  }

  /** What the apply helper writes agrees with the build for `val` exactly when the C expression is right. */
  lemma AppliedAgainstBuild(w: nat, b1: seq<Instr>, b: seq<Instr>, target: Reg, step: nat, end: nat, c: CExpr, val: int, regs: Regs)
      returns (env: nat -> nat)
    requires 0 < w <= 64 && IsBuildFor(b1, b, target, step, end, c, val) && Supported(w, b[..end + 1], regs) && Closed(c)
    ensures Low(w, Applied(w, b1, target, step, c, val, regs)) == Low(w, RunCpu(w, b[..end + 1], regs)[target])
            <==> Right(w, c, RunCpu(w, b1[..step], regs)[target], val, env)
  {
    var k := RunSym(b1).regMap[target];
    ShapesNameAlike(b1, b);
    SameAround(b1, b, step, end);
    SamePrefix(w, b, b1, step, k, regs);
    env := ChainValues(w, b, step, end, target, regs);
    SubstitutedValue(w, c, ExprAfter(b1, step, k), val, ExprAfter(b, end + 1, k), env, RunCpu(w, b1[..step], regs)[target]);
  }

  /** If nothing leaks, the value applied by the probe is, in its low w bits, the value that the build for
      `val` has in the target at the effective end. */
  lemma AppliedValue(w: nat, b1: seq<Instr>, b: seq<Instr>, target: Reg, step: nat, end: nat, c: CExpr, val: int, regs: Regs)
    requires 0 < w <= 64 && IsBuildFor(b1, b, target, step, end, c, val) && Supported(w, b[..end + 1], regs)
    requires Closed(c) && NoLeak(w, c, RunCpu(w, b1[..step], regs)[target], val)
    ensures Low(w, Applied(w, b1, target, step, c, val, regs)) == Low(w, RunCpu(w, b[..end + 1], regs)[target])
  {
    var env := AppliedAgainstBuild(w, b1, b, target, step, end, c, val, regs);
    NoLeakIsRight(w, c, RunCpu(w, b1[..step], regs)[target], val, env);
  }

  /** Where a leak would show, exactly if nothing leaks. */
  lemma AppliedExact(w: nat, b1: seq<Instr>, b: seq<Instr>, target: Reg, step: nat, end: nat, c: CExpr, val: int, regs: Regs)
    requires 0 < w <= 64 && IsBuildFor(b1, b, target, step, end, c, val) && Supported(w, b[..end + 1], regs)
    requires Closed(c) && LeakShows(w, c, RunCpu(w, b1[..step], regs)[target], val)
    ensures Low(w, Applied(w, b1, target, step, c, val, regs)) == Low(w, RunCpu(w, b[..end + 1], regs)[target])
            <==> NoLeak(w, c, RunCpu(w, b1[..step], regs)[target], val)
  {
    var env := AppliedAgainstBuild(w, b1, b, target, step, end, c, val, regs);
    LeakExact(w, c, RunCpu(w, b1[..step], regs)[target], val, env);
  }

  /** Two chains that write the target only leave the other registers alike. */
  lemma OthersAlike(w: nat, c: seq<Instr>, d: seq<Instr>, target: Reg, r: Reg, regs: Regs)
    requires w > 0 && r != target
    requires (forall j :: 0 <= j < |c| ==> c[j].dst == target) && (forall j :: 0 <= j < |d| ==> d[j].dst == target)
    ensures RunCpu(w, c, regs)[r] == RunCpu(w, d, regs)[r]
  {
  }

  lemma PatchedSameLow(w: nat, x: Regs, y: Regs, target: Reg, value: nat)
    requires Low(w, value) == Low(w, y[target]) && forall r: Reg :: r != target ==> x[r] == y[r]
    ensures SameLow(w, x[target := value], y)
  {
  }

  lemma RunParts(w: nat, code: seq<Instr>, step: nat, end: nat, regs: Regs)
    requires w > 0 && step <= end < |code|
    ensures RunCpu(w, code[..end + 1], regs) == RunCpu(w, code[step..end + 1], RunCpu(w, code[..step], regs))
    ensures RunCpu(w, code, regs) == RunCpu(w, code[end + 1..], RunCpu(w, code[..end + 1], regs))
  {
    assert code[..end + 1] == code[..step] + code[step..end + 1];
    RunAppend(w, code[..step], code[step..end + 1], regs);
    assert code == code[..end + 1] + code[end + 1..];
    RunAppend(w, code[..end + 1], code[end + 1..], regs);
  }

  /** What follows the chain is the same code in both builds, and what is inside it writes the target only. */
  lemma AroundTheChain(w: nat, a: seq<Instr>, b: seq<Instr>, step: nat, end: nat, target: Reg, value: nat, regs: Regs)
    requires w > 0 && step <= end < |a| && DifferWithin(a, b, step, end)
    requires forall j :: step <= j <= end ==> a[j].dst == target && b[j].dst == target
    requires Low(w, value) == Low(w, RunCpu(w, b[..end + 1], regs)[target])
    ensures SameLow(w, RunPatched(w, a, end + 1, target, value, regs), RunCpu(w, b, regs))
  {
    var mine, theirs := RunCpu(w, a[..end + 1], regs), RunCpu(w, b[..end + 1], regs);
    SameAround(a, b, step, end);
    forall r: Reg | r != target
      ensures mine[r] == theirs[r]
    {
      OthersAfterChain(w, a, b, step, end, target, r, regs);
    }
    PatchedSameLow(w, mine, theirs, target, value);
    RunKeepsSameLow(w, b[end + 1..], mine[target := value], theirs);
    RunParts(w, b, step, end, regs);
  }

  lemma OthersAfterChain(w: nat, a: seq<Instr>, b: seq<Instr>, step: nat, end: nat, target: Reg, r: Reg, regs: Regs)
    requires w > 0 && step <= end < |a| && |a| == |b| && a[..step] == b[..step] && r != target
    requires forall j :: step <= j <= end ==> a[j].dst == target && b[j].dst == target
    ensures RunCpu(w, a[..end + 1], regs)[r] == RunCpu(w, b[..end + 1], regs)[r]
  {
    RunParts(w, a, step, end, regs);
    RunParts(w, b, step, end, regs);
    OthersAlike(w, a[step..end + 1], b[step..end + 1], target, r, RunCpu(w, a[..step], regs));
  }

  lemma SameAround(a: seq<Instr>, b: seq<Instr>, step: nat, end: nat)
    requires step <= end < |a| && DifferWithin(a, b, step, end)
    ensures |b| == |a| && a[..step] == b[..step] && a[end + 1..] == b[end + 1..]
  {
  }

  lemma SamePrefix(w: nat, a: seq<Instr>, b: seq<Instr>, n: nat, k: nat, regs: Regs)
    requires w > 0 && n <= |a| && n <= |b| && a[..n] == b[..n]
    ensures ExprAfter(a, n, k) == ExprAfter(b, n, k) && RunCpu(w, a[..n], regs) == RunCpu(w, b[..n], regs)
  {
  }

  lemma ChainOfBoth(b1: seq<Instr>, b2: seq<Instr>, b3: seq<Instr>, target: Reg, step: nat, end: nat, code: seq<Instr>)
    requires ChainFound(b1, b2, b3, target, step, end) && SameShapes(b1, code)
    requires b1[..step] == b2[..step] == b3[..step]
    ensures forall j :: step <= j <= end ==> b1[j].dst == target && code[j].dst == target
  {
    forall j | step <= j <= end
      ensures b1[j].dst == target && code[j].dst == target
    {
      ChainWritesTarget(b1, b2, b3, target, step, end, j);
      assert SameShape(b1[j], code[j]);
    }
  }

  lemma SamePrefixes(b1: seq<Instr>, b2: seq<Instr>, b3: seq<Instr>, step: nat, end: nat)
    requires DifferWithin(b1, b2, step, end) && DifferWithin(b1, b3, step, end) && step <= |b1|
    ensures b1[..step] == b2[..step] == b3[..step]
  {
  }

  /** The first build run with the two probes leaves every register with the same low w bits as a build for
      the value. */
  lemma BuildIsMatched(w: nat, b1: seq<Instr>, b: seq<Instr>, target: Reg, step: nat, end: nat, c: CExpr, val: int, regs: Regs)
    requires 0 < w <= 64 && IsBuildFor(b1, b, target, step, end, c, val) && Supported(w, b[..end + 1], regs)
    requires forall j :: step <= j <= end ==> b1[j].dst == target && b[j].dst == target
    requires Closed(c) && NoLeak(w, c, RunCpu(w, b1[..step], regs)[target], val)
    ensures SameLow(w, RunProbed(w, b1, target, step, end + 1, c, val, regs), RunCpu(w, b, regs))
  {
    AppliedValue(w, b1, b, target, step, end, c, val, regs);
    AroundTheChain(w, b1, b, step, end, target, Applied(w, b1, target, step, c, val, regs), regs);
  }

  /** On leaving the chain the probed block has the registers of the build, in their low w bits, exactly if
      nothing leaks, where a leak would show. */
  lemma ChainExact(w: nat, b1: seq<Instr>, b: seq<Instr>, target: Reg, step: nat, end: nat, c: CExpr, val: int, regs: Regs)
    requires 0 < w <= 64 && IsBuildFor(b1, b, target, step, end, c, val) && Supported(w, b[..end + 1], regs)
    requires forall j :: step <= j <= end ==> b1[j].dst == target && b[j].dst == target
    requires Closed(c) && LeakShows(w, c, RunCpu(w, b1[..step], regs)[target], val)
    ensures SameLow(w, RunCpu(w, b1[..end + 1], regs)[target := Applied(w, b1, target, step, c, val, regs)], RunCpu(w, b[..end + 1], regs))
            <==> NoLeak(w, c, RunCpu(w, b1[..step], regs)[target], val)
  {
    var value := Applied(w, b1, target, step, c, val, regs);
    var mine, theirs := RunCpu(w, b1[..end + 1], regs), RunCpu(w, b[..end + 1], regs);
    AppliedExact(w, b1, b, target, step, end, c, val, regs);
    SameAround(b1, b, step, end);
    forall r: Reg | r != target
      ensures mine[r] == theirs[r]
    {
      OthersAfterChain(w, b1, b, step, end, target, r, regs);
    }
    PatchedExactly(w, mine, theirs, target, value);
  }

  lemma PatchedExactly(w: nat, x: Regs, y: Regs, target: Reg, value: nat)
    requires forall r: Reg :: r != target ==> x[r] == y[r]
    ensures SameLow(w, x[target := value], y) <==> Low(w, value) == Low(w, y[target])
  {
    if Low(w, value) == Low(w, y[target]) {
      PatchedSameLow(w, x, y, target, value);
    } else {
      assert x[target := value][target] == value;
    }
  }

  /** Each of the three builds is a build for its value. */
  lemma ObservedBuild(b1: seq<Instr>, b2: seq<Instr>, b3: seq<Instr>, v: Triple, target: Reg, step: nat, end: nat, c: CExpr, i: nat)
    requires Spaced(v) && 1 <= i <= 3 && step <= end < |b1| && |b1| == |b2| == |b3| && target in RunSym(b1).regMap
    requires DifferWithin(b1, b2, step, end) && DifferWithin(b1, b3, step, end)
    requires IsCompound(b1, b2, b3, step, end + 1, RunSym(b1).regMap[target], v, c) && IntegerForm(c)
    ensures IsBuildFor(b1, Pick(i, b1, b2, b3), target, step, end, c, Pick(i, v.x1, v.x2, v.x3))
  {
    var k, n := RunSym(b1).regMap[target], end + 1;
    ShapeReflexive(b1);
    MergeInstance(ExprAfter(b1, n, k), ExprAfter(b2, n, k), ExprAfter(b3, n, k), ExprAfter(b1, step, k), v, i);
  }

  lemma ShapeReflexive(a: seq<Instr>)
    ensures SameShapes(a, a)
  {
  }

  /** For each of the three observed values, the first build run with the two probes leaves every register
      with the same low w bits as the build compiled for that value.  Asked for, beside what the analysis
      finds: integer coefficients, an expression that is C and in which nothing leaks into a right shift at
      this value, and builds that differ only within the chain. */
  lemma ProbedBlockIsFaithful(w: nat, b1: seq<Instr>, b2: seq<Instr>, b3: seq<Instr>, v: Triple, target: Reg, step: nat, end: nat,
                              c: CExpr, i: nat, regs: Regs)
    requires w in {32, 64} && Spaced(v) && 1 <= i <= 3 && step <= end < |b1| && |b1| == |b2| == |b3|
    requires ChainFound(b1, b2, b3, target, step, end)
    requires IsCompound(b1, b2, b3, step, end + 1, RunSym(b1).regMap[target], v, c)
    requires IntegerForm(c) && Closed(c) && NoLeak(w, c, RunCpu(w, b1[..step], regs)[target], Pick(i, v.x1, v.x2, v.x3))
    requires DifferWithin(b1, b2, step, end) && DifferWithin(b1, b3, step, end)
    requires |Pick(i, b1, b2, b3)| == |b1| && Supported(w, Pick(i, b1, b2, b3)[..end + 1], regs)
    ensures SameLow(w, RunProbed(w, b1, target, step, end + 1, c, Pick(i, v.x1, v.x2, v.x3), regs),
                    RunCpu(w, Pick(i, b1, b2, b3), regs))
  {
    var b := Pick(i, b1, b2, b3);
    ObservedBuild(b1, b2, b3, v, target, step, end, c, i);
    SamePrefixes(b1, b2, b3, step, end);
    ChainOfBoth(b1, b2, b3, target, step, end, b);
    BuildIsMatched(w, b1, b, target, step, end, c, Pick(i, v.x1, v.x2, v.x3), regs);
  }

  /** And wherever in the attachment window the apply probe is placed. */
  lemma AnyPlacementWillDo(w: nat, code: seq<Instr>, target: Reg, step: nat, end: nat, c: CExpr, val: int,
                           candidates: seq<nat>, j: nat, regs: Regs)
    requires w > 0 && step <= end < |code| && IntegerForm(c) && Closed(c)
    requires IsWindow(code[end + 1..], target, candidates) && j in candidates && !WritesTarget(code[end + 1..][..j], target)
    ensures end + 1 + j <= |code|
    ensures RunProbed(w, code, target, step, end + 1 + j, c, val, regs) == RunProbed(w, code, target, step, end + 1, c, val, regs)
  {
    AnyCandidateWillDo(w, code, end + 1, target, candidates, j, Applied(w, code, target, step, c, val, regs), regs);
  }
}
