/** The helper bodies that `generate_multi_kprobe_bpf_file` of src/codegen.py prints beside the save and
    apply pair: `simple`, `cmp_immediate`, and the inference that replaces the save probe after
    `sbb %reg,%reg`. */
module Helpers {
  import opened Words
  import opened Machine
  import opened SymExec
  import opened SymSound
  import opened LinearFit
  import opened Compound
  import opened Leaks
  import opened Flags
  import opened Window
  import opened Probes
  import opened Tuned

  // ---------------------------------------------------------------- simple

  /** Writing the tuned immediate itself gives what the seed instruction computes, for every content of
      the register. */
  ghost predicate ImmediateIsResult(w: nat, op: Op, n: nat)
    requires w > 0
  {
    forall x: nat :: x < Pow2(w) ==> Alu(w, op, x, Low(w, n)) == Low(w, n)
  }

  lemma AddIsNot(w: nat, n: nat)
    requires w > 0 && n < Pow2(w)
    ensures Alu(w, Add, 1, n) != n
  {
    if n + 1 < Pow2(w) {
      LowSmall(w, n + 1);
    } else {
      DivModUnique(n + 1, Pow2(w), 1, 0);
    }
  }

  lemma SubIsNot(w: nat, n: nat)
    requires w > 0 && n < Pow2(w)
    ensures Alu(w, Sub, 0, n) != n || Alu(w, Sub, 1, n) != n
  {
    DifferenceValue(w, 0, n);
    DifferenceValue(w, 1, n);
  }

  lemma XorIsNot(w: nat, n: nat)
    requires w > 0 && n < Pow2(w)
    ensures Alu(w, Xor, 1, n) != n
  {
    BitwiseStep(BitXor, 1, n);
  }

  lemma OrIsOnes(w: nat, n: nat)
    requires w > 0 && n < Pow2(w)
    ensures Alu(w, Or, Pow2(w) - 1, n) == Pow2(w) - 1
    ensures n == Pow2(w) - 1 ==> forall x: nat :: x < Pow2(w) ==> Alu(w, Or, x, n) == n
  {
    AllOnes(n, w);
    if n == Pow2(w) - 1 {
      forall x: nat | x < Pow2(w)
        ensures Alu(w, Or, x, n) == n
      {
        AllOnes(x, w);
      }
    }
  }

  /** The `simple` helper is right for `mov` seeds and for `or` with all ones, and for no other seed that
      it is used for. */
  lemma SimpleHelperExact(w: nat, op: Op, n: nat)
    requires w > 0 && op in {Mov, Add, Sub, Or, Xor}
    ensures ImmediateIsResult(w, op, n) <==> op == Mov || (op == Or && Low(w, n) == Pow2(w) - 1)
  {
    var low := Low(w, n);
    assert Pow2(w) == 2 * Pow2(w - 1);
    assert forall x: nat :: x < Pow2(w) && Alu(w, op, x, low) != low ==> !ImmediateIsResult(w, op, n);
    match op
    case Mov =>
    case Add => AddIsNot(w, low);
    case Sub => SubIsNot(w, low);
    case Or => OrIsOnes(w, low);
    case Xor => XorIsNot(w, low);
  }

  /** Where the helper is right for the seed it is right for the block: builds that differ in the seed
      only, run with the helper after it, agree in every register. */
  lemma SimpleBlockIsFaithful(w: nat, a: seq<Instr>, b: seq<Instr>, step: nat, n: nat, written: nat, regs: Regs)
    requires w > 0 && step < |a| && DifferWithin(a, b, step, step)
    requires b[step].Two? && b[step].src == Imm(n) && ImmediateIsResult(w, b[step].op, n) && Low(w, written) == Low(w, n)
    ensures SameLow(w, RunPatched(w, a, step + 1, b[step].dst, written, regs), RunCpu(w, b, regs))
  {
    assert SameShape(a[step], b[step]);
    var x := Low(w, RunCpu(w, b[..step], regs)[b[step].dst]);
    assert Alu(w, b[step].op, x, Low(w, n)) == Low(w, n);
    assert b[..step + 1][..step] == b[..step];
    LowLow(w, n);
    AroundTheChain(w, a, b, step, step, b[step].dst, written, regs);
  }

  // ---------------------------------------------------------------- cmp_immediate

  lemma CmpWrittenValue(w: nat, reg: nat, x: int)
    requires w in {32, 64}
    ensures AnswersLikeCmp(w, CmpStatus(w, Low(w, reg), Low(w, Low(64, x))), Low(w, reg), Low(w, x))
  {
    ModPow2(x, w, 64);
    CmpIsFaithful(w, Low(w, reg), Low(w, x));
  }

  /** The flags set for a fitted immediate answer every condition code as the comparison of the build for
      the i-th value does. */
  lemma CmpHelperIsFaithful(w: nat, v: Triple, iv: Triple, i: nat, reg: nat)
    requires w in {32, 64} && Spaced(v) && 1 <= i <= 3 && FindLinear(v, iv).Some?
    requires BuildExpr(FindLinear(v, iv).value).Integral?
    ensures var f := BuildExpr(FindLinear(v, iv).value);
            var written := Low(w, Low(64, f.p * Pick(i, v.x1, v.x2, v.x3) + f.q));
            AnswersLikeCmp(w, CmpStatus(w, Low(w, reg), written), Low(w, reg), Low(w, Pick(i, iv.x1, iv.x2, iv.x3)))
  {
    var f := BuildExpr(FindLinear(v, iv).value);
    IntegralIsExact(v, iv);
    assert f.p * Pick(i, v.x1, v.x2, v.x3) + f.q == Pick(i, iv.x1, iv.x2, iv.x3);
    CmpWrittenValue(w, reg, Pick(i, iv.x1, iv.x2, iv.x3));
  }

  // ---------------------------------------------------------------- sbb before the seed

  /** 0xFFFFFFFF, what `sbb %reg,%reg` leaves on a borrow. */
  function AllOnes32(): nat { Pow2(32) - 1 }

  /** The saved value as the helper infers it from the register after the chain. */
  function Inferred(cur: nat, v1: int): nat {
    if cur > v1 then 0 else AllOnes32()
  }

  /** The compound value for the original constant tells the two saved values apart. */
  predicate Telling(c: CExpr, v1: int)
    requires IntegerForm(c) && Closed(c)
  {
    Low(32, EvalC(32, c, 0, v1)) > v1 && Low(32, EvalC(32, c, AllOnes32(), v1)) <= v1
  }

  /** The helper infers the saved value and then computes, in the low 32 bits, what the expression gives
      for it at the new value. */
  ghost predicate RightAt(c: CExpr, v1: int, saved: nat, val: int, env: nat -> nat)
    requires IntegerForm(c) && Closed(c)
  {
    var inferred := Inferred(Low(32, EvalC(32, c, saved, v1)), v1);
    inferred == saved && Low(32, EvalC(32, c, inferred, val)) == EvalTemplate(32, c, saved, val, env)
  }

  lemma OnesFit()
    ensures 0 < AllOnes32() < Pow2(32) && 0 < Pow2(32)
  {
    assert Pow2(32) == 2 * Pow2(31);
  }

  /** With a telling expression the helper is right at every new value at which nothing leaks. */
  lemma TellingIsRight(c: CExpr, v1: int, saved: nat, val: int, env: nat -> nat)
    requires IntegerForm(c) && Closed(c) && NoLeak(32, c, saved, val)
    requires saved == 0 || saved == AllOnes32()
    requires Telling(c, v1)
    ensures RightAt(c, v1, saved, val, env)
  {
    OnesFit();
    NoLeakIsRight(32, c, saved, val, env);
  }

  /** The helper is right for both saved values at every new value at which nothing leaks exactly when the
      expression is telling at the original one, where nothing leaks. */
  lemma InferenceExact(c: CExpr, v1: int, env: nat -> nat)
    requires IntegerForm(c) && Closed(c) && NoLeak(32, c, 0, v1) && NoLeak(32, c, AllOnes32(), v1)
    ensures Telling(c, v1) <==> forall val ::
              && (NoLeak(32, c, 0, val) ==> RightAt(c, v1, 0, val, env))
              && (NoLeak(32, c, AllOnes32(), val) ==> RightAt(c, v1, AllOnes32(), val, env))
  {
    if Telling(c, v1) {
      forall val
        ensures NoLeak(32, c, 0, val) ==> RightAt(c, v1, 0, val, env)
        ensures NoLeak(32, c, AllOnes32(), val) ==> RightAt(c, v1, AllOnes32(), val, env)
      {
        if NoLeak(32, c, 0, val) {
          TellingIsRight(c, v1, 0, val, env);
        }
        if NoLeak(32, c, AllOnes32(), val) {
          TellingIsRight(c, v1, AllOnes32(), val, env);
        }
      }
    } else {
      OnesFit();
      assert !RightAt(c, v1, 0, v1, env) || !RightAt(c, v1, AllOnes32(), v1, env);
    }
  }

  /** The build with the apply helper alone before position `at`, the saved value being inferred. */
  function RunInferred(code: seq<Instr>, target: Reg, at: nat, c: CExpr, v1: int, val: int, regs: Regs): Regs
    requires at <= |code| && IntegerForm(c) && Closed(c)
  {
    var cur := Low(32, RunCpu(32, code[..at], regs)[target]);
    RunPatched(32, code, at, target, EvalC(32, c, Inferred(cur, v1), val), regs)
  }

  /** At the end of the chain the register tells what was saved. */
  lemma InferredIsSaved(b1: seq<Instr>, target: Reg, step: nat, end: nat, c: CExpr, v1: int, regs: Regs)
    requires IsBuildFor(b1, b1, target, step, end, c, v1) && Supported(32, b1[..end + 1], regs)
    requires Closed(c) && Telling(c, v1) && NoLeak(32, c, RunCpu(32, b1[..step], regs)[target], v1)
    requires RunCpu(32, b1[..step], regs)[target] == 0 || RunCpu(32, b1[..step], regs)[target] == AllOnes32()
    ensures Inferred(Low(32, RunCpu(32, b1[..end + 1], regs)[target]), v1) == RunCpu(32, b1[..step], regs)[target]
  {
    OnesFit();
    AppliedValue(32, b1, b1, target, step, end, c, v1, regs);
  }

  /** With a telling expression the first build, run with the apply helper alone, leaves every register with
      the same low 32 bits as the build that follows the fit at the new value. */
  lemma SbbBlockIsFaithful(b1: seq<Instr>, b2: seq<Instr>, b3: seq<Instr>, b4: seq<Instr>, v: Triple, val: int,
                           target: Reg, step: nat, end: nat, c: CExpr, saved: nat, regs: Regs)
    requires BlockFollows(b1, b2, b3, b4, v, val) && Spaced(v) && end < |b1| && end < |b4|
    requires Supported(32, b1[..end + 1], regs) && Supported(32, b4[..end + 1], regs)
    requires ChainFound(b1, b2, b3, target, step, end) && step <= end < |b1|
    requires IsCompound(b1, b2, b3, step, end + 1, RunSym(b1).regMap[target], v, c)
    requires IntegerForm(c) && Closed(c) && Telling(c, v.x1)
    requires DifferWithin(b1, b2, step, end) && DifferWithin(b1, b3, step, end)
    requires saved == RunCpu(32, b1[..step], regs)[target] && (saved == 0 || saved == AllOnes32())
    requires NoLeak(32, c, saved, v.x1) && NoLeak(32, c, saved, val)
    ensures SameLow(32, RunInferred(b1, target, end + 1, c, v.x1, val, regs), RunCpu(32, b4, regs))
  {
    OnesFit();
    ObservedBuild(b1, b2, b3, v, target, step, end, c, 1);
    InferredIsSaved(b1, target, step, end, c, v.x1, regs);
    TunedBlockIsFaithful(32, b1, b2, b3, b4, v, val, target, step, end, c, regs);
  }

  /** The helper infers the same at every candidate of the attachment window, and may stand at any. */
  lemma InferredAtAnyCandidate(code: seq<Instr>, target: Reg, start: nat, c: CExpr, v1: int, val: int,
                               candidates: seq<nat>, j: nat, regs: Regs)
    requires start <= |code| && IntegerForm(c) && Closed(c)
    requires IsWindow(code[start..], target, candidates) && j in candidates && !WritesTarget(code[start..][..j], target)
    ensures start + j <= |code|
    ensures RunInferred(code, target, start + j, c, v1, val, regs) == RunInferred(code, target, start, c, v1, val, regs)
  {
    var cur := Low(32, RunCpu(32, code[..start], regs)[target]);
    TargetIsKept(32, code, target, start, j, regs);
    AnyCandidateWillDo(32, code, start, target, candidates, j, EvalC(32, c, Inferred(cur, v1), val), regs);
  }

  lemma TargetIsKept(w: nat, code: seq<Instr>, target: Reg, start: nat, j: nat, regs: Regs)
    requires w > 0 && start + j <= |code| && !WritesTarget(code[start..][..j], target)
    ensures RunCpu(w, code[..start + j], regs)[target] == RunCpu(w, code[..start], regs)[target]
  {
    assert code[..start + j] == code[..start] + code[start..][..j];
    RunAppend(w, code[..start], code[start..][..j], regs);
    UnwrittenIsKept(w, code[start..][..j], target, RunCpu(w, code[..start], regs));
  }
}
