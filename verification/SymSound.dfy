/** The meaning of symbolic expressions, and the soundness of the symbolic executor. */
module SymSound {
  import opened Words
  import opened Machine
  import opened SymExec

  function EvalOp(w: nat, op: BinOp, a: nat, b: nat): nat {
    match op
    case Plus => Low(w, a + b)
    case Minus => Low(w, a - b)
    case Times => Low(w, a * b)
    case Quot => Quotient(a, b)
    case Conj => Bitwise(BitAnd, a, b)
    case Disj => Bitwise(BitOr, a, b)
    case Excl => Bitwise(BitXor, a, b)
    case ShiftL => Low(w, a * Pow2(b))
    case ShiftR => Quotient(a, Pow2(b))
  }

  /** The w-bit value of an expression, given the values of the anonymous registers. */
  function Eval(w: nat, e: Expr, env: nat -> nat): nat {
    match e
    case Name(k) => Low(w, env(k))
    case Num(n) => Low(w, n)
    case Bin(op, l, r) => EvalOp(w, op, Eval(w, l, env), Eval(w, r, env))
  }

  // ---------------------------------------------------------------- names

  predicate WellNamed(s: Sym) {
    && (forall r :: r in s.regMap ==> s.regMap[r] < s.counter)
    && (forall r, q :: r in s.regMap && q in s.regMap && r != q ==> s.regMap[r] != s.regMap[q])
  }

  /** Executing an instruction names its operands and gives no other names. */
  lemma ApplyNames(s: Sym, i: Instr)
    ensures SymApply(s, i).regMap == OperandsNamed(s, i).regMap && SymApply(s, i).counter == OperandsNamed(s, i).counter
  {
  }

  lemma NamedWell(s: Sym, r: Reg)
    requires WellNamed(s)
    ensures WellNamed(Named(s, r)) && SubNames(s.regMap, Named(s, r).regMap)
  {
  }

  lemma OperandsWell(s: Sym, i: Instr)
    requires WellNamed(s)
    ensures WellNamed(OperandsNamed(s, i)) && SubNames(s.regMap, OperandsNamed(s, i).regMap)
  {
    match i
    case Two(_, _, Imm(_), dst) => NamedWell(s, dst);
    case Two(_, _, FromReg(r), dst) =>
      NamedWell(s, r);
      NamedWell(Named(s, r), dst);
    case Imul3(_, _, src, dst) =>
      NamedWell(s, src);
      NamedWell(Named(s, src), dst);
  }

  lemma StepNames(s: Sym, i: Instr)
    requires WellNamed(s)
    ensures WellNamed(SymStep(s, i)) && SubNames(s.regMap, SymStep(s, i).regMap)
    ensures Dispatched(i) ==> SymStep(s, i).regMap == OperandsNamed(s, i).regMap
  {
    ApplyNames(s, i);
    OperandsWell(s, i);
  }

  lemma {:induction false} NamesKept(code: seq<Instr>)
    ensures WellNamed(RunSym(code))
  {
    if code != [] {
      var s, i := RunSym(code[..|code| - 1]), code[|code| - 1];
      NamesKept(code[..|code| - 1]);
      StepNames(s, i);
    }
  }

  ghost predicate SubNames(a: map<Reg, nat>, b: map<Reg, nat>) {
    forall r :: r in a ==> r in b && a[r] == b[r]
  }

  /** Names once given stay. */
  lemma {:induction false} NamesGrow(code: seq<Instr>, n: nat)
    requires n <= |code|
    ensures SubNames(RunSym(code[..n]).regMap, RunSym(code).regMap)
    decreases |code| - n
  {
    if n < |code| {
      NamesGrow(code, n + 1);
      assert code[..n + 1][..n] == code[..n];
      NamesKept(code[..n]);
      StepNames(RunSym(code[..n]), code[n]);
    } else {
      assert code[..n] == code;
    }
  }

  // ---------------------------------------------------------------- soundness

  /** The count of a shift is below the width when the instruction runs. */
  predicate CountOk(w: nat, i: Instr, regs: Regs) {
    i.Two? && i.op in {Shl, Shr} ==> Low(w, ValueOf(i.src, regs)) < w
  }

  /** The executor recognises every instruction, and no shift runs with a count of w or more. */
  ghost predicate Supported(w: nat, code: seq<Instr>, regs: Regs)
    requires w > 0
  {
    forall j :: 0 <= j < |code| ==> Dispatched(code[j]) && CountOk(w, code[j], RunCpu(w, code[..j], regs))
  }

  lemma SupportedPrefix(w: nat, code: seq<Instr>, n: nat, regs: Regs)
    requires w > 0 && n <= |code| && Supported(w, code, regs)
    ensures Supported(w, code[..n], regs)
  {
    forall j | 0 <= j < n
      ensures CountOk(w, code[..n][j], RunCpu(w, code[..n][..j], regs))
    {
      assert code[..n][..j] == code[..j];
    }
  }

  /** `env` gives every named register its initial value. */
  ghost predicate Initial(names: map<Reg, nat>, env: nat -> nat, regs: Regs) {
    forall r :: r in names ==> env(names[r]) == regs[r]
  }

  /** Every named register holds the value of its expression. */
  ghost predicate Holds(w: nat, names: map<Reg, nat>, state: map<nat, Expr>, env: nat -> nat, regs: Regs) {
    forall r :: r in names ==> Eval(w, Get(state, names[r]), env) == Low(w, regs[r])
  }

  lemma LowLow(w: nat, x: int)
    ensures Low(w, Low(w, x)) == Low(w, x)
  {
    ModPow2(x, w, w);
  }

  lemma LowSmall(w: nat, x: nat)
    requires x < Pow2(w)
    ensures Low(w, x) == x
  {
    DivModUnique(x, Pow2(w), 0, x);
  }

  /** The operands' names are final ones. */
  ghost predicate OperandNames(i: Instr, names: map<Reg, nat>) {
    && i.dst in names
    && (i.Two? && i.src.FromReg? ==> i.src.reg in names)
    && (i.Imul3? ==> i.srcReg in names)
  }

  /** The expression that an instruction gives its destination, names being final. */
  function NewExpr(state: map<nat, Expr>, i: Instr, names: map<Reg, nat>): Expr
    requires OperandNames(i, names)
  {
    match i
    case Two(op, _, src, dst) =>
      var e := if src.Imm? then Num(src.value) else Get(state, names[src.reg]);
      if op == Mov then e else Bin(SymOp(op), Get(state, names[dst]), e)
    case Imul3(_, imm, src, _) => Bin(Times, Get(state, names[src]), Num(imm))
  }

  lemma OperandsFinal(s: Sym, i: Instr, names: map<Reg, nat>)
    requires SubNames(OperandsNamed(s, i).regMap, names)
    ensures OperandNames(i, names)
    ensures OperandsNamed(s, i).state == s.state && OperandsNamed(s, i).alt == s.alt
    ensures i.dst in OperandsNamed(s, i).regMap && OperandsNamed(s, i).regMap[i.dst] == names[i.dst]
    ensures i.Two? && i.src.FromReg? ==>
              i.src.reg in OperandsNamed(s, i).regMap && OperandsNamed(s, i).regMap[i.src.reg] == names[i.src.reg]
    ensures i.Imul3? ==>
              i.srcReg in OperandsNamed(s, i).regMap && OperandsNamed(s, i).regMap[i.srcReg] == names[i.srcReg]
  {
  }

  /** An instruction changes the expression of its destination only. */
  lemma ApplyState(s: Sym, i: Instr, names: map<Reg, nat>)
    requires SubNames(OperandsNamed(s, i).regMap, names)
    ensures OperandNames(i, names)
    ensures SymApply(s, i).state == s.state[names[i.dst] := NewExpr(s.state, i, names)]
  {
    OperandsFinal(s, i, names);
  }

  /** The new expression has the value that the processor writes. */
  lemma StepValue(w: nat, state: map<nat, Expr>, i: Instr, names: map<Reg, nat>, env: nat -> nat, regs: Regs)
    requires w > 0 && CountOk(w, i, regs) && OperandNames(i, names) && Holds(w, names, state, env, regs)
    ensures Eval(w, NewExpr(state, i, names), env) == Result(w, i, regs)
  {
    if i.Two? && i.op in {Shl, Shr} {
      var count := Low(w, ValueOf(i.src, regs));
      DivModUnique(count, w, 0, count);
    }
  }

  lemma StepHolds(w: nat, state: map<nat, Expr>, i: Instr, names: map<Reg, nat>, env: nat -> nat, regs: Regs)
    requires w > 0 && CountOk(w, i, regs) && OperandNames(i, names) && Holds(w, names, state, env, regs)
    requires forall r, q :: r in names && q in names && r != q ==> names[r] != names[q]
    ensures Holds(w, names, state[names[i.dst] := NewExpr(state, i, names)], env, Exec(w, i, regs))
  {
    StepValue(w, state, i, names, env, regs);
    ResultBound(w, i, regs);
    LowSmall(w, Result(w, i, regs));
  }

  lemma SoundStep(w: nat, code: seq<Instr>, n: nat, names: map<Reg, nat>, env: nat -> nat, regs: Regs)
    requires w > 0 && n < |code| && Supported(w, code[..n + 1], regs) && names == RunSym(code).regMap
    requires Holds(w, names, RunSym(code[..n]).state, env, RunCpu(w, code[..n], regs))
    ensures Holds(w, names, RunSym(code[..n + 1]).state, env, RunCpu(w, code[..n + 1], regs))
  {
    var before, after, i := RunSym(code[..n]), RunSym(code[..n + 1]), code[n];
    assert code[..n + 1][..n] == code[..n] && code[..n + 1][n] == i;
    NamesKept(code);
    NamesKept(code[..n]);
    NamesGrow(code, n + 1);
    StepNames(before, i);
    ApplyState(before, i, names);
    StepHolds(w, before.state, i, names, env, RunCpu(w, code[..n], regs));
  }

  /** Symbolic execution is sound at every step: after each supported prefix of the code, the expression
      recorded for a register has the value the processor computes. */
  lemma {:induction false} SymExecSound(w: nat, code: seq<Instr>, n: nat, names: map<Reg, nat>, env: nat -> nat, regs: Regs)
    requires w > 0 && n <= |code| && Supported(w, code[..n], regs)
    requires names == RunSym(code).regMap && Initial(names, env, regs)
    ensures Holds(w, names, RunSym(code[..n]).state, env, RunCpu(w, code[..n], regs))
    decreases n
  {
    if n == 0 {
      assert code[..0] == [];
    } else {
      SupportedPrefix(w, code[..n], n - 1, regs);
      assert code[..n][..n - 1] == code[..n - 1];
      SymExecSound(w, code, n - 1, names, env, regs);
      SoundStep(w, code, n - 1, names, env, regs);
    }
  }

  /** Registers that the executor has no name for are not touched by the code. */
  lemma {:induction false} UnnamedUntouched(w: nat, code: seq<Instr>, regs: Regs, r: Reg)
    requires w > 0 && r !in RunSym(code).regMap
    requires forall j :: 0 <= j < |code| ==> Dispatched(code[j])
    ensures RunCpu(w, code, regs)[r] == regs[r]
  {
    if code != [] {
      var n := |code| - 1;
      NamesGrow(code, n);
      NamesKept(code[..n]);
      StepNames(RunSym(code[..n]), code[n]);
      OperandsFinal(RunSym(code[..n]), code[n], RunSym(code).regMap);
      UnnamedUntouched(w, code[..n], regs, r);
    }
  }

  // ---------------------------------------------------------------- the alternative state

  /** Operations that keep both versions in step; a shift by a register drops the alternative. */
  predicate KeepsAlt(w: nat, i: Instr) {
    i.Two? ==> i.op !in {And, Or, Xor} && (i.op in {Shl, Shr} && i.src.Imm? ==> i.src.value < w)
  }

  ghost predicate AltAgrees(w: nat, s: Sym, env: nat -> nat) {
    forall k :: Eval(w, GetAlt(s, k), env) == Eval(w, Get(s.state, k), env)
  }

  lemma {:induction false} Pow2Monotone(a: nat, b: nat)
    requires a <= b
    ensures Pow2(a) <= Pow2(b) && (a < b ==> Pow2(a) < Pow2(b))
  {
    if a < b {
      Pow2Monotone(a, b - 1);
    }
  }

  lemma {:induction false} Pow2Large(n: nat)
    ensures n < Pow2(n)
  {
    if n > 0 {
      Pow2Large(n - 1);
    }
  }

  /** A shift by a constant is a product or quotient by a power of two. */
  lemma ShiftIsScale(w: nat, a: nat, n: nat)
    requires n < w
    ensures EvalOp(w, ShiftL, a, Low(w, n)) == EvalOp(w, Times, a, Low(w, Pow2(n)))
    ensures EvalOp(w, ShiftR, a, Low(w, n)) == EvalOp(w, Quot, a, Low(w, Pow2(n)))
  {
    Pow2Large(w);
    Pow2Monotone(n, w);
    LowSmall(w, n);
    LowSmall(w, Pow2(n));
  }

  /** The alternative expression that an instruction gives its destination. */
  lemma ApplyAlt(w: nat, t: Sym, op: Op, src: Source, e: Expr, a: Expr, k: nat, env: nat -> nat)
    requires op !in {And, Or, Xor} && (op in {Shl, Shr} && src.Imm? ==> src.value < w && e == Num(src.value))
    requires AltAgrees(w, t, env) && Eval(w, e, env) == Eval(w, a, env)
    ensures AltAgrees(w, Updated(t, op, src, e, a, k), env)
  {
    var after := Updated(t, op, src, e, a, k);
    if op in {Shl, Shr} && src.Imm? {
      ShiftIsScale(w, Eval(w, Get(t.state, k), env), src.value);
    }
    assert Eval(w, GetAlt(t, k), env) == Eval(w, Get(t.state, k), env);
    assert Eval(w, GetAlt(after, k), env) == Eval(w, Get(after.state, k), env);
    assert forall j :: j != k ==> GetAlt(after, j) == GetAlt(t, j) && Get(after.state, j) == Get(t.state, j);
  }

  lemma AltStep(w: nat, s: Sym, i: Instr, env: nat -> nat)
    requires KeepsAlt(w, i) && AltAgrees(w, s, env)
    ensures AltAgrees(w, SymApply(s, i), env)
  {
    var t := OperandsNamed(s, i);
    assert t.state == s.state && t.alt == s.alt;
    assert AltAgrees(w, t, env) by {
      assert forall k :: GetAlt(t, k) == GetAlt(s, k);
    }
    match i
    case Two(op, _, src, dst) =>
      ApplyAlt(w, t, op, src, SourceExpr(t, src), SourceAlt(t, src), t.regMap[dst], env);
    case Imul3(_, imm, src, dst) =>
      var j := t.regMap[src];
      ApplyAlt(w, t, Mov, Imm(0), Bin(Times, Get(t.state, j), Num(imm)), Bin(Times, GetAlt(t, j), Num(imm)), t.regMap[dst], env);
  }

  /** On lists of mov, add, sub, imul and shifts the multiplication and division version of
      every register's expression has the same value as the shift version. */
  lemma {:induction false} AltVersionAgrees(w: nat, code: seq<Instr>, env: nat -> nat)
    requires forall j :: 0 <= j < |code| ==> KeepsAlt(w, code[j])
    ensures AltAgrees(w, RunSym(code), env)
  {
    if code != [] {
      var n := |code| - 1;
      AltVersionAgrees(w, code[..n], env);
      AltStep(w, RunSym(code[..n]), code[n], env);
    }
  }

  predicate NoShift(e: Expr) {
    e.Bin? ==> e.op != ShiftL && e.op != ShiftR && NoShift(e.l) && NoShift(e.r)
  }

  /** Every register that has an expression has one without shifts in the other version. */
  ghost predicate AltScaled(s: Sym) {
    forall k :: (k in s.state ==> k in s.alt) && (k in s.alt ==> NoShift(s.alt[k]))
  }

  lemma AltScaledGet(s: Sym, k: nat)
    requires AltScaled(s)
    ensures NoShift(GetAlt(s, k))
  {
  }

  predicate KeepsScaled(i: Instr) {
    i.Two? ==> i.op !in {And, Or, Xor} && (i.op in {Shl, Shr} ==> i.src.Imm?)
  }

  lemma AltScaledUpdate(s: Sym, op: Op, src: Source, e: Expr, a: Expr, k: nat)
    requires AltScaled(s) && NoShift(a) && op !in {And, Or, Xor} && (op in {Shl, Shr} ==> src.Imm?)
    ensures AltScaled(Updated(s, op, src, e, a, k))
  {
    AltScaledGet(s, k);
  }

  lemma AltScaledStep(s: Sym, i: Instr)
    requires AltScaled(s) && KeepsScaled(i)
    ensures AltScaled(SymApply(s, i))
  {
    var t := OperandsNamed(s, i);
    assert t.state == s.state && t.alt == s.alt;
    match i
    case Two(op, _, src, dst) =>
      if src.FromReg? {
        AltScaledGet(t, t.regMap[src.reg]);
      }
      AltScaledUpdate(t, op, src, SourceExpr(t, src), SourceAlt(t, src), t.regMap[dst]);
    case Imul3(_, imm, src, dst) => AltScaledGet(t, t.regMap[src]);
  }

  /** And it is the version without shifts: on those lists, if shifts are by constants, no expression in it
      has one. */
  lemma {:induction false} AltHasNoShift(code: seq<Instr>, k: nat)
    requires forall j :: 0 <= j < |code| ==> KeepsScaled(code[j])
    ensures AltScaled(RunSym(code)) && NoShift(GetAlt(RunSym(code), k))
  {
    if code != [] {
      var n := |code| - 1;
      AltHasNoShift(code[..n], k);
      if Dispatched(code[n]) {
        AltScaledStep(RunSym(code[..n]), code[n]);
      }
    }
    AltScaledGet(RunSym(code), k);
  }

  /** Of two new operands the source gets its name first. */
  lemma SourceIsNamedFirst(s: Sym, i: Instr)
    requires Dispatched(i) && (i.Two? ==> i.src.FromReg?)
    ensures var src := if i.Two? then i.src.reg else i.srcReg;
            src !in s.regMap && i.dst !in s.regMap && src != i.dst ==>
              SymStep(s, i).regMap == s.regMap[src := s.counter][i.dst := s.counter + 1]
  {
  }

  /** A recognised bitwise operation leaves the other version of every register as it was. */
  lemma BitwiseKeepsAlt(s: Sym, i: Instr)
    requires i.Two? && i.op in {And, Or, Xor}
    ensures SymStep(s, i).alt == s.alt
  {
    if Dispatched(i) {
      var t := OperandsNamed(s, i);
      BitwiseUpdate(t, i.op, i.src, SourceExpr(t, i.src), SourceAlt(t, i.src), t.regMap[i.dst]);
    }
  }

  lemma BitwiseUpdate(s: Sym, op: Op, src: Source, e: Expr, a: Expr, k: nat)
    requires op == And || op == Or || op == Xor
    ensures Updated(s, op, src, e, a, k).alt == s.alt
  {
  }

  /** Bitwise operations are recorded in one version only: after `mov $1; and $0` the alternative
      still says 1. */
  lemma AndIsNotInAlt()
    ensures var s := RunSym([Two(Mov, SuffixL, Imm(1), 0), Two(And, SuffixL, Imm(0), 0)]);
            forall env: nat -> nat :: Eval(32, GetAlt(s, 0), env) == 1 && Eval(32, Get(s.state, 0), env) == 0
  {
    var code := [Two(Mov, SuffixL, Imm(1), 0), Two(And, SuffixL, Imm(0), 0)];
    assert code[..1] == [Two(Mov, SuffixL, Imm(1), 0)] && code[..1][..0] == [];
    assert RunSym(code[..1][..0]) == EMPTY_SYM;
    assert EMPTY_SYM.state == map[] && EMPTY_SYM.alt == map[];
    var s1 := RunSym(code[..1]);
    assert s1 == SymApply(EMPTY_SYM, code[0]);
    assert s1 == Sym(map[0 := 0], 1, map[0 := Num(1)], map[0 := Num(1)]);
    assert Get(RunSym(code).state, 0) == Bin(Conj, Num(1), Num(0)) && GetAlt(RunSym(code), 0) == Num(1);
    Pow2Large(32);
    LowSmall(32, 1);
    LowSmall(32, 0);
    assert Bitwise(BitAnd, 1, 0) == 0;
  }

  /** An unrecognised mnemonic leaves a wrong expression behind: after `mov $5; sub $1`, the processor
      holds 4 and the executor says 5. */
  lemma UnsuffixedSubIsMissed(regs: Regs)
    ensures var code := [Two(Mov, Bare, Imm(5), 0), Two(Sub, Bare, Imm(1), 0)];
            && RunCpu(32, code, regs)[0] == 4
            && forall env: nat -> nat :: Eval(32, Get(RunSym(code).state, RunSym(code).regMap[0]), env) == 5
  {
    var code := [Two(Mov, Bare, Imm(5), 0), Two(Sub, Bare, Imm(1), 0)];
    assert code[..1] == [Two(Mov, Bare, Imm(5), 0)] && code[..1][..0] == [];
    Pow2Large(32);
    LowSmall(32, 5);
    LowSmall(32, 1);
    LowSmall(32, 4);
    assert RunSym(code) == RunSym(code[..1]) == Sym(map[0 := 0], 1, map[0 := Num(5)], map[0 := Num(5)]);
    assert RunCpu(32, code[..1], regs)[0] == 5;
  }
}
