/** The straight-line x86 code that the code generator analyses: instructions over registers and
    immediates, all of one width w (32 or 64), with what the processor does for them. */
module Machine {
  import opened Words

  const REGISTERS: nat := 16

  /** A 64-bit base register; its sub-registers are accesses at a smaller width. */
  type Reg = r: nat | r < REGISTERS

  datatype Op = Mov | Add | Sub | And | Or | Xor | Shl | Shr | Imul

  datatype Source = Imm(value: nat) | FromReg(reg: Reg)

  /** The size suffix as printed, if any. */
  datatype Suffix = Bare | SuffixB | SuffixW | SuffixL | SuffixQ

  /** AT&T operand order. */
  datatype Instr =
    | Two(op: Op, suffix: Suffix, src: Source, dst: Reg)
    | Imul3(suffix: Suffix, imm: nat, srcReg: Reg, dst: Reg)

  /** The contents of the 16 registers. */
  type Regs = s: seq<nat> | |s| == REGISTERS witness seq(REGISTERS, _ => 0)

  function Low(w: nat, x: int): nat { x % Pow2(w) }

  function ValueOf(src: Source, regs: Regs): nat {
    match src
    case Imm(n) => n
    case FromReg(r) => regs[r]
  }

  /** Shifts use the count modulo the width. */
  function Alu(w: nat, op: Op, a: nat, b: nat): nat
    requires w > 0
  {
    match op
    case Mov => b
    case Add => Low(w, a + b)
    case Sub => Low(w, a - b)
    case And => Bitwise(BitAnd, a, b)
    case Or => Bitwise(BitOr, a, b)
    case Xor => Bitwise(BitXor, a, b)
    case Shl => Low(w, a * Pow2(b % w))
    case Shr => Quotient(a, Pow2(b % w))
    case Imul => Low(w, a * b)
  }

  /** What an instruction writes to its destination; a 32-bit write clears the upper half. */
  function Result(w: nat, i: Instr, regs: Regs): nat
    requires w > 0
  {
    match i
    case Two(op, _, src, dst) => Alu(w, op, Low(w, regs[dst]), Low(w, ValueOf(src, regs)))
    case Imul3(_, imm, src, _) => Alu(w, Imul, Low(w, regs[src]), Low(w, imm))
  }

  function Exec(w: nat, i: Instr, regs: Regs): Regs
    requires w > 0
  {
    regs[i.dst := Result(w, i, regs)]
  }

  function RunCpu(w: nat, code: seq<Instr>, regs: Regs): Regs
    requires w > 0
  {
    if code == [] then regs else Exec(w, code[|code| - 1], RunCpu(w, code[..|code| - 1], regs))
  }

  /** The code with a register overwritten before the instruction at position `at`. */
  function RunPatched(w: nat, code: seq<Instr>, at: nat, target: Reg, value: nat, regs: Regs): Regs
    requires w > 0 && at <= |code|
  {
    RunCpu(w, code[at..], RunCpu(w, code[..at], regs)[target := value])
  }

  // ---------------------------------------------------------------- facts

  lemma AluBound(w: nat, op: Op, a: nat, b: nat)
    requires w > 0 && a < Pow2(w) && b < Pow2(w)
    ensures Alu(w, op, a, b) < Pow2(w)
  {
    match op
    case And => BitwiseBound(BitAnd, a, b, w);
    case Or => BitwiseBound(BitOr, a, b, w);
    case Xor => BitwiseBound(BitXor, a, b, w);
    case Shr => DivLess(a, Pow2(b % w));
    case _ =>
  }

  lemma DivLess(a: nat, d: nat)
    requires d > 0
    ensures a / d <= a
  {
    assert a == a / d * d + a % d;
    if a / d > a {
      MulGrows(d, a / d);
    }
  }

  lemma ResultBound(w: nat, i: Instr, regs: Regs)
    requires w > 0
    ensures Result(w, i, regs) < Pow2(w)
  {
    match i
    case Two(op, _, src, dst) => AluBound(w, op, Low(w, regs[dst]), Low(w, ValueOf(src, regs)));
    case Imul3(_, imm, src, _) =>
  }

  lemma {:induction false} RunAppend(w: nat, a: seq<Instr>, b: seq<Instr>, regs: Regs)
    requires w > 0
    ensures RunCpu(w, a + b, regs) == RunCpu(w, b, RunCpu(w, a, regs))
    decreases |b|
  {
    if b == [] {
      assert a + b == a;
    } else {
      var n := |b| - 1;
      assert (a + b)[..|a + b| - 1] == a + b[..n];
      RunAppend(w, a, b[..n], regs);
    }
  }

  /** The register files agree in the low w bits of every register. */
  ghost predicate SameLow(w: nat, x: Regs, y: Regs) {
    forall r :: 0 <= r < REGISTERS ==> Low(w, x[r]) == Low(w, y[r])
  }

  lemma SameLowResult(w: nat, i: Instr, x: Regs, y: Regs)
    requires w > 0 && SameLow(w, x, y)
    ensures Result(w, i, x) == Result(w, i, y)
  {
    assert Low(w, x[i.dst]) == Low(w, y[i.dst]);
    match i
    case Two(_, _, FromReg(r), _) => assert Low(w, x[r]) == Low(w, y[r]);
    case Two(_, _, Imm(_), _) =>
    case Imul3(_, _, r, _) => assert Low(w, x[r]) == Low(w, y[r]);
  }

  lemma {:induction false} RunKeepsSameLow(w: nat, code: seq<Instr>, x: Regs, y: Regs)
    requires w > 0 && SameLow(w, x, y)
    ensures SameLow(w, RunCpu(w, code, x), RunCpu(w, code, y))
  {
    if code != [] {
      var n := |code| - 1;
      RunKeepsSameLow(w, code[..n], x, y);
      SameLowResult(w, code[n], RunCpu(w, code[..n], x), RunCpu(w, code[..n], y));
    }
  }

  /** Code that writes no register but `target` leaves the others alone. */
  lemma {:induction false} RunKeepsOthers(w: nat, code: seq<Instr>, regs: Regs, target: Reg, r: Reg)
    requires w > 0 && r != target && forall j :: 0 <= j < |code| ==> code[j].dst == target
    ensures RunCpu(w, code, regs)[r] == regs[r]
  {
    if code != [] {
      RunKeepsOthers(w, code[..|code| - 1], regs, target, r);
    }
  }
}
