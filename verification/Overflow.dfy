/** The block `shl $V,%r; shr $k,%r`, which the analysis synthesizes to `((*saved) << val) >> k`.  What the
    32-bit left shift drops the 64-bit expression keeps, and the right shift brings it back: the probed block
    is wrong, at the original value too, exactly for the registers from which a bit would come back. */
module Overflow {
  import opened Wrappers
  import opened Words
  import opened Machine
  import opened SymExec
  import opened SymSound
  import opened LinearFit
  import opened Compound
  import opened Leaks
  import opened Probes
  import opened Tuned
  import opened Seeds

  function FieldBlock(n: nat, k: nat, r: Reg): seq<Instr> {
    [Two(Shl, SuffixL, Imm(n), r), Two(Shr, SuffixL, Imm(k), r)]
  }

  function Raised(n: nat): Expr { Bin(ShiftL, Name(0), Num(n)) }

  function Field(n: nat, k: nat): Expr { Bin(ShiftR, Raised(n), Num(k)) }

  const SAVED_UP := COp(ShiftL, Saved, Tuned(Integral(1, 0)))

  function FieldExpr(k: nat): CExpr { COp(ShiftR, SAVED_UP, Literal(k)) }

  lemma FieldRun(n: nat, k: nat, r: Reg)
    ensures RunSym(FieldBlock(n, k, r)[..1]).regMap == map[r := 0] && RunSym(FieldBlock(n, k, r)).regMap == map[r := 0]
    ensures RunSym(FieldBlock(n, k, r)[..1]).state == map[0 := Raised(n)]
    ensures RunSym(FieldBlock(n, k, r)).state == map[0 := Field(n, k)]
  {
    var code := FieldBlock(n, k, r);
    assert code[..1][..0] == [] && code[..1][0] == code[0];
    assert RunSym(code[..1][..0]) == EMPTY_SYM;
    var named := OperandsNamed(EMPTY_SYM, code[0]);
    assert named.regMap == map[r := 0] && named.state == map[];
    assert RunSym(code[..1]) == Updated(named, Shl, Imm(n), Num(n), Num(n), 0);
    var s := RunSym(code[..1]);
    assert OperandsNamed(s, code[1]) == s;
    assert RunSym(code) == Updated(s, Shr, Imm(k), Num(k), Num(k), 0);
  }

  lemma FieldRecorded(n: nat, k: nat, r: Reg)
    ensures Recorded(FieldBlock(n, k, r)) == [map[0 := Raised(n)], map[0 := Field(n, k)]]
    ensures ExprAfter(FieldBlock(n, k, r), 2, 0) == Field(n, k) && ExprAfter(FieldBlock(n, k, r), 0, 0) == Name(0)
  {
    var code := FieldBlock(n, k, r);
    FieldRun(n, k, r);
    assert code[..2] == code && code[..0] == [];
    RecordedAt(code, 1);
    RecordedAt(code, 2);
    assert RunSym(code[..0]) == EMPTY_SYM;
  }

  /** The chain is both instructions. */
  lemma FieldChain(n1: nat, n2: nat, n3: nat, k: nat, r: Reg)
    requires n1 != n2
    ensures ChainFound(FieldBlock(n1, k, r), FieldBlock(n2, k, r), FieldBlock(n3, k, r), r, 0, 1)
  {
    FieldRun(n1, k, r);
    FieldRecorded(n1, k, r);
    FieldRecorded(n2, k, r);
    FieldRecorded(n3, k, r);
  }

  lemma FieldHasBoth(k: nat)
    ensures HasSaved(FieldExpr(k)) && HasNumber(FieldExpr(k))
  {
    assert HasSaved(SAVED_UP) && HasNumber(Literal(k));
  }

  lemma FieldMerges(v: Triple, k: nat)
    requires v.x1 != v.x2 && v.x1 >= 0 && v.x2 >= 0 && v.x3 >= 0
    ensures BuildCompound(Field(v.x1, k), Field(v.x2, k), Field(v.x3, k), Name(0), v) == Some(FieldExpr(k))
  {
    var x := Name(0);
    IdentityFits(v);
    MergeOfNums(v, x, v, Tuned(Integral(1, 0)));
    MergeOfNums(Triple(k, k, k), x, v, Literal(k));
    MergeOfOps(ShiftL, x, x, x, Num(v.x1), Num(v.x2), Num(v.x3), x, v, Saved, Tuned(Integral(1, 0)));
    MergeOfOps(ShiftR, Raised(v.x1), Raised(v.x2), Raised(v.x3), Num(k), Num(k), Num(k), x, v, SAVED_UP, Literal(k));
    FieldHasBoth(k);
  }

  lemma FieldCompound(v: Triple, k: nat, r: Reg, start: nat, end: nat)
    requires start == 0 && end == 1 && v.x1 != v.x2 && v.x1 >= 0 && v.x2 >= 0 && v.x3 >= 0
    ensures var b1, b2, b3 := FieldBlock(v.x1, k, r), FieldBlock(v.x2, k, r), FieldBlock(v.x3, k, r);
            r in RunSym(b1).regMap && IsCompound(b1, b2, b3, start, end + 1, RunSym(b1).regMap[r], v, FieldExpr(k))
  {
    FieldRun(v.x1, k, r);
    FieldRecorded(v.x1, k, r);
    FieldRecorded(v.x2, k, r);
    FieldRecorded(v.x3, k, r);
    FieldMerges(v, k);
  }

  lemma FieldFollows(v: Triple, val: nat, k: nat, r: Reg)
    requires v.x1 != v.x2 && v.x1 >= 0 && v.x2 >= 0 && v.x3 >= 0
    ensures BlockFollows(FieldBlock(v.x1, k, r), FieldBlock(v.x2, k, r), FieldBlock(v.x3, k, r), FieldBlock(val, k, r), v, val)
  {
    IdentityFits(v);
  }

  lemma FieldSupported(n: nat, k: nat, r: Reg, regs: Regs)
    requires n < 32 && k < 32
    ensures Supported(32, FieldBlock(n, k, r), regs)
  {
    WordCount(n);
    WordCount(k);
  }

  /** The 64-bit value before the right shift. */
  function Raise64(saved: nat, val: nat): nat { Low(64, Low(64, saved) * Pow2(val)) }

  lemma RaisedValue(saved: nat, val: nat)
    requires val < 32
    ensures EvalC(32, SAVED_UP, saved, val) == Raise64(saved, val) && NoLeak(32, SAVED_UP, saved, val)
  {
    WordCount(val);
    ValueItself(32, val, saved);
  }

  lemma LiteralValue(k: nat, saved: nat, val: nat)
    requires k < 32
    ensures EvalC(32, Literal(k), saved, val) == k && NoLeak(32, Literal(k), saved, val)
  {
    WordCount(k);
  }

  lemma FieldIsC(k: nat)
    ensures IntegerForm(FieldExpr(k)) && Closed(FieldExpr(k))
  {
    assert IntegerForm(SAVED_UP) && Closed(SAVED_UP);
  }

  lemma FieldLeaks(saved: nat, val: nat, k: nat)
    requires val < 32 && k < 32
    ensures IntegerForm(FieldExpr(k)) && Closed(FieldExpr(k)) && LeakShows(32, FieldExpr(k), saved, val)
    ensures NoLeak(32, FieldExpr(k), saved, val) <==> Clean(32, Raise64(saved, val), k)
  {
    FieldIsC(k);
    RaisedValue(saved, val);
    LiteralValue(k, saved, val);
    ShiftLeaks(32, SAVED_UP, Literal(k), saved, val, Raise64(saved, val), k);
  }

  lemma FieldValue(saved: nat, val: nat, k: nat)
    requires val < 32 && k < 32
    ensures IntegerForm(FieldExpr(k)) && Closed(FieldExpr(k))
    ensures EvalC(32, FieldExpr(k), saved, val) == Quotient(Raise64(saved, val), Pow2(k))
  {
    FieldIsC(k);
    RaisedValue(saved, val);
    LiteralValue(k, saved, val);
  }

  /** For every register file and every new value, the block run with the two probes computes what the block
      rebuilt for the value computes exactly if the k bits above the word are zero before the right shift. */
  lemma FieldExact(v: Triple, val: nat, k: nat, r: Reg, start: nat, end: nat, regs: Regs)
    requires start == 0 && end == 1 && v.x1 != v.x2 && v.x1 >= 0 && v.x2 >= 0 && v.x3 >= 0 && val < 32 && k < 32
    ensures IntegerForm(FieldExpr(k)) && Closed(FieldExpr(k))
    ensures SameLow(32, RunProbed(32, FieldBlock(v.x1, k, r), r, start, end + 1, FieldExpr(k), val, regs),
                    RunCpu(32, FieldBlock(val, k, r), regs))
            <==> Clean(32, Raise64(regs[r], val), k)
  {
    var b1, b2, b3, b4 := FieldBlock(v.x1, k, r), FieldBlock(v.x2, k, r), FieldBlock(v.x3, k, r), FieldBlock(val, k, r);
    FieldLeaks(regs[r], val, k);
    FieldChain(v.x1, v.x2, v.x3, k, r);
    FieldCompound(v, k, r, start, end);
    FieldFollows(v, val, k, r);
    FieldSupported(val, k, r, regs);
    WholeBlockExact(32, b1, b2, b3, b4, v, val, r, start, end, FieldExpr(k), regs);
  }

  lemma CarryOut(k: nat)
    requires 1 <= k < 32
    ensures Raise64(Pow2(31), 1) == Pow2(32) && !Clean(32, Pow2(32), k)
  {
    Pow2Monotone(31, 64);
    Pow2Monotone(32, 64);
    LowSmall(64, Pow2(31));
    assert Pow2(1) == 2 && Pow2(31) * 2 == Pow2(32);
    LowSmall(64, Pow2(32));
    DivModUnique(Pow2(32), Pow2(32), 1, 0);
    Pow2Large(k);
    DivModUnique(1, Pow2(k), 0, 1);
  }

  lemma TwoSteps(w: nat, i: Instr, j: Instr, regs: Regs)
    requires w > 0
    ensures RunCpu(w, [i, j], regs) == Exec(w, j, Exec(w, i, regs))
  {
    assert [i, j][..1] == [i] && [i][..0] == [];
    assert RunCpu(w, [i], regs) == Exec(w, i, regs);
  }

  /** The top bit is shifted out. */
  lemma TopBitIsLost(w: nat)
    requires w > 1
    ensures Alu(w, Shl, Pow2(w - 1), 1) == 0
  {
    assert Pow2(1) == 2 && Pow2(w - 1) * 2 == Pow2(w);
    DivModUnique(1, w, 0, 1);
    DivModUnique(Pow2(w), Pow2(w), 1, 0);
  }

  lemma ZeroStays(w: nat, k: nat)
    requires w > 0
    ensures Alu(w, Shr, 0, k) == 0 && Low(w, 0) == 0
  {
    DivModUnique(0, Pow2(k % w), 0, 0);
    DivModUnique(0, Pow2(w), 0, 0);
  }

  lemma RaisedIsLost(w: nat, r: Reg, regs: Regs)
    requires w > 1 && regs[r] == Pow2(w - 1)
    ensures Exec(w, Two(Shl, SuffixL, Imm(1), r), regs) == regs[r := 0]
  {
    TopBitIsLost(w);
    Pow2Large(w);
    LowSmall(w, 1);
    assert Pow2(w - 1) < Pow2(w);
    LowSmall(w, Pow2(w - 1));
  }

  lemma FieldIsLost(w: nat, k: nat, r: Reg, regs: Regs)
    requires w > 1 && regs[r] == Pow2(w - 1)
    ensures RunCpu(w, FieldBlock(1, k, r), regs)[r] == 0
  {
    RaisedIsLost(w, r, regs);
    ZeroStays(w, Low(w, k));
    TwoSteps(w, Two(Shl, SuffixL, Imm(1), r), Two(Shr, SuffixL, Imm(k), r), regs);
  }

  /** Already at its own value V = 1 the probed block is wrong for the register 2^31: the block leaves 0 and
      the helper writes 2^(32 - k). */
  lemma FieldFailsAtItsOwnValue(v: Triple, k: nat, r: Reg, start: nat, end: nat, regs: Regs)
    requires start == 0 && end == 1 && v.x1 == 1 && v.x2 != 1 && v.x2 >= 0 && v.x3 >= 0 && 1 <= k < 32 && regs[r] == Pow2(31)
    ensures IntegerForm(FieldExpr(k)) && Closed(FieldExpr(k))
    ensures Applied(32, FieldBlock(1, k, r), r, start, FieldExpr(k), 1, regs) == Pow2(32 - k)
    ensures RunCpu(32, FieldBlock(1, k, r), regs)[r] == 0
    ensures !SameLow(32, RunProbed(32, FieldBlock(1, k, r), r, start, end + 1, FieldExpr(k), 1, regs), RunCpu(32, FieldBlock(1, k, r), regs))
  {
    CarryOut(k);
    FieldIsLost(32, k, r, regs);
    FieldValue(regs[r], 1, k);
    FieldExact(v, 1, k, r, start, end, regs);
    assert FieldBlock(1, k, r)[..start] == [];
    Pow2Sum(32 - k, k);
    DivModUnique(Pow2(32), Pow2(k), Pow2(32 - k), 0);
  }
}
