/** The analysis on two families of seeds: `shr $V,%r`, and the choice between V and 2V that follows an
    `sbb %r,%r`.  All hypotheses of the theorems about probed blocks are discharged, for every value.

    The positions of a chain and the word 2^32 are parameters that a requires pins down, not literals: the
    verifier then keeps `end + 1` and `m - n` as they stand in the theorems, instead of computing them. */
module Seeds {
  import opened Wrappers
  import opened Words
  import opened Machine
  import opened SymExec
  import opened SymSound
  import opened LinearFit
  import opened Compound
  import opened Leaks
  import opened Probes
  import opened Tuned
  import opened Helpers

  // ---------------------------------------------------------------- blocks that are one chain

  /** A block that ends with its chain, run with the two probes. */
  lemma EndsWithChain(w: nat, code: seq<Instr>, target: Reg, step: nat, end: nat, c: CExpr, val: int, regs: Regs)
    requires w > 0 && step <= end && |code| == end + 1 && IntegerForm(c) && Closed(c)
    ensures code[..end + 1] == code
    ensures RunProbed(w, code, target, step, end + 1, c, val, regs) ==
            RunCpu(w, code, regs)[target := Applied(w, code, target, step, c, val, regs)]
  {
    assert code[..end + 1] == code && code[end + 1..] == [];
  }

  lemma WholePrefix(code: seq<Instr>, n: nat)
    requires |code| == n
    ensures code[..n] == code
  {
  }

  lemma SavedFirst(w: nat, code: seq<Instr>, start: nat, target: Reg, regs: Regs)
    requires w > 0 && start == 0
    ensures RunCpu(w, code[..start], regs)[target] == regs[target]
  {
    assert code[..start] == [];
  }

  /** For a block that is its chain: the probed block is right exactly if nothing leaks, where a leak would
      show. */
  lemma WholeBlockExact(w: nat, b1: seq<Instr>, b2: seq<Instr>, b3: seq<Instr>, b4: seq<Instr>, v: Triple, val: int,
                        target: Reg, start: nat, end: nat, c: CExpr, regs: Regs)
    requires 0 < w <= 64 && BlockFollows(b1, b2, b3, b4, v, val) && Supported(w, b4, regs)
    requires start == 0 && |b1| == end + 1 && ChainFound(b1, b2, b3, target, start, end)
    requires IsCompound(b1, b2, b3, start, end + 1, RunSym(b1).regMap[target], v, c)
    requires IntegerForm(c) && Closed(c) && LeakShows(w, c, regs[target], val)
    ensures SameLow(w, RunProbed(w, b1, target, start, end + 1, c, val, regs), RunCpu(w, b4, regs))
            <==> NoLeak(w, c, regs[target], val)
  {
    WholeDiffers(b1, b2, start, end);
    WholeDiffers(b1, b3, start, end);
    SavedFirst(w, b1, start, target, regs);
    EndsWithChain(w, b1, target, start, end, c, val, regs);
    WholePrefix(b4, end + 1);
    TunedExact(w, b1, b2, b3, b4, v, val, target, start, end, c, regs);
  }

  lemma WholeDiffers(a: seq<Instr>, b: seq<Instr>, start: nat, end: nat)
    requires SameShapes(a, b) && start == 0 && |a| == end + 1
    ensures DifferWithin(a, b, start, end)
  {
  }

  /** The same after `sbb`. */
  lemma WholeBlockInferred(b1: seq<Instr>, b2: seq<Instr>, b3: seq<Instr>, b4: seq<Instr>, v: Triple, val: int,
                           target: Reg, start: nat, end: nat, c: CExpr, regs: Regs)
    requires BlockFollows(b1, b2, b3, b4, v, val) && Spaced(v) && Supported(32, b1, regs) && Supported(32, b4, regs)
    requires start == 0 && |b1| == end + 1 && ChainFound(b1, b2, b3, target, start, end)
    requires IsCompound(b1, b2, b3, start, end + 1, RunSym(b1).regMap[target], v, c)
    requires IntegerForm(c) && Closed(c) && Telling(c, v.x1)
    requires NoLeak(32, c, regs[target], v.x1) && NoLeak(32, c, regs[target], val)
    requires regs[target] == 0 || regs[target] == AllOnes32()
    ensures SameLow(32, RunInferred(b1, target, end + 1, c, v.x1, val, regs), RunCpu(32, b4, regs))
  {
    WholeDiffers(b1, b2, start, end);
    WholeDiffers(b1, b3, start, end);
    SavedFirst(32, b1, start, target, regs);
    WholePrefix(b1, end + 1);
    WholePrefix(b4, end + 1);
    SbbBlockIsFaithful(b1, b2, b3, b4, v, val, target, start, end, c, regs[target], regs);
  }

  // ---------------------------------------------------------------- a shift

  function ShiftBlock(n: nat, r: Reg): seq<Instr> { [Two(Shr, SuffixL, Imm(n), r)] }

  const SAVED_BY_VAL := COp(ShiftR, Saved, Tuned(Integral(1, 0)))

  lemma ShiftRun(n: nat, r: Reg)
    ensures RunSym(ShiftBlock(n, r)).regMap == map[r := 0]
    ensures RunSym(ShiftBlock(n, r)).state == map[0 := Bin(ShiftR, Name(0), Num(n))]
  {
    var code := ShiftBlock(n, r);
    assert code[..0] == [];
    assert RunSym(code[..0]) == EMPTY_SYM;
    var named := OperandsNamed(EMPTY_SYM, code[0]);
    assert named.regMap == map[r := 0] && named.state == map[];
    assert RunSym(code) == Updated(named, Shr, Imm(n), Num(n), Num(n), 0);
  }

  lemma IdentityFits(v: Triple)
    requires v.x1 != v.x2
    ensures BuildNumber(v, v) == Some(Tuned(Integral(1, 0)))
  {
    OnLineIsFitted(v, 1, 0);
    assert OnLine(v, 1, 0) == v;
  }

  lemma ShiftMerges(v: Triple)
    requires v.x1 != v.x2 && v.x1 >= 0 && v.x2 >= 0 && v.x3 >= 0
    ensures BuildCompound(Bin(ShiftR, Name(0), Num(v.x1)), Bin(ShiftR, Name(0), Num(v.x2)), Bin(ShiftR, Name(0), Num(v.x3)), Name(0), v)
            == Some(SAVED_BY_VAL)
  {
    IdentityFits(v);
    assert Merge(Num(v.x1), Num(v.x2), Num(v.x3), Name(0), v) == Some(Tuned(Integral(1, 0)));
    assert Merge(Name(0), Name(0), Name(0), Name(0), v) == Some(Saved);
  }

  lemma ShiftRecorded(n: nat, r: Reg)
    ensures Recorded(ShiftBlock(n, r)) == [map[0 := Bin(ShiftR, Name(0), Num(n))]]
    ensures ExprAfter(ShiftBlock(n, r), 1, 0) == Bin(ShiftR, Name(0), Num(n)) && ExprAfter(ShiftBlock(n, r), 0, 0) == Name(0)
  {
    var code := ShiftBlock(n, r);
    ShiftRun(n, r);
    assert code[..1] == code && code[..0] == [];
    assert RunSym(code[..0]) == EMPTY_SYM;
  }

  /** Three shift seeds with different counts form a chain. */
  lemma ShiftChain(n1: nat, n2: nat, n3: nat, r: Reg)
    requires n1 != n2
    ensures ChainFound(ShiftBlock(n1, r), ShiftBlock(n2, r), ShiftBlock(n3, r), r, 0, 0)
  {
    ShiftRun(n1, r);
    ShiftRecorded(n1, r);
    ShiftRecorded(n2, r);
    ShiftRecorded(n3, r);
  }

  /** The expression found for them is `(*saved) >> val`. */
  lemma ShiftCompound(v: Triple, r: Reg, start: nat, end: nat)
    requires start == 0 && end == 0
    requires v.x1 != v.x2 && v.x1 >= 0 && v.x2 >= 0 && v.x3 >= 0
    ensures var b1, b2, b3 := ShiftBlock(v.x1, r), ShiftBlock(v.x2, r), ShiftBlock(v.x3, r);
            r in RunSym(b1).regMap && IsCompound(b1, b2, b3, start, end + 1, RunSym(b1).regMap[r], v, SAVED_BY_VAL)
  {
    ShiftRun(v.x1, r);
    ShiftRecorded(v.x1, r);
    ShiftRecorded(v.x2, r);
    ShiftRecorded(v.x3, r);
    ShiftMerges(v);
  }

  lemma ShiftSupported(n: nat, r: Reg, regs: Regs)
    requires n < 32
    ensures Supported(32, ShiftBlock(n, r), regs)
  {
    Pow2Large(32);
    LowSmall(32, n);
  }

  lemma ValueItself(w: nat, val: nat, saved: nat)
    requires w <= 64 && val < Pow2(w)
    ensures EvalC(w, Tuned(Integral(1, 0)), saved, val) == val
  {
    assert 1 * val + 0 == val;
    ModPow2(val, w, 64);
    LowSmall(w, val);
  }

  lemma WordCount(n: nat)
    requires n < 32
    ensures n < Pow2(32) && Low(64, n) == n && Low(32, n) == n
  {
    Pow2Large(32);
    Pow2Monotone(32, 64);
    LowSmall(64, n);
    LowSmall(32, n);
  }

  /** `(*saved) >> val` leaks exactly if the saved register has a bit among the val above the word. */
  lemma SavedByValLeaks(saved: nat, val: nat)
    requires val < 32
    ensures IntegerForm(SAVED_BY_VAL) && Closed(SAVED_BY_VAL) && LeakShows(32, SAVED_BY_VAL, saved, val)
    ensures NoLeak(32, SAVED_BY_VAL, saved, val) <==> Clean(32, Low(64, saved), val)
  {
    WordCount(val);
    ValueItself(32, val, saved);
  }

  lemma ShiftFollows(v: Triple, val: nat, r: Reg)
    requires v.x1 != v.x2 && v.x1 >= 0 && v.x2 >= 0 && v.x3 >= 0
    ensures BlockFollows(ShiftBlock(v.x1, r), ShiftBlock(v.x2, r), ShiftBlock(v.x3, r), ShiftBlock(val, r), v, val)
  {
    IdentityFits(v);
  }

  /** Whatever the new count, the register saved before the seed and shifted by it is what the shift rebuilt
      with that count computes, exactly if no bit of the register's upper half is shifted into the word.  The
      chain starts and ends at position 0. */
  lemma ShiftSeedExact(v: Triple, val: nat, r: Reg, start: nat, end: nat, regs: Regs)
    requires start == 0 && end == 0
    requires v.x1 != v.x2 && v.x1 >= 0 && v.x2 >= 0 && v.x3 >= 0 && val < 32
    ensures IntegerForm(SAVED_BY_VAL) && Closed(SAVED_BY_VAL)
    ensures SameLow(32, RunProbed(32, ShiftBlock(v.x1, r), r, start, end + 1, SAVED_BY_VAL, val, regs),
                    RunCpu(32, ShiftBlock(val, r), regs))
            <==> Clean(32, Low(64, regs[r]), val)
  {
    var b1, b2, b3, b4 := ShiftBlock(v.x1, r), ShiftBlock(v.x2, r), ShiftBlock(v.x3, r), ShiftBlock(val, r);
    SavedByValLeaks(regs[r], val);
    ShiftChain(v.x1, v.x2, v.x3, r);
    ShiftCompound(v, r, start, end);
    ShiftFollows(v, val, r);
    ShiftSupported(val, r, regs);
    WholeBlockExact(32, b1, b2, b3, b4, v, val, r, start, end, SAVED_BY_VAL, regs);
  }

  /** So every register whose upper half is clear is handled. */
  lemma ShiftSeedIsTuned(v: Triple, val: nat, r: Reg, start: nat, end: nat, regs: Regs)
    requires start == 0 && end == 0
    requires v.x1 != v.x2 && v.x1 >= 0 && v.x2 >= 0 && v.x3 >= 0 && val < 32 && regs[r] < Pow2(32)
    ensures IntegerForm(SAVED_BY_VAL) && Closed(SAVED_BY_VAL)
    ensures SameLow(32, RunProbed(32, ShiftBlock(v.x1, r), r, start, end + 1, SAVED_BY_VAL, val, regs),
                    RunCpu(32, ShiftBlock(val, r), regs))
  {
    Pow2Monotone(32, 64);
    LowSmall(64, regs[r]);
    SmallIsClean(32, regs[r], val);
    ShiftSeedExact(v, val, r, start, end, regs);
  }

  // ---------------------------------------------------------------- a choice between V and 2V

  /** `and $(m - n),%r; add $2n,%r`, where m - n is the word -n. */
  function ChoiceBlock(m: nat, n: nat, r: Reg): seq<Instr>
    requires n <= m
  {
    [Two(And, SuffixL, Imm(m - n), r), Two(Add, SuffixL, Imm(2 * n), r)]
  }

  function Masked(m: nat, n: nat): Expr
    requires n <= m
  {
    Bin(Conj, Name(0), Num(m - n))
  }

  function Chosen(m: nat, n: nat): Expr
    requires n <= m
  {
    Bin(Plus, Masked(m, n), Num(2 * n))
  }

  /** `((*saved) & f) + g`. */
  function MaskedSum(f: Formula, g: Formula): CExpr {
    COp(Plus, COp(Conj, Saved, Tuned(f)), Tuned(g))
  }

  /** `((*saved) & (-val + m)) + 2*val`. */
  function ChoiceExpr(m: nat): CExpr { MaskedSum(Integral(-1, m), Integral(2, 0)) }

  lemma ChoiceRun(m: nat, n: nat, r: Reg)
    requires n <= m
    ensures RunSym(ChoiceBlock(m, n, r)[..1]).regMap == map[r := 0] && RunSym(ChoiceBlock(m, n, r)).regMap == map[r := 0]
    ensures RunSym(ChoiceBlock(m, n, r)[..1]).state == map[0 := Masked(m, n)]
    ensures RunSym(ChoiceBlock(m, n, r)).state == map[0 := Chosen(m, n)]
  {
    var code := ChoiceBlock(m, n, r);
    assert code[..1][..0] == [] && code[..1][0] == code[0];
    assert RunSym(code[..1][..0]) == EMPTY_SYM;
    var named := OperandsNamed(EMPTY_SYM, code[0]);
    assert named.regMap == map[r := 0] && named.state == map[];
    assert RunSym(code[..1]) == Updated(named, And, Imm(m - n), Num(m - n), Num(m - n), 0);
    var s := RunSym(code[..1]);
    assert OperandsNamed(s, code[1]) == s;
    assert RunSym(code) == Updated(s, Add, Imm(2 * n), Num(2 * n), Num(2 * n), 0);
  }

  lemma ChoiceRecorded(m: nat, n: nat, r: Reg)
    requires n <= m
    ensures Recorded(ChoiceBlock(m, n, r)) == [map[0 := Masked(m, n)], map[0 := Chosen(m, n)]]
    ensures ExprAfter(ChoiceBlock(m, n, r), 2, 0) == Chosen(m, n) && ExprAfter(ChoiceBlock(m, n, r), 0, 0) == Name(0)
  {
    var code := ChoiceBlock(m, n, r);
    ChoiceRun(m, n, r);
    assert code[..2] == code && code[..0] == [];
    RecordedAt(code, 1);
    RecordedAt(code, 2);
    assert RunSym(code[..0]) == EMPTY_SYM;
  }

  /** The chain is both instructions. */
  lemma ChoiceChain(m: nat, n1: nat, n2: nat, n3: nat, r: Reg)
    requires n1 <= m && n2 <= m && n3 <= m && n1 != n2
    ensures ChainFound(ChoiceBlock(m, n1, r), ChoiceBlock(m, n2, r), ChoiceBlock(m, n3, r), r, 0, 1)
  {
    ChoiceRun(m, n1, r);
    ChoiceRecorded(m, n1, r);
    ChoiceRecorded(m, n2, r);
    ChoiceRecorded(m, n3, r);
  }

  /** The masks are fitted by m - V, the addends by 2V. */
  lemma ChoiceFits(m: nat, v: Triple)
    requires v.x1 != v.x2
    ensures BuildNumber(Triple(m - v.x1, m - v.x2, m - v.x3), v) == Some(Tuned(Integral(-1, m)))
    ensures BuildNumber(Triple(2 * v.x1, 2 * v.x2, 2 * v.x3), v) == Some(Tuned(Integral(2, 0)))
  {
    OnLineIsFitted(v, -1, m);
    assert OnLine(v, -1, m) == Triple(m - v.x1, m - v.x2, m - v.x3);
    OnLineIsFitted(v, 2, 0);
    assert OnLine(v, 2, 0) == Triple(2 * v.x1, 2 * v.x2, 2 * v.x3);
  }

  ghost predicate Within(v: Triple, m: nat) {
    0 <= v.x1 <= m && 0 <= v.x2 <= m && 0 <= v.x3 <= m
  }

  lemma MergeOfOps(op: BinOp, l1: Expr, l2: Expr, l3: Expr, r1: Expr, r2: Expr, r3: Expr, saved: Expr, v: Triple, l: CExpr, r: CExpr)
    requires saved.Name? && Merge(l1, l2, l3, saved, v) == Some(l) && Merge(r1, r2, r3, saved, v) == Some(r)
    ensures Merge(Bin(op, l1, r1), Bin(op, l2, r2), Bin(op, l3, r3), saved, v) == Some(COp(op, l, r))
  {
  }

  lemma MergeOfNums(n: Triple, saved: Expr, v: Triple, c: CExpr)
    requires saved.Name? && n.x1 >= 0 && n.x2 >= 0 && n.x3 >= 0 && BuildNumber(n, v) == Some(c)
    ensures Merge(Num(n.x1), Num(n.x2), Num(n.x3), saved, v) == Some(c)
  {
  }

  lemma ChoiceMerges(m: nat, v: Triple)
    requires v.x1 != v.x2 && Within(v, m)
    ensures BuildCompound(Chosen(m, v.x1), Chosen(m, v.x2), Chosen(m, v.x3), Name(0), v) == Some(ChoiceExpr(m))
  {
    var x := Name(0);
    var minus, double := Triple(m - v.x1, m - v.x2, m - v.x3), Triple(2 * v.x1, 2 * v.x2, 2 * v.x3);
    ChoiceFits(m, v);
    MergeOfNums(minus, x, v, Tuned(Integral(-1, m)));
    MergeOfNums(double, x, v, Tuned(Integral(2, 0)));
    MergeOfOps(Conj, x, x, x, Num(minus.x1), Num(minus.x2), Num(minus.x3), x, v, Saved, Tuned(Integral(-1, m)));
    MergeOfOps(Plus, Masked(m, v.x1), Masked(m, v.x2), Masked(m, v.x3), Num(double.x1), Num(double.x2), Num(double.x3), x, v,
               ChoiceExpr(m).l, Tuned(Integral(2, 0)));
    ChoiceHasBoth(m);
  }

  lemma ChoiceHasBoth(m: nat)
    ensures HasSaved(ChoiceExpr(m)) && HasNumber(ChoiceExpr(m))
  {
    assert HasSaved(ChoiceExpr(m).l) && HasNumber(ChoiceExpr(m).r);
  }

  lemma ChoiceCompound(m: nat, v: Triple, r: Reg, start: nat, end: nat)
    requires start == 0 && end == 1 && v.x1 != v.x2 && Within(v, m)
    ensures var b1, b2, b3 := ChoiceBlock(m, v.x1, r), ChoiceBlock(m, v.x2, r), ChoiceBlock(m, v.x3, r);
            r in RunSym(b1).regMap && IsCompound(b1, b2, b3, start, end + 1, RunSym(b1).regMap[r], v, ChoiceExpr(m))
  {
    ChoiceRun(m, v.x1, r);
    ChoiceRecorded(m, v.x1, r);
    ChoiceRecorded(m, v.x2, r);
    ChoiceRecorded(m, v.x3, r);
    ChoiceMerges(m, v);
  }

  lemma ChoiceFollows(m: nat, v: Triple, val: nat, r: Reg)
    requires v.x1 != v.x2 && Within(v, m) && val <= m
    ensures BlockFollows(ChoiceBlock(m, v.x1, r), ChoiceBlock(m, v.x2, r), ChoiceBlock(m, v.x3, r), ChoiceBlock(m, val, r), v, val)
  {
    ChoiceFits(m, v);
  }

  lemma ChoiceSupported(m: nat, n: nat, r: Reg, regs: Regs)
    requires n <= m
    ensures Supported(32, ChoiceBlock(m, n, r), regs)
  {
  }

  lemma ChoiceIsC(w: nat, m: nat)
    ensures IntegerForm(ChoiceExpr(m)) && Closed(ChoiceExpr(m)) && CarrySafe(w, ChoiceExpr(m), true)
  {
    assert CarrySafe(w, ChoiceExpr(m).l, true) && CarrySafe(w, ChoiceExpr(m).r, true);
  }

  lemma SumTemplate(w: nat, l: CExpr, f: Formula, saved: nat, val: int, x: int, left: nat, env: nat -> nat)
    requires IntegerForm(l) && f.Integral? && x == f.p * val + f.q && EvalTemplate(w, l, saved, val, env) == left
    ensures IntegerForm(COp(Plus, l, Tuned(f)))
    ensures EvalTemplate(w, COp(Plus, l, Tuned(f)), saved, val, env) == Low(w, left + Low(w, x))
  {
  }

  lemma MaskTemplate(w: nat, f: Formula, saved: nat, val: int, x: int, masked: nat, env: nat -> nat)
    requires f.Integral? && saved < Pow2(w) && x == f.p * val + f.q && Bitwise(BitAnd, saved, Low(w, x)) == masked
    ensures IntegerForm(COp(Conj, Saved, Tuned(f))) && EvalTemplate(w, COp(Conj, Saved, Tuned(f)), saved, val, env) == masked
  {
    LowSmall(w, saved);
  }

  /** The value for a saved word that the mask turns into `masked`. */
  lemma ChoiceTemplate(w: nat, m: nat, saved: nat, val: int, masked: nat, env: nat -> nat)
    requires saved < Pow2(w) && Bitwise(BitAnd, saved, Low(w, m - val)) == masked
    ensures IntegerForm(ChoiceExpr(m)) && EvalTemplate(w, ChoiceExpr(m), saved, val, env) == Low(w, masked + Low(w, 2 * val))
  {
    MaskTemplate(w, Integral(-1, m), saved, val, m - val, masked, env);
    SumTemplate(w, ChoiceExpr(m).l, Integral(2, 0), saved, val, 2 * val, masked, env);
  }

  /** -V + 2V is V in any word. */
  lemma MinusAndDouble(w: nat, m: nat, val: int)
    requires m == Pow2(w) && 0 <= val < m
    ensures Low(w, Low(w, m - val) + Low(w, 2 * val)) == val
  {
    AddMod(m - val, 2 * val, m);
    ModEqual(m + val, val, 1, m);
    LowSmall(w, val);
  }

  lemma ChoiceWhenClear(w: nat, m: nat, val: int)
    requires 0 < w <= 64
    ensures IntegerForm(ChoiceExpr(m)) && Closed(ChoiceExpr(m))
    ensures Low(w, EvalC(w, ChoiceExpr(m), 0, val)) == Low(w, 2 * val)
  {
    var env := (k: nat) => 0;
    AndZero(Low(w, m - val));
    ChoiceIsC(w, m);
    ChoiceTemplate(w, m, 0, val, 0, env);
    FormSuffices(w, ChoiceExpr(m), 0, val, env);
    NoLeakIsRight(w, ChoiceExpr(m), 0, val, env);
    LowLow(w, 2 * val);
  }

  lemma SetTemplate(w: nat, m: nat, val: int, env: nat -> nat)
    requires m == Pow2(w) && 0 <= val < m
    ensures IntegerForm(ChoiceExpr(m)) && EvalTemplate(w, ChoiceExpr(m), m - 1, val, env) == val
  {
    var mask := Low(w, m - val);
    AllOnes(mask, w);
    ChoiceTemplate(w, m, m - 1, val, mask, env);
    MinusAndDouble(w, m, val);
  }

  lemma ChoiceWhenSet(w: nat, m: nat, val: int)
    requires 0 < w <= 64 && m == Pow2(w) && 0 <= val < m
    ensures IntegerForm(ChoiceExpr(m)) && Closed(ChoiceExpr(m))
    ensures Low(w, EvalC(w, ChoiceExpr(m), m - 1, val)) == val
  {
    var env := (k: nat) => 0;
    ChoiceIsC(w, m);
    SetTemplate(w, m, val, env);
    FormSuffices(w, ChoiceExpr(m), m - 1, val, env);
    NoLeakIsRight(w, ChoiceExpr(m), m - 1, val, env);
  }

  /** The saved word decides between V and 2V. */
  lemma ChoiceValues(w: nat, m: nat, val: int)
    requires 0 < w <= 64 && m == Pow2(w) && 0 <= val < m
    ensures IntegerForm(ChoiceExpr(m)) && Closed(ChoiceExpr(m))
    ensures Low(w, EvalC(w, ChoiceExpr(m), 0, val)) == Low(w, 2 * val)
    ensures Low(w, EvalC(w, ChoiceExpr(m), m - 1, val)) == val
  {
    ChoiceWhenClear(w, m, val);
    ChoiceWhenSet(w, m, val);
  }

  /** For that expression the inference is right exactly for the constants that can be doubled. */
  lemma ChoiceIsTelling(m: nat, v1: nat)
    requires m == Pow2(32) && v1 < m
    ensures IntegerForm(ChoiceExpr(m)) && Closed(ChoiceExpr(m))
    ensures Telling(ChoiceExpr(m), v1) <==> 0 < v1 < Pow2(31)
  {
    ChoiceValues(32, m, v1);
    DoubledWord(m, v1);
  }

  lemma DoubledWord(m: nat, v1: nat)
    requires m == Pow2(32) && v1 < m
    ensures Low(32, 2 * v1) > v1 <==> 0 < v1 < Pow2(31)
  {
    assert Pow2(32) == 2 * Pow2(31);
    if 2 * v1 < m {
      LowSmall(32, 2 * v1);
    } else {
      DivModUnique(2 * v1, m, 1, 2 * v1 - m);
    }
  }

  lemma ChoiceNeverLeaks(m: nat, saved: nat, val: int)
    requires saved == 0 || saved == AllOnes32()
    ensures IntegerForm(ChoiceExpr(m)) && Closed(ChoiceExpr(m)) && NoLeak(32, ChoiceExpr(m), saved, val)
  {
    ChoiceIsC(32, m);
    OnesFit();
    FormSuffices(32, ChoiceExpr(m), saved, val, (k: nat) => 0);
  }

  /** After `sbb %r,%r` the block for V and 2V needs no save probe: for every original constant that can be
      doubled and every new one, the apply helper alone makes the block compute what the block rebuilt for
      the new constant computes.  The chain is positions 0 and 1. */
  lemma ChoiceIsTuned(m: nat, v: Triple, val: nat, r: Reg, start: nat, end: nat, regs: Regs)
    requires start == 0 && end == 1 && m == Pow2(32) && Spaced(v) && Within(v, m) && val <= m
    requires 0 < v.x1 < Pow2(31) && (regs[r] == 0 || regs[r] == AllOnes32())
    ensures IntegerForm(ChoiceExpr(m)) && Closed(ChoiceExpr(m))
    ensures SameLow(32, RunInferred(ChoiceBlock(m, v.x1, r), r, end + 1, ChoiceExpr(m), v.x1, val, regs),
                    RunCpu(32, ChoiceBlock(m, val, r), regs))
  {
    var b1, b2, b3, b4 := ChoiceBlock(m, v.x1, r), ChoiceBlock(m, v.x2, r), ChoiceBlock(m, v.x3, r), ChoiceBlock(m, val, r);
    ChoiceNeverLeaks(m, regs[r], v.x1);
    ChoiceNeverLeaks(m, regs[r], val);
    ChoiceIsTelling(m, v.x1);
    ChoiceChain(m, v.x1, v.x2, v.x3, r);
    ChoiceCompound(m, v, r, start, end);
    ChoiceFollows(m, v, val, r);
    ChoiceSupported(m, v.x1, r, regs);
    ChoiceSupported(m, val, r, regs);
    WholeBlockInferred(b1, b2, b3, b4, v, val, r, start, end, ChoiceExpr(m), regs);
  }
}
