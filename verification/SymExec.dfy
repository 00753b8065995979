/** The symbolic executor of src/codegen.py: class `SymbolicExecutor` and
    `run_symbolic_exec_on_instructions`.  Expressions are trees; the source prints them fully
    parenthesised.  `Sym` is the executor's state as a value. */
module SymExec {
  import opened Words
  import opened Machine

  datatype BinOp = Plus | Minus | Times | Quot | Conj | Disj | Excl | ShiftL | ShiftR

  /** `Name(k)` is the anonymous register r<k>. */
  datatype Expr = Name(k: nat) | Num(n: nat) | Bin(op: BinOp, l: Expr, r: Expr)

  datatype Sym = Sym(regMap: map<Reg, nat>, counter: nat, state: map<nat, Expr>, alt: map<nat, Expr>)

  const EMPTY_SYM := Sym(map[], 0, map[], map[])

  // ---------------------------------------------------------------- dispatch on the mnemonic

  function Text(op: Op): string {
    match op
    case Mov => "mov"
    case Add => "add"
    case Sub => "sub"
    case And => "and"
    case Or => "or"
    case Xor => "xor"
    case Shl => "shl"
    case Shr => "shr"
    case Imul => "imul"
  }

  predicate IsSuffix(c: char) { c == 'b' || c == 'w' || c == 'l' || c == 'q' }

  /** Drops one size letter at the end, whether it is a suffix or part of the name. */
  function Stripped(mnemonic: string): string {
    if mnemonic != "" && IsSuffix(mnemonic[|mnemonic| - 1]) then mnemonic[..|mnemonic| - 1] else mnemonic
  }

  function OpOf(i: Instr): Op {
    match i
    case Two(op, _, _, _) => op
    case Imul3(_, _, _, _) => Imul
  }

  function SuffixText(suffix: Suffix): string {
    match suffix
    case Bare => ""
    case SuffixB => "b"
    case SuffixW => "w"
    case SuffixL => "l"
    case SuffixQ => "q"
  }

  /** The executor recognises the instruction; otherwise it leaves its state as it is.  Without a suffix
      it misses the operations whose last letter is a size letter. */
  predicate Dispatched(i: Instr) {
    i.suffix != Bare || OpOf(i) !in {Sub, Shl, Imul}
  }

  /** That is what dropping one letter from the printed mnemonic comes to: what is left is the name of the
      operation exactly for the instructions that are recognised, and never the name of another one. */
  lemma DispatchExact(i: Instr, op: Op)
    ensures Stripped(Text(OpOf(i)) + SuffixText(i.suffix)) == Text(op) <==> Dispatched(i) && op == OpOf(i)
  {
    var t := Text(OpOf(i));
    if i.suffix == Bare {
      assert t + SuffixText(i.suffix) == t;
      BareText(OpOf(i), op);
    } else {
      var m := t + SuffixText(i.suffix);
      assert m[|m| - 1] == SuffixText(i.suffix)[0] && m[..|m| - 1] == t;
      TextsDiffer(OpOf(i), op);
    }
  }

  lemma TextsDiffer(a: Op, b: Op)
    ensures Text(a) == Text(b) <==> a == b
  {
    var s, t := Text(a), Text(b);
    if a != b && |s| == |t| {
      assert s[0] != t[0] || s[1] != t[1] || s[2] != t[2];
    }
  }

  lemma BareText(a: Op, b: Op)
    ensures Stripped(Text(a)) == Text(b) <==> a !in {Sub, Shl, Imul} && a == b
  {
    var s, t := Text(a), Text(b);
    TextsDiffer(a, b);
    assert IsSuffix(s[|s| - 1]) <==> a in {Sub, Shl, Imul};
    if a in {Sub, Shl, Imul} {
      var r := Stripped(s);
      assert |r| == |s| - 1 && r[0] == s[0];
      assert |r| == |t| ==> r[0] != t[0];
    }
  }

  // ---------------------------------------------------------------- one instruction

  function Named(s: Sym, r: Reg): Sym {
    if r in s.regMap then s else s.(regMap := s.regMap[r := s.counter], counter := s.counter + 1)
  }

  function Get(state: map<nat, Expr>, k: nat): Expr {
    if k in state then state[k] else Name(k)
  }

  function GetAlt(s: Sym, k: nat): Expr {
    if k in s.alt then s.alt[k] else Get(s.state, k)
  }

  /** Names are given to the operands in the order in which they are parsed. */
  function OperandsNamed(s: Sym, i: Instr): Sym {
    match i
    case Two(_, _, Imm(_), dst) => Named(s, dst)
    case Two(_, _, FromReg(r), dst) => Named(Named(s, r), dst)
    case Imul3(_, _, src, dst) => Named(Named(s, src), dst)
  }

  function SymOp(op: Op): BinOp
    requires op != Mov
  {
    match op
    case Add => Plus
    case Sub => Minus
    case And => Conj
    case Or => Disj
    case Xor => Excl
    case Shl => ShiftL
    case Shr => ShiftR
    case Imul => Times
  }

  function SetBoth(s: Sym, k: nat, e: Expr, a: Expr): Sym {
    s.(state := s.state[k := e], alt := s.alt[k := a])
  }

  /** The effect on the two states, all operands being named; (e, a) is the source in both versions. */
  function Updated(s: Sym, op: Op, src: Source, e: Expr, a: Expr, k: nat): (r: Sym)
    ensures r.regMap == s.regMap && r.counter == s.counter
  {
    match op
    case Mov => SetBoth(s, k, e, a)
    case And => s.(state := s.state[k := Bin(Conj, Get(s.state, k), e)])
    case Or => s.(state := s.state[k := Bin(Disj, Get(s.state, k), e)])
    case Xor => s.(state := s.state[k := Bin(Excl, Get(s.state, k), e)])
    case Shl =>
      if src.Imm? then SetBoth(s, k, Bin(ShiftL, Get(s.state, k), e), Bin(Times, GetAlt(s, k), Num(Pow2(src.value))))
      else s.(state := s.state[k := Bin(ShiftL, Get(s.state, k), e)], alt := s.alt - {k})
    case Shr =>
      if src.Imm? then SetBoth(s, k, Bin(ShiftR, Get(s.state, k), e), Bin(Quot, GetAlt(s, k), Num(Pow2(src.value))))
      else s.(state := s.state[k := Bin(ShiftR, Get(s.state, k), e)], alt := s.alt - {k})
    case _ => SetBoth(s, k, Bin(SymOp(op), Get(s.state, k), e), Bin(SymOp(op), GetAlt(s, k), a))
  }

  function SourceExpr(s: Sym, src: Source): Expr
    requires src.FromReg? ==> src.reg in s.regMap
  {
    match src
    case Imm(n) => Num(n)
    case FromReg(r) => Get(s.state, s.regMap[r])
  }

  function SourceAlt(s: Sym, src: Source): Expr
    requires src.FromReg? ==> src.reg in s.regMap
  {
    match src
    case Imm(n) => Num(n)
    case FromReg(r) => GetAlt(s, s.regMap[r])
  }

  /** A recognised instruction. */
  function SymApply(s: Sym, i: Instr): Sym {
    var t := OperandsNamed(s, i);
    match i
    case Two(op, _, src, dst) => Updated(t, op, src, SourceExpr(t, src), SourceAlt(t, src), t.regMap[dst])
    case Imul3(_, imm, src, dst) =>
      SetBoth(t, t.regMap[dst], Bin(Times, Get(t.state, t.regMap[src]), Num(imm)),
              Bin(Times, GetAlt(t, t.regMap[src]), Num(imm)))
  }

  function SymStep(s: Sym, i: Instr): Sym {
    if Dispatched(i) then SymApply(s, i) else s
  }

  /** The state after a list of instructions; the states after its prefixes are those recorded. */
  function RunSym(code: seq<Instr>): Sym {
    if code == [] then EMPTY_SYM else SymStep(RunSym(code[..|code| - 1]), code[|code| - 1])
  }

  // ---------------------------------------------------------------- the executor as code

  class SymbolicExecutor {
    var regMap: map<Reg, nat>
    var regCounter: nat
    var state: map<nat, Expr>
    var stateAlt: map<nat, Expr>

    ghost function View(): Sym
      reads this
    {
      Sym(regMap, regCounter, state, stateAlt)
    }

    constructor ()
      ensures View() == EMPTY_SYM
    {
      regMap, regCounter, state, stateAlt := map[], 0, map[], map[];
    }

    method GetAnonymousReg(r: Reg) returns (k: nat)
      modifies this`regMap, this`regCounter
      ensures View() == Named(old(View()), r)
      ensures r in regMap && k == regMap[r]
    {
      if r !in regMap {
        regMap := regMap[r := regCounter];
        regCounter := regCounter + 1;
      }
      k := regMap[r];
    }

    /** The current expressions of an anonymous register in both versions. */
    method Lookup(k: nat) returns (expr: Expr, exprAlt: Expr)
      ensures expr == Get(state, k) && exprAlt == GetAlt(View(), k)
    {
      expr := if k in state then state[k] else Name(k);
      exprAlt := if k in stateAlt then stateAlt[k] else expr;
    }

    method Update(op: Op, src: Source, srcExpr: Expr, srcAlt: Expr, k: nat)
      modifies this`state, this`stateAlt
      ensures View() == Updated(old(View()), op, src, srcExpr, srcAlt, k)
    {
      var dstExpr, dstAlt := Lookup(k);
      match op {
        case Mov =>
          state := state[k := srcExpr];
          stateAlt := stateAlt[k := srcAlt];
        case And =>
          state := state[k := Bin(Conj, dstExpr, srcExpr)];
        case Or =>
          state := state[k := Bin(Disj, dstExpr, srcExpr)];
        case Xor =>
          state := state[k := Bin(Excl, dstExpr, srcExpr)];
        case Shl =>
          state := state[k := Bin(ShiftL, dstExpr, srcExpr)];
          if src.Imm? {
            stateAlt := stateAlt[k := Bin(Times, dstAlt, Num(Pow2(src.value)))];
          } else {
            stateAlt := stateAlt - {k};
          }
        case Shr =>
          state := state[k := Bin(ShiftR, dstExpr, srcExpr)];
          if src.Imm? {
            stateAlt := stateAlt[k := Bin(Quot, dstAlt, Num(Pow2(src.value)))];
          } else {
            stateAlt := stateAlt - {k};
          }
        case _ =>
          state := state[k := Bin(SymOp(op), dstExpr, srcExpr)];
          stateAlt := stateAlt[k := Bin(SymOp(op), dstAlt, srcAlt)];
      }
    }

    method ExecuteInstruction(i: Instr)
      modifies this
      ensures View() == SymStep(old(View()), i)
    {
      if !Dispatched(i) {
        return;
      }
      match i
      case Two(op, _, Imm(n), dst) =>
        var k := GetAnonymousReg(dst);
        Update(op, Imm(n), Num(n), Num(n), k);
      case Two(op, _, FromReg(r), dst) =>
        var j := GetAnonymousReg(r);
        var k := GetAnonymousReg(dst);
        var srcExpr, srcAlt := Lookup(j);
        Update(op, FromReg(r), srcExpr, srcAlt, k);
      case Imul3(_, imm, src, dst) =>
        var j := GetAnonymousReg(src);
        var k := GetAnonymousReg(dst);
        var srcExpr, srcAlt := Lookup(j);
        state := state[k := Bin(Times, srcExpr, Num(imm))];
        stateAlt := stateAlt[k := Bin(Times, srcAlt, Num(imm))];
    }
  }

  /** The states after each instruction. */
  ghost function Recorded(code: seq<Instr>): seq<map<nat, Expr>> {
    seq(|code|, (j: nat) requires j < |code| => RunSym(code[..j + 1]).state)
  }

  ghost function RecordedAlt(code: seq<Instr>): seq<map<nat, Expr>> {
    seq(|code|, (j: nat) requires j < |code| => RunSym(code[..j + 1]).alt)
  }

  lemma RecordedAt(code: seq<Instr>, n: nat)
    requires 0 < n <= |code|
    ensures Recorded(code)[n - 1] == RunSym(code[..n]).state && RecordedAlt(code)[n - 1] == RunSym(code[..n]).alt
  {
  }

  lemma RunSymStep(code: seq<Instr>, j: nat)
    requires j < |code|
    ensures RunSym(code[..j + 1]) == SymStep(RunSym(code[..j]), code[j])
  {
    assert code[..j + 1][..j] == code[..j];
  }

  /** The states after each instruction, in both versions, and the final register names. */
  method RunSymbolicExec(code: seq<Instr>)
      returns (states: seq<map<nat, Expr>>, alts: seq<map<nat, Expr>>, names: map<Reg, nat>)
    ensures states == Recorded(code) && alts == RecordedAlt(code)
    ensures names == RunSym(code).regMap
  {
    var executor := new SymbolicExecutor();
    states, alts := [], [];
    var j := 0;
    while j < |code|
      invariant 0 <= j <= |code| && states == Recorded(code)[..j] && alts == RecordedAlt(code)[..j]
      invariant executor.View() == RunSym(code[..j])
    {
      RunSymStep(code, j);
      RecordedAt(code, j + 1);
      executor.ExecuteInstruction(code[j]);
      states, alts := states + [executor.state], alts + [executor.stateAlt];
      j := j + 1;
    }
    assert code[..j] == code;
    names := executor.regMap;
  }
}
