/** Emulation of `cmp` on a saved FLAGS register: `xk_cmp_set_flags32` and `xk_cmp_set_flags64` of
    bpf/util.bpf.h, checked against the condition codes of the Intel 64 and IA-32 Architectures Software
    Developer's Manual, volume 1, section 3.4.3.1 and appendix B.  Operands are words of width w, 32 or 64. */
module Flags {
  import opened Words

  const CF: bv64 := 0x0001
  const ZF: bv64 := 0x0040
  const SF: bv64 := 0x0080
  const OF: bv64 := 0x0800

  /** The four status flags, with the condition codes of the hardware. */
  datatype Status = Status(cf: bool, zf: bool, sf: bool, of: bool) {
    predicate B() { cf }
    predicate BE() { cf || zf }
    predicate A() { !cf && !zf }
    predicate AE() { !cf }
    predicate E() { zf }
    predicate NE() { !zf }
    predicate L() { sf != of }
    predicate LE() { zf || sf != of }
    predicate G() { !zf && sf == of }
    predicate GE() { sf == of }
  }

  function StatusOf(f: bv64): Status {
    Status(f & CF != 0, f & ZF != 0, f & SF != 0, f & OF != 0)
  }

  function OtherBits(f: bv64): bv64 {
    f & 0xFFFF_FFFF_FFFF_F73E
  }

  /** The positions of the four bits in FLAGS. */
  lemma BitPositions(f: bv64)
    ensures StatusOf(f).cf <==> (f >> 0) & 1 == 1
    ensures StatusOf(f).zf <==> (f >> 6) & 1 == 1
    ensures StatusOf(f).sf <==> (f >> 7) & 1 == 1
    ensures StatusOf(f).of <==> (f >> 11) & 1 == 1
  {
  }

  /** The other bits are all sixty of them. */
  lemma OtherBitsExact(f: bv64)
    ensures OtherBits(f) == f & !((1 << 0) | (1 << 6) | (1 << 7) | (1 << 11))
  {
  }

  /** The two's complement value of a word. */
  function Signed(w: nat, x: nat): int
    requires w > 0
  {
    if x < Pow2(w - 1) then x else x - Pow2(w)
  }

  /** Every condition code answers as the comparison it is named after. */
  ghost predicate AnswersLikeCmp(w: nat, st: Status, dst: nat, src: nat)
    requires w > 0
  {
    && (st.B() <==> dst < src) && (st.BE() <==> dst <= src)
    && (st.A() <==> dst > src) && (st.AE() <==> dst >= src)
    && (st.E() <==> dst == src) && (st.NE() <==> dst != src)
    && (st.L() <==> Signed(w, dst) < Signed(w, src)) && (st.LE() <==> Signed(w, dst) <= Signed(w, src))
    && (st.G() <==> Signed(w, dst) > Signed(w, src)) && (st.GE() <==> Signed(w, dst) >= Signed(w, src))
  }

  // ---------------------------------------------------------------- the code

  /** The difference as an unsigned word. */
  function Difference(w: nat, dst: nat, src: nat): nat {
    (dst - src) % Pow2(w)
  }

  /** The sign test `(s32)x < 0`. */
  predicate Negative(w: nat, x: nat)
    requires w > 0
  {
    x >= Pow2(w - 1)
  }

  predicate Overflows(w: nat, dst: nat, src: nat)
    requires w > 0
  {
    Negative(w, Bitwise(BitAnd, Bitwise(BitXor, dst, src), Bitwise(BitXor, dst, Difference(w, dst, src))))
  }

  class PtRegs {
    var flags: bv64
  }

  /** `xk_cmp_set_flags32` for w = 32 and `xk_cmp_set_flags64` for w = 64. */
  method CmpSetFlags(ctx: PtRegs, w: nat, dst: nat, src: nat)
    requires w in {32, 64} && dst < Pow2(w) && src < Pow2(w)
    modifies ctx
    ensures AnswersLikeCmp(w, StatusOf(ctx.flags), dst, src)
    ensures OtherBits(ctx.flags) == OtherBits(old(ctx.flags))
  {
    var flags := ctx.flags;
    ghost var before := flags;
    flags := flags & !(CF | ZF | SF | OF);
    Cleared(before);
    var result := Difference(w, dst, src);
    DifferenceValue(w, dst, src);
    if dst < src {
      RaiseCarry(flags);
      flags := flags | CF;
    }
    assert StatusOf(flags) == Status(dst < src, false, false, false);
    if result == 0 {
      RaiseZero(flags);
      flags := flags | ZF;
    }
    assert StatusOf(flags) == Status(dst < src, dst == src, false, false);
    if Negative(w, result) {
      RaiseSign(flags);
      flags := flags | SF;
    }
    assert StatusOf(flags) == Status(dst < src, dst == src, Negative(w, result), false);
    if Negative(w, Bitwise(BitAnd, Bitwise(BitXor, dst, src), Bitwise(BitXor, dst, result))) {
      RaiseOverflow(flags);
      flags := flags | OF;
    }
    ctx.flags := flags;
    CmpIsFaithful(w, dst, src);
  }

  lemma Cleared(f: bv64)
    ensures StatusOf(f & !(CF | ZF | SF | OF)) == Status(false, false, false, false)
    ensures OtherBits(f & !(CF | ZF | SF | OF)) == OtherBits(f)
  {
  }

  lemma RaiseCarry(f: bv64)
    ensures StatusOf(f | CF) == StatusOf(f).(cf := true) && OtherBits(f | CF) == OtherBits(f)
  {
  }

  lemma RaiseZero(f: bv64)
    ensures StatusOf(f | ZF) == StatusOf(f).(zf := true) && OtherBits(f | ZF) == OtherBits(f)
  {
  }

  lemma RaiseSign(f: bv64)
    ensures StatusOf(f | SF) == StatusOf(f).(sf := true) && OtherBits(f | SF) == OtherBits(f)
  {
  }

  lemma RaiseOverflow(f: bv64)
    ensures StatusOf(f | OF) == StatusOf(f).(of := true) && OtherBits(f | OF) == OtherBits(f)
  {
  }

  // ---------------------------------------------------------------- why it is right

  lemma DifferenceValue(w: nat, dst: nat, src: nat)
    requires dst < Pow2(w) && src < Pow2(w)
    ensures Difference(w, dst, src) == if dst >= src then dst - src else dst - src + Pow2(w)
  {
    if dst >= src {
      DivModUnique(dst - src, Pow2(w), 0, dst - src);
    } else {
      DivModUnique(dst - src, Pow2(w), -1, dst - src + Pow2(w));
    }
  }

  /** The exclusive-or formula detects signed overflow of the subtraction. */
  lemma OverflowMeaning(w: nat, dst: nat, src: nat)
    requires w > 0 && dst < Pow2(w) && src < Pow2(w)
    ensures Overflows(w, dst, src) <==>
            !(0 <= Signed(w, dst) - Signed(w, src) + Pow2(w - 1) < Pow2(w))
  {
    var result, n := Difference(w, dst, src), w - 1;
    DifferenceValue(w, dst, src);
    var p, q := Bitwise(BitXor, dst, src), Bitwise(BitXor, dst, result);
    BitwiseBound(BitXor, dst, src, w);
    BitwiseBound(BitXor, dst, result, w);
    TopBit(BitXor, dst, src, n);
    TopBit(BitXor, dst, result, n);
    TopBit(BitAnd, p, q, n);
    assert Pow2(w) == 2 * Pow2(n);
  }

  /** The status flags that the code computes from the operands. */
  function CmpStatus(w: nat, dst: nat, src: nat): Status
    requires w > 0
  {
    Status(dst < src, dst == src, Negative(w, Difference(w, dst, src)), Overflows(w, dst, src))
  }

  /** For all operands the computed flags answer every condition code as the comparison does. */
  lemma CmpIsFaithful(w: nat, dst: nat, src: nat)
    requires w > 0 && dst < Pow2(w) && src < Pow2(w)
    ensures AnswersLikeCmp(w, CmpStatus(w, dst, src), dst, src)
  {
    DifferenceValue(w, dst, src);
    OverflowMeaning(w, dst, src);
    assert Pow2(w) == 2 * Pow2(w - 1);
  }

  // ---------------------------------------------------------------- the BPF_JG macro

  /** The macro compares the masked SF and OF values, which sit at different bit positions. */
  predicate BpfJg(f: bv64) { f & ZF == 0 && f & SF == f & OF }

  /** `BPF_JG` agrees with the hardware's G exactly when it is not the case that SF and OF are both set
      and ZF is clear. */
  lemma BpfJgExact(f: bv64)
    ensures (BpfJg(f) <==> StatusOf(f).G()) <==> !(StatusOf(f).sf && StatusOf(f).of && !StatusOf(f).zf)
  {
  }
}
