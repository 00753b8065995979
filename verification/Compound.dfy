/** Substitution of the tuned value into the expression at the effective end of a varying chain:
    `build_compound_expr` of src/codegen.py, and the value of the C expression it prints. */
module Compound {
  import opened Wrappers
  import opened Words
  import opened Machine
  import opened SymExec
  import opened SymSound
  import opened LinearFit

  /** The C expression: `(*saved)`, an unchanged register name, an unchanged literal, a formula in `val`
      cast to the register width, or an operation. */
  datatype CExpr = Saved | CName(k: nat) | Literal(n: nat) | Tuned(f: Formula) | COp(op: BinOp, l: CExpr, r: CExpr)

  /** One literal position, seen in the three versions. */
  function BuildNumber(n: Triple, v: Triple): Option<CExpr> {
    if n.x1 == n.x2 == n.x3 then (if n.x1 >= 0 then Some(Literal(n.x1)) else None)
    else match FindLinear(v, n)
      case None => None
      case Some(line) => Some(Tuned(BuildExpr(line)))
  }

  /** Merges the three versions; None if they do not share one template after the saved expression is
      replaced, or if some position does not fit a line. */
  function Merge(e1: Expr, e2: Expr, e3: Expr, saved: Expr, v: Triple): Option<CExpr> {
    if e1 == saved || e2 == saved || e3 == saved then
      if e1 == e2 == e3 then Some(Saved) else None
    else match (e1, e2, e3)
      case (Name(k1), Name(k2), Name(k3)) => if k1 == k2 == k3 then Some(CName(k1)) else None
      case (Num(n1), Num(n2), Num(n3)) => BuildNumber(Triple(n1, n2, n3), v)
      case (Bin(op1, l1, r1), Bin(op2, l2, r2), Bin(op3, l3, r3)) =>
        if op1 == op2 == op3 then
          match (Merge(l1, l2, l3, saved, v), Merge(r1, r2, r3, saved, v))
          case (Some(l), Some(r)) => Some(COp(op1, l, r))
          case (_, _) => None
        else None
      case (_, _, _) => None
  }

  predicate HasSaved(c: CExpr) {
    c.Saved? || (c.COp? && (HasSaved(c.l) || HasSaved(c.r)))
  }

  predicate HasNumber(c: CExpr) {
    c.Literal? || c.Tuned? || (c.COp? && (HasNumber(c.l) || HasNumber(c.r)))
  }

  function BuildCompound(e1: Expr, e2: Expr, e3: Expr, saved: Expr, v: Triple): Option<CExpr> {
    match Merge(e1, e2, e3, saved, v)
    case None => None
    case Some(c) => if HasSaved(c) && HasNumber(c) then Some(c) else None
  }

  // ---------------------------------------------------------------- when there is an expression

  /** The expression with the saved one cut out and every number left outside it replaced by one mark. */
  function ShapeOf(e: Expr, saved: Expr): CExpr {
    if e == saved then Saved
    else match e
      case Name(k) => CName(k)
      case Num(_) => Literal(0)
      case Bin(op, l, r) => COp(op, ShapeOf(l, saved), ShapeOf(r, saved))
  }

  /** The numbers outside the saved expression, left to right. */
  function NumbersOutside(e: Expr, saved: Expr): seq<int> {
    if e == saved then []
    else match e
      case Name(_) => []
      case Num(n) => [n]
      case Bin(_, l, r) => NumbersOutside(l, saved) + NumbersOutside(r, saved)
  }

  predicate Occurs(e: Expr, saved: Expr) {
    e == saved || (e.Bin? && (Occurs(e.l, saved) || Occurs(e.r, saved)))
  }

  /** Every position holds one constant, or three numbers that fit a line over `v`. */
  predicate AllFit(n1: seq<int>, n2: seq<int>, n3: seq<int>, v: Triple) {
    && |n1| == |n2| == |n3|
    && forall i :: 0 <= i < |n1| ==> n1[i] == n2[i] == n3[i] || FindLinear(v, Triple(n1[i], n2[i], n3[i])).Some?
  }

  predicate Mergeable(e1: Expr, e2: Expr, e3: Expr, saved: Expr, v: Triple) {
    && ShapeOf(e1, saved) == ShapeOf(e2, saved) == ShapeOf(e3, saved)
    && AllFit(NumbersOutside(e1, saved), NumbersOutside(e2, saved), NumbersOutside(e3, saved), v)
  }

  lemma {:induction false} OneShapeOneLength(a: Expr, b: Expr, saved: Expr)
    requires ShapeOf(a, saved) == ShapeOf(b, saved)
    ensures |NumbersOutside(a, saved)| == |NumbersOutside(b, saved)|
    decreases a
  {
    if a != saved && a.Bin? {
      OneShapeOneLength(a.l, b.l, saved);
      OneShapeOneLength(a.r, b.r, saved);
    }
  }

  lemma AllFitAppend(a1: seq<int>, a2: seq<int>, a3: seq<int>, b1: seq<int>, b2: seq<int>, b3: seq<int>, v: Triple)
    requires |a1| == |a2| == |a3| && |b1| == |b2| == |b3|
    ensures AllFit(a1 + b1, a2 + b2, a3 + b3, v) <==> AllFit(a1, a2, a3, v) && AllFit(b1, b2, b3, v)
  {
    if AllFit(a1 + b1, a2 + b2, a3 + b3, v) {
      forall i | 0 <= i < |a1|
        ensures a1[i] == a2[i] == a3[i] || FindLinear(v, Triple(a1[i], a2[i], a3[i])).Some?
      {
        assert (a1 + b1)[i] == a1[i] && (a2 + b2)[i] == a2[i] && (a3 + b3)[i] == a3[i];
      }
      forall i | 0 <= i < |b1|
        ensures b1[i] == b2[i] == b3[i] || FindLinear(v, Triple(b1[i], b2[i], b3[i])).Some?
      {
        var j := |a1| + i;
        assert (a1 + b1)[j] == b1[i] && (a2 + b2)[j] == b2[i] && (a3 + b3)[j] == b3[i];
      }
    }
  }

  lemma NumberExact(n1: nat, n2: nat, n3: nat, v: Triple)
    ensures BuildNumber(Triple(n1, n2, n3), v).Some? <==> AllFit([n1], [n2], [n3], v)
  {
    assert [n1][0] == n1 && [n2][0] == n2 && [n3][0] == n3;
  }

  /** Two operations merge part by part. */
  lemma OperationsMerge(e1: Expr, e2: Expr, e3: Expr, saved: Expr, v: Triple)
    requires e1 != saved && e2 != saved && e3 != saved && e1.Bin? && e2.Bin? && e3.Bin?
    ensures Mergeable(e1, e2, e3, saved, v) <==>
            e1.op == e2.op == e3.op && Mergeable(e1.l, e2.l, e3.l, saved, v) && Mergeable(e1.r, e2.r, e3.r, saved, v)
  {
    if ShapeOf(e1, saved) == ShapeOf(e2, saved) == ShapeOf(e3, saved) {
      OneShapeOneLength(e1.l, e2.l, saved);
      OneShapeOneLength(e1.l, e3.l, saved);
      OneShapeOneLength(e1.r, e2.r, saved);
      OneShapeOneLength(e1.r, e3.r, saved);
      AllFitAppend(NumbersOutside(e1.l, saved), NumbersOutside(e2.l, saved), NumbersOutside(e3.l, saved),
                   NumbersOutside(e1.r, saved), NumbersOutside(e2.r, saved), NumbersOutside(e3.r, saved), v);
    }
  }

  /** Three expressions merge exactly when they have one shape around the saved expression and every number
      outside it is constant or fits a line. */
  lemma {:induction false} MergeExact(e1: Expr, e2: Expr, e3: Expr, saved: Expr, v: Triple)
    ensures Merge(e1, e2, e3, saved, v).Some? <==> Mergeable(e1, e2, e3, saved, v)
    decreases e1
  {
    if e1 != saved && e2 != saved && e3 != saved {
      if e1.Bin? && e2.Bin? && e3.Bin? {
        MergeExact(e1.l, e2.l, e3.l, saved, v);
        MergeExact(e1.r, e2.r, e3.r, saved, v);
        OperationsMerge(e1, e2, e3, saved, v);
      } else if e1.Num? && e2.Num? && e3.Num? {
        NumberExact(e1.n, e2.n, e3.n, v);
      }
    }
  }

  /** The merge mentions the saved expression and numbers exactly where the first version does. */
  lemma {:induction false} MergeMentions(e1: Expr, e2: Expr, e3: Expr, saved: Expr, v: Triple)
    requires Merge(e1, e2, e3, saved, v).Some?
    ensures HasSaved(Merge(e1, e2, e3, saved, v).value) <==> Occurs(e1, saved)
    ensures HasNumber(Merge(e1, e2, e3, saved, v).value) <==> NumbersOutside(e1, saved) != []
    decreases e1
  {
    if !(e1 == saved || e2 == saved || e3 == saved) && e1.Bin? {
      MergeMentions(e1.l, e2.l, e3.l, saved, v);
      MergeMentions(e1.r, e2.r, e3.r, saved, v);
    }
  }

  /** There is a compound expression exactly when they merge, the saved expression occurs and a number is
      left outside it. */
  lemma CompoundExact(e1: Expr, e2: Expr, e3: Expr, saved: Expr, v: Triple)
    ensures BuildCompound(e1, e2, e3, saved, v).Some? <==>
            && ShapeOf(e1, saved) == ShapeOf(e2, saved) == ShapeOf(e3, saved)
            && AllFit(NumbersOutside(e1, saved), NumbersOutside(e2, saved), NumbersOutside(e3, saved), v)
            && Occurs(e1, saved) && NumbersOutside(e1, saved) != []
  {
    MergeExact(e1, e2, e3, saved, v);
    if Merge(e1, e2, e3, saved, v).Some? {
      MergeMentions(e1, e2, e3, saved, v);
    }
  }

  /** No decimal form was printed. */
  predicate IntegerForm(c: CExpr) {
    match c
    case Tuned(f) => f.Integral?
    case COp(_, l, r) => IntegerForm(l) && IntegerForm(r)
    case _ => true
  }

  /** The value of the template in w-bit arithmetic. */
  function EvalTemplate(w: nat, c: CExpr, saved: nat, val: int, env: nat -> nat): nat
    requires IntegerForm(c)
  {
    match c
    case Saved => Low(w, saved)
    case CName(k) => Low(w, env(k))
    case Literal(n) => Low(w, n)
    case Tuned(f) => Low(w, f.p * val + f.q)
    case COp(op, l, r) => EvalOp(w, op, EvalTemplate(w, l, saved, val, env), EvalTemplate(w, r, saved, val, env))
  }

  // ---------------------------------------------------------------- the substitution is correct

  /** The i-th of three. */
  function Pick<T>(i: nat, x1: T, x2: T, x3: T): T {
    if i == 1 then x1 else if i == 2 then x2 else x3
  }

  /** The expression is the template with the saved expression and the numbers for `val` put in. */
  predicate IsInstance(c: CExpr, saved: Expr, val: int, e: Expr)
    requires IntegerForm(c)
  {
    match c
    case Saved => e == saved
    case CName(k) => e == Name(k)
    case Literal(n) => e == Num(n)
    case Tuned(f) => e.Num? && e.n == f.p * val + f.q
    case COp(op, l, r) => e.Bin? && e.op == op && IsInstance(l, saved, val, e.l) && IsInstance(r, saved, val, e.r)
  }

  lemma NumberCorrect(n: Triple, v: Triple, i: nat)
    requires Spaced(v) && BuildNumber(n, v).Some? && IntegerForm(BuildNumber(n, v).value) && 1 <= i <= 3
    ensures var c := BuildNumber(n, v).value;
            && (c.Literal? ==> c.n == Pick(i, n.x1, n.x2, n.x3))
            && (c.Tuned? ==> c.f.p * Pick(i, v.x1, v.x2, v.x3) + c.f.q == Pick(i, n.x1, n.x2, n.x3))
            && (c.Literal? || c.Tuned?)
  {
    if !(n.x1 == n.x2 == n.x3) {
      IntegralIsExact(v, n);
    }
  }

  /** Merging and putting the i-th numbers back gives the i-th expression. */
  lemma {:induction false} MergeInstance(e1: Expr, e2: Expr, e3: Expr, saved: Expr, v: Triple, i: nat)
    requires Spaced(v) && 1 <= i <= 3
    requires Merge(e1, e2, e3, saved, v).Some? && IntegerForm(Merge(e1, e2, e3, saved, v).value)
    ensures IsInstance(Merge(e1, e2, e3, saved, v).value, saved, Pick(i, v.x1, v.x2, v.x3), Pick(i, e1, e2, e3))
    decreases e1
  {
    if !(e1 == saved || e2 == saved || e3 == saved) {
      match (e1, e2, e3)
      case (Num(n1), Num(n2), Num(n3)) => NumberCorrect(Triple(n1, n2, n3), v, i);
      case (Bin(op1, l1, r1), Bin(op2, l2, r2), Bin(op3, l3, r3)) =>
        MergeInstance(l1, l2, l3, saved, v, i);
        MergeInstance(r1, r2, r3, saved, v, i);
      case (_, _, _) =>
    }
  }

  /** The template with the saved expression's value and `val` has the value of its instance. */
  lemma {:induction false} InstanceValue(w: nat, c: CExpr, saved: Expr, val: int, e: Expr, env: nat -> nat)
    requires IntegerForm(c) && IsInstance(c, saved, val, e)
    ensures EvalTemplate(w, c, Eval(w, saved, env), val, env) == Eval(w, e, env)
    decreases c
  {
    match c
    case Saved => EvalIsLow(w, saved, env);
    case COp(_, l, r) =>
      InstanceValue(w, l, saved, val, e.l, env);
      InstanceValue(w, r, saved, val, e.r, env);
    case _ =>
  }

  /** The compound expression, with the saved expression's value for `*saved` and the i-th source value
      for `val`, has the value of the i-th expression, in every environment. */
  lemma MergeCorrect(w: nat, e1: Expr, e2: Expr, e3: Expr, saved: Expr, v: Triple, i: nat, env: nat -> nat)
    requires Spaced(v) && 1 <= i <= 3
    requires Merge(e1, e2, e3, saved, v).Some? && IntegerForm(Merge(e1, e2, e3, saved, v).value)
    ensures EvalTemplate(w, Merge(e1, e2, e3, saved, v).value, Eval(w, saved, env), Pick(i, v.x1, v.x2, v.x3), env)
            == Eval(w, Pick(i, e1, e2, e3), env)
  {
    MergeInstance(e1, e2, e3, saved, v, i);
    InstanceValue(w, Merge(e1, e2, e3, saved, v).value, saved, Pick(i, v.x1, v.x2, v.x3), Pick(i, e1, e2, e3), env);
  }

  lemma OpBound(w: nat, op: BinOp, a: nat, b: nat)
    requires a < Pow2(w) && b < Pow2(w)
    ensures EvalOp(w, op, a, b) < Pow2(w)
  {
    match op
    case Conj => BitwiseBound(BitAnd, a, b, w);
    case Disj => BitwiseBound(BitOr, a, b, w);
    case Excl => BitwiseBound(BitXor, a, b, w);
    case Quot =>
      if b > 0 {
        DivLess(a, b);
      }
    case ShiftR => DivLess(a, Pow2(b));
    case _ =>
  }

  lemma {:induction false} EvalIsLow(w: nat, e: Expr, env: nat -> nat)
    ensures Eval(w, e, env) < Pow2(w) && Low(w, Eval(w, e, env)) == Eval(w, e, env)
    decreases e
  {
    if e.Bin? {
      EvalIsLow(w, e.l, env);
      EvalIsLow(w, e.r, env);
      OpBound(w, e.op, Eval(w, e.l, env), Eval(w, e.r, env));
    }
    LowSmall(w, Eval(w, e, env));
  }

  // ---------------------------------------------------------------- the value of the C expression

  /** No register but the saved one is mentioned: otherwise the text is not C. */
  predicate Closed(c: CExpr) {
    match c
    case CName(_) => false
    case COp(_, l, r) => Closed(l) && Closed(r)
    case _ => true
  }

  /** C evaluates in 64 bits; a formula is evaluated in 64 bits and then cast to w bits. */
  function EvalC(w: nat, c: CExpr, saved: nat, val: int): nat
    requires IntegerForm(c) && Closed(c)
  {
    match c
    case Saved => Low(64, saved)
    case Literal(n) => Low(64, n)
    case Tuned(f) => Low(w, Low(64, f.p * val + f.q))
    case COp(op, l, r) => EvalOp(64, op, EvalC(w, l, saved, val), EvalC(w, r, saved, val))
  }

  /** The 64-bit value is the w-bit value, not only congruent to it: always at 64 bits, and at 32 bits if
      no operation can carry out of the word.  `clear` says that the saved register has no bits above. */
  predicate Fits(w: nat, c: CExpr, clear: bool) {
    w == 64 ||
    match c
    case Saved => clear
    case Literal(n) => n < Pow2(w)
    case Tuned(_) => true
    case CName(_) => false
    case COp(op, l, r) => op in {Conj, Disj, Excl, ShiftR, Quot} && Fits(w, l, clear) && Fits(w, r, clear)
  }

  /** Right shifts, divisions and shift counts are applied to fitting values only. */
  predicate CarrySafe(w: nat, c: CExpr, clear: bool) {
    Fits(w, c, clear) ||
    match c
    case Saved => true
    case Literal(_) => true
    case COp(op, l, r) =>
      if op in {ShiftR, Quot} then Fits(w, l, clear) && Fits(w, r, clear)
      else if op == ShiftL then CarrySafe(w, l, clear) && Fits(w, r, clear)
      else CarrySafe(w, l, clear) && CarrySafe(w, r, clear)
    case _ => false
  }

  lemma FitsOp(w: nat, op: BinOp, a: nat, b: nat)
    requires w == 64 || op in {Conj, Disj, Excl, ShiftR, Quot}
    ensures EvalOp(64, op, a, b) == EvalOp(w, op, a, b)
  {
  }

  lemma {:induction false} FitsValue(w: nat, c: CExpr, saved: nat, val: int, env: nat -> nat)
    requires 0 < w <= 64 && IntegerForm(c) && Closed(c) && Fits(w, c, saved < Pow2(w))
    ensures EvalC(w, c, saved, val) == EvalTemplate(w, c, saved, val, env) < Pow2(w)
    decreases c
  {
    Pow2Monotone(w, 64);
    match c
    case Saved =>
      if w < 64 {
        LowSmall(64, saved);
        LowSmall(w, saved);
      }
    case Literal(n) =>
      if w < 64 {
        LowSmall(64, n);
        LowSmall(w, n);
      }
    case Tuned(f) => ModPow2(f.p * val + f.q, w, 64);
    case COp(op, l, r) =>
      FitsValue(w, l, saved, val, env);
      FitsValue(w, r, saved, val, env);
      OpBound(w, op, EvalC(w, l, saved, val), EvalC(w, r, saved, val));
      FitsOp(w, op, EvalC(w, l, saved, val), EvalC(w, r, saved, val));
  }

  /** Operations that respect congruence modulo 2^w. */
  lemma OpMod(w: nat, op: BinOp, a: nat, b: nat)
    requires 0 < w <= 64 && op in {Plus, Minus, Times, Conj, Disj, Excl}
    ensures Low(w, EvalOp(64, op, a, b)) == EvalOp(w, op, Low(w, a), Low(w, b))
  {
    match op
    case Plus =>
      ModPow2(a + b, w, 64);
      AddMod(a, b, Pow2(w));
    case Minus =>
      ModPow2(a - b, w, 64);
      AddMod(a, b, Pow2(w));
    case Times =>
      ModPow2(a * b, w, 64);
      MulMod(a, b, Pow2(w));
    case Conj => BitwiseMod(BitAnd, a, b, w);
    case Disj => BitwiseMod(BitOr, a, b, w);
    case Excl => BitwiseMod(BitXor, a, b, w);
    case _ =>
  }

  lemma ShiftMod(w: nat, a: nat, count: nat)
    requires 0 < w <= 64
    ensures Low(w, EvalOp(64, ShiftL, a, count)) == EvalOp(w, ShiftL, Low(w, a), count)
  {
    ModPow2(a * Pow2(count), w, 64);
    MulMod(a, Pow2(count), Pow2(w));
    MulMod(Low(w, a), Pow2(count), Pow2(w));
    LowLow(w, a);
  }

  lemma {:induction false} Pow2Sum(a: nat, b: nat)
    ensures Pow2(a + b) == Pow2(a) * Pow2(b)
  {
    if a > 0 {
      Pow2Sum(a - 1, b);
    }
  }
}
