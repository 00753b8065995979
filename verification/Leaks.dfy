/** When the printed C expression, evaluated in 64 bits, gives the low w bits that the instructions leave.
    Only a right shift can tell the difference: the bits that it brings down are those that the w-bit
    instructions have dropped, carries out of the word or the upper half of the saved register. */
module Leaks {
  import opened Words
  import opened Machine
  import opened SymExec
  import opened SymSound
  import opened Compound

  // ---------------------------------------------------------------- one shift

  /** The n bits above the word are zero. */
  ghost predicate Clean(w: nat, x: nat, n: nat) {
    (x / Pow2(w)) % Pow2(n) == 0
  }

  lemma RowsApart(z: nat, k: nat, m: nat)
    requires z >= k
    ensures z * m >= k * m
  {
    assert z * m == k * m + (z - k) * m;
  }

  /** Dividing a number q * (k * m) + y by m. */
  lemma DivideRows(x: nat, q: nat, k: nat, m: nat, y: nat)
    requires m > 0 && x == q * (k * m) + y && y < k * m
    ensures x / m == q * k + y / m && y / m < k
  {
    var z, rest := y / m, y % m;
    assert y == z * m + rest;
    if z >= k {
      RowsApart(z, k, m);
    }
    assert q * (k * m) == (q * k) * m;
    assert (q * k + z) * m == (q * k) * m + z * m;
    DivModUnique(x, m, q * k + z, rest);
  }

  /** What is left of q * k + z in a word of k * m. */
  lemma WordOfRows(q: nat, k: nat, m: nat, z: nat)
    requires m > 0 && z < k
    ensures k * m > 0 && (q * k + z) % (k * m) == (q % m) * k + z
  {
    var q1, q0 := q / m, q % m;
    assert q == q1 * m + q0;
    assert (q1 * m + q0) * k == q1 * (k * m) + q0 * k;
    MulGrows(m, k);
    MulGrows(m - q0, k);
    assert (m - q0) * k == k * m - q0 * k;
    DivModUnique(q * k + z, k * m, q1, q0 * k + z);
  }

  lemma RowIsZero(q0: nat, k: nat)
    requires k > 0
    ensures q0 * k == 0 <==> q0 == 0
  {
    if q0 > 0 {
      MulGrows(q0, k);
    }
  }

  lemma DivideWord(x: nat, k: nat, m: nat)
    requires k > 0 && m > 0
    ensures k * m > 0
    ensures (x / m) % (k * m) == (x % (k * m)) / m <==> (x / (k * m)) % m == 0
  {
    MulGrows(k, m);
    var q, y: nat := x / (k * m), x % (k * m);
    assert x == q * (k * m) + y;
    DivideRows(x, q, k, m, y);
    WordOfRows(q, k, m, y / m);
    RowIsZero(q % m, k);
  }

  /** Shifting and truncating commute exactly when the bits shifted into the word are zero. */
  lemma ShiftExact(w: nat, x: nat, n: nat)
    requires n <= w
    ensures Low(w, Quotient(x, Pow2(n))) == Quotient(Low(w, x), Pow2(n)) <==> Clean(w, x, n)
  {
    Pow2Sum(w - n, n);
    DivideWord(x, Pow2(w - n), Pow2(n));
  }

  lemma DivideFar(x: nat, q: nat, word: nat, far: nat, y: nat)
    requires 0 < word <= far && x == q * word + y && y < word && q % far == 0
    ensures (x / far) % word == 0 && y / far == 0
  {
    var q1 := q / far;
    assert q == q1 * far;
    assert (q1 * far) * word == (q1 * word) * far;
    DivModUnique(x, far, q1 * word, y);
    DivModUnique(y, far, 0, y);
    DivModUnique(q1 * word, word, q1, 0);
  }

  lemma FarWord(x: nat, word: nat, far: nat)
    requires 0 < word <= far && (x / word) % far == 0
    ensures (x / far) % word == (x % word) / far
  {
    assert x == x / word * word + x % word;
    DivideFar(x, x / word, word, far, x % word);
  }

  /** A longer shift leaves nothing of the word. */
  lemma LongShift(w: nat, x: nat, n: nat)
    requires n > w && Clean(w, x, n)
    ensures Low(w, Quotient(x, Pow2(n))) == Quotient(Low(w, x), Pow2(n))
  {
    Pow2Monotone(w, n);
    FarWord(x, Pow2(w), Pow2(n));
  }

  lemma CleanShift(w: nat, x: nat, n: nat)
    requires Clean(w, x, n)
    ensures Low(w, Quotient(x, Pow2(n))) == Quotient(Low(w, x), Pow2(n))
  {
    if n <= w {
      ShiftExact(w, x, n);
    } else {
      LongShift(w, x, n);
    }
  }

  // ---------------------------------------------------------------- a whole expression

  /** At no right shift do bits come down into the word, and shift counts fit it. */
  ghost predicate NoLeak(w: nat, c: CExpr, saved: nat, val: int)
    requires IntegerForm(c) && Closed(c)
  {
    match c
    case COp(op, l, r) =>
      var x, n := EvalC(w, l, saved, val), EvalC(w, r, saved, val);
      && NoLeak(w, l, saved, val) && NoLeak(w, r, saved, val)
      && (op in {ShiftL, ShiftR, Quot} ==> n < Pow2(w))
      && (op == Quot ==> x < Pow2(w))
      && (op == ShiftR ==> Clean(w, x, n))
    case _ => true
  }

  /** The low w bits of the C value are the template's. */
  ghost predicate Right(w: nat, c: CExpr, saved: nat, val: int, env: nat -> nat)
    requires IntegerForm(c) && Closed(c)
  {
    Low(w, EvalC(w, c, saved, val)) == EvalTemplate(w, c, saved, val, env)
  }

  lemma LeafRight(w: nat, c: CExpr, saved: nat, val: int, env: nat -> nat)
    requires 0 < w <= 64 && IntegerForm(c) && Closed(c) && !c.COp?
    ensures Right(w, c, saved, val, env)
  {
    match c
    case Saved => ModPow2(saved, w, 64);
    case Literal(n) => ModPow2(n, w, 64);
    case Tuned(f) =>
      ModPow2(f.p * val + f.q, w, 64);
      LowLow(w, f.p * val + f.q);
  }

  /** An operation on values of which the low bits are x's and n's. */
  lemma OpRight(w: nat, op: BinOp, x: nat, n: nat)
    requires 0 < w <= 64
    requires op in {ShiftL, ShiftR, Quot} ==> n < Pow2(w)
    requires op == Quot ==> x < Pow2(w)
    requires op == ShiftR ==> Clean(w, x, n)
    ensures Low(w, EvalOp(64, op, x, n)) == EvalOp(w, op, Low(w, x), Low(w, n))
  {
    if op in {ShiftL, ShiftR, Quot} {
      LowSmall(w, n);
    }
    match op
    case ShiftL => ShiftMod(w, x, n);
    case ShiftR => CleanShift(w, x, n);
    case Quot =>
      LowSmall(w, x);
      OpBound(w, Quot, x, n);
      LowSmall(w, Quotient(x, n));
    case _ => OpMod(w, op, x, n);
  }

  /** Without a leak the C value is right. */
  lemma {:induction false} NoLeakIsRight(w: nat, c: CExpr, saved: nat, val: int, env: nat -> nat)
    requires 0 < w <= 64 && IntegerForm(c) && Closed(c) && NoLeak(w, c, saved, val)
    ensures Right(w, c, saved, val, env)
    decreases c
  {
    match c
    case COp(op, l, r) =>
      NoLeakIsRight(w, l, saved, val, env);
      NoLeakIsRight(w, r, saved, val, env);
      OpRight(w, op, EvalC(w, l, saved, val), EvalC(w, r, saved, val));
    case _ => LeafRight(w, c, saved, val, env);
  }

  // ---------------------------------------------------------------- when a leak shows

  lemma {:induction false} XorCancels(a: nat, b: nat, t: nat)
    requires Bitwise(BitXor, a, t) == Bitwise(BitXor, b, t)
    ensures a == b
    decreases a + b
  {
    if a != 0 || b != 0 {
      BitwiseStep(BitXor, a, t);
      BitwiseStep(BitXor, b, t);
      XorCancels(a / 2, b / 2, t / 2);
    }
  }

  lemma SameResidue(x: int, y: int, m: nat)
    requires m > 0 && x % m == y % m && x - y < m && y - x < m
    ensures x == y
  {
    var d := x / m - y / m;
    assert x - y == d * m by {
      assert x == x / m * m + x % m && y == y / m * m + y % m;
      assert (x / m - y / m) * m == x / m * m - y / m * m;
    }
    SmallMultiple(d, m);
  }

  /** Sums, differences and exclusive ors hide nothing of either operand. */
  predicate Transparent(op: BinOp) { op in {Plus, Minus, Excl} }

  lemma LeftShows(w: nat, op: BinOp, a: nat, b: nat, t: nat)
    requires Transparent(op) && a < Pow2(w) && b < Pow2(w) && EvalOp(w, op, a, t) == EvalOp(w, op, b, t)
    ensures a == b
  {
    match op
    case Plus => SameResidue(a + t, b + t, Pow2(w));
    case Minus => SameResidue(a - t, b - t, Pow2(w));
    case Excl => XorCancels(a, b, t);
  }

  lemma {:induction false} XorSwaps(a: nat, b: nat)
    ensures Bitwise(BitXor, a, b) == Bitwise(BitXor, b, a)
    decreases a + b
  {
    if a != 0 || b != 0 {
      XorSwaps(a / 2, b / 2);
    }
  }

  lemma RightShows(w: nat, op: BinOp, t: nat, a: nat, b: nat)
    requires Transparent(op) && a < Pow2(w) && b < Pow2(w) && EvalOp(w, op, t, a) == EvalOp(w, op, t, b)
    ensures a == b
  {
    match op
    case Plus => SameResidue(t + a, t + b, Pow2(w));
    case Minus => SameResidue(t - a, t - b, Pow2(w));
    case Excl =>
      XorSwaps(t, a);
      XorSwaps(t, b);
      XorCancels(a, b, t);
  }

  /** The one right shift that may leak has a count of at most w, and on the way up from it there are
      transparent operations only. */
  ghost predicate LeakShows(w: nat, c: CExpr, saved: nat, val: int)
    requires IntegerForm(c) && Closed(c)
  {
    match c
    case COp(op, l, r) =>
      if op == ShiftR then NoLeak(w, l, saved, val) && NoLeak(w, r, saved, val) && EvalC(w, r, saved, val) <= w
      else Transparent(op) && ((LeakShows(w, l, saved, val) && NoLeak(w, r, saved, val))
                               || (NoLeak(w, l, saved, val) && LeakShows(w, r, saved, val)))
    case _ => false
  }

  lemma {:induction false} TemplateBound(w: nat, c: CExpr, saved: nat, val: int, env: nat -> nat)
    requires IntegerForm(c)
    ensures EvalTemplate(w, c, saved, val, env) < Pow2(w)
    decreases c
  {
    match c
    case COp(op, l, r) =>
      TemplateBound(w, l, saved, val, env);
      TemplateBound(w, r, saved, val, env);
      OpBound(w, op, EvalTemplate(w, l, saved, val, env), EvalTemplate(w, r, saved, val, env));
    case _ =>
  }

  /** A right shift of values that do not leak leaks exactly if it brings bits down. */
  lemma ShiftLeaks(w: nat, l: CExpr, r: CExpr, saved: nat, val: int, x: nat, n: nat)
    requires IntegerForm(l) && Closed(l) && IntegerForm(r) && Closed(r)
    requires NoLeak(w, l, saved, val) && NoLeak(w, r, saved, val)
    requires EvalC(w, l, saved, val) == x && EvalC(w, r, saved, val) == n <= w
    ensures LeakShows(w, COp(ShiftR, l, r), saved, val)
    ensures NoLeak(w, COp(ShiftR, l, r), saved, val) <==> Clean(w, x, n)
  {
    Pow2Large(w);
  }

  lemma ShiftShows(w: nat, l: CExpr, r: CExpr, saved: nat, val: int, env: nat -> nat)
    requires 0 < w <= 64 && IntegerForm(l) && Closed(l) && IntegerForm(r) && Closed(r)
    requires NoLeak(w, l, saved, val) && NoLeak(w, r, saved, val) && EvalC(w, r, saved, val) <= w
    ensures Right(w, COp(ShiftR, l, r), saved, val, env) <==> Clean(w, EvalC(w, l, saved, val), EvalC(w, r, saved, val))
    ensures NoLeak(w, COp(ShiftR, l, r), saved, val) <==> Clean(w, EvalC(w, l, saved, val), EvalC(w, r, saved, val))
  {
    var x, n := EvalC(w, l, saved, val), EvalC(w, r, saved, val);
    NoLeakIsRight(w, l, saved, val, env);
    NoLeakIsRight(w, r, saved, val, env);
    Pow2Large(w);
    LowSmall(w, n);
    ShiftExact(w, x, n);
  }

  lemma OpShows(w: nat, op: BinOp, l: CExpr, r: CExpr, saved: nat, val: int, env: nat -> nat)
    requires 0 < w <= 64 && IntegerForm(l) && Closed(l) && IntegerForm(r) && Closed(r) && Transparent(op)
    requires Right(w, l, saved, val, env) || Right(w, r, saved, val, env)
    ensures Right(w, COp(op, l, r), saved, val, env) <==> Right(w, l, saved, val, env) && Right(w, r, saved, val, env)
  {
    var x, y := EvalC(w, l, saved, val), EvalC(w, r, saved, val);
    var s, t := EvalTemplate(w, l, saved, val, env), EvalTemplate(w, r, saved, val, env);
    TemplateBound(w, l, saved, val, env);
    TemplateBound(w, r, saved, val, env);
    OpMod(w, op, x, y);
    if EvalOp(w, op, Low(w, x), Low(w, y)) == EvalOp(w, op, s, t) {
      if Low(w, y) == t {
        LeftShows(w, op, Low(w, x), s, t);
      } else {
        RightShows(w, op, s, Low(w, y), t);
      }
    }
  }

  /** Where a leak shows, the C value is right exactly when there is none. */
  lemma {:induction false} LeakExact(w: nat, c: CExpr, saved: nat, val: int, env: nat -> nat)
    requires 0 < w <= 64 && IntegerForm(c) && Closed(c) && LeakShows(w, c, saved, val)
    ensures Right(w, c, saved, val, env) <==> NoLeak(w, c, saved, val)
    decreases c
  {
    match c
    case COp(op, l, r) =>
      if op == ShiftR {
        ShiftShows(w, l, r, saved, val, env);
      } else if LeakShows(w, l, saved, val) && NoLeak(w, r, saved, val) {
        LeakExact(w, l, saved, val, env);
        NoLeakIsRight(w, r, saved, val, env);
        OpShows(w, op, l, r, saved, val, env);
      } else {
        LeakExact(w, r, saved, val, env);
        NoLeakIsRight(w, l, saved, val, env);
        OpShows(w, op, l, r, saved, val, env);
      }
  }

  // ---------------------------------------------------------------- forms that never leak

  lemma SmallIsClean(w: nat, x: nat, n: nat)
    requires x < Pow2(w)
    ensures Clean(w, x, n)
  {
    DivModUnique(x, Pow2(w), 0, x);
    DivModUnique(0, Pow2(n), 0, 0);
  }

  /** An expression in which right shifts, divisions and shift counts see fitting values only leaks at no
      value. */
  lemma {:induction false} FormSuffices(w: nat, c: CExpr, saved: nat, val: int, env: nat -> nat)
    requires 0 < w <= 64 && IntegerForm(c) && Closed(c) && CarrySafe(w, c, saved < Pow2(w))
    ensures NoLeak(w, c, saved, val)
    decreases c
  {
    match c
    case COp(op, l, r) =>
      FormSuffices(w, l, saved, val, env);
      FormSuffices(w, r, saved, val, env);
      if op in {ShiftL, ShiftR, Quot} {
        FitsValue(w, r, saved, val, env);
        if op != ShiftL {
          FitsValue(w, l, saved, val, env);
          SmallIsClean(w, EvalC(w, l, saved, val), EvalC(w, r, saved, val));
        }
      }
    case _ =>
  }
}
