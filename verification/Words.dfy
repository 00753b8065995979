/** Machine words as natural numbers: powers of two, wrapping and bitwise operations at any width. */
module Words {
  function Pow2(n: nat): (p: nat)
    ensures p > 0
  {
    if n == 0 then 1 else 2 * Pow2(n - 1)
  }

  datatype BitOp = BitAnd | BitOr | BitXor

  function OneBit(op: BitOp, a: nat, b: nat): (r: nat)
    requires a < 2 && b < 2
    ensures r < 2
  {
    match op
    case BitAnd => if a == 1 && b == 1 then 1 else 0
    case BitOr => if a == 1 || b == 1 then 1 else 0
    case BitXor => if a != b then 1 else 0
  }

  /** The bitwise operation on two naturals, bit by bit from the least significant. */
  function Bitwise(op: BitOp, a: nat, b: nat): nat
    decreases a + b
  {
    if a == 0 && b == 0 then 0 else 2 * Bitwise(op, a / 2, b / 2) + OneBit(op, a % 2, b % 2)
  }

  /** Division of naturals, rounding down; by zero it yields zero. */
  function Quotient(a: nat, b: nat): nat {
    if b == 0 then 0 else a / b
  }

  // ---------------------------------------------------------------- division and remainder

  lemma MulGrows(d: int, m: int)
    requires d >= 1 && m >= 0
    ensures d * m >= m
  {
    assert d * m == m + (d - 1) * m;
  }

  lemma SmallMultiple(d: int, m: nat)
    requires d * m < m && -(d * m) < m
    ensures d == 0
  {
    if d > 0 {
      MulGrows(d, m);
    } else if d < 0 {
      MulGrows(-d, m);
    }
  }

  lemma DivModUnique(x: int, m: nat, q: int, r: int)
    requires m > 0 && x == q * m + r && 0 <= r < m
    ensures x / m == q && x % m == r
  {
    var d := q - x / m;
    assert d * m == x % m - r by {
      assert x == x / m * m + x % m;
    }
    SmallMultiple(d, m);
  }

  /** Adding a multiple of the modulus changes nothing. */
  lemma ModPlus(x: int, k: int, m: nat)
    requires m > 0
    ensures (x + k * m) % m == x % m
  {
    assert x + k * m == (x / m + k) * m + x % m;
    DivModUnique(x + k * m, m, x / m + k, x % m);
  }

  /** Two integers that differ by a multiple of the modulus are congruent. */
  lemma ModEqual(x: int, y: int, k: int, m: nat)
    requires m > 0 && x == y + k * m
    ensures x % m == y % m
  {
    ModPlus(y, k, m);
  }

  lemma AddMod(x: int, y: int, m: nat)
    requires m > 0
    ensures (x % m + y % m) % m == (x + y) % m
    ensures (x % m - y % m) % m == (x - y) % m
  {
    assert x + y == (x % m + y % m) + (x / m + y / m) * m;
    ModEqual(x + y, x % m + y % m, x / m + y / m, m);
    assert x - y == (x % m - y % m) + (x / m - y / m) * m;
    ModEqual(x - y, x % m - y % m, x / m - y / m, m);
  }

  lemma MulMod(x: int, y: int, m: nat)
    requires m > 0
    ensures ((x % m) * (y % m)) % m == (x * y) % m
  {
    var a, b, q, s := x % m, y % m, x / m, y / m;
    calc {
      x * y;
      (q * m + a) * (s * m + b);
      a * b + (q * m * s + q * b + a * s) * m;
    }
    ModEqual(x * y, a * b, q * m * s + q * b + a * s, m);
  }

  lemma ModHalf(x: nat, m: nat)
    requires m > 0
    ensures x % (2 * m) == 2 * ((x / 2) % m) + x % 2
    ensures (x % (2 * m)) / 2 == (x / 2) % m && (x % (2 * m)) % 2 == x % 2
  {
    var h := x / 2;
    assert x == 2 * (h / m * m + h % m) + x % 2;
    assert x == (h / m) * (2 * m) + (2 * (h % m) + x % 2);
    DivModUnique(x, 2 * m, h / m, 2 * (h % m) + x % 2);
  }

  /** Wrapping to a narrower power of two after wrapping to a wider one. */
  lemma {:induction false} ModPow2(x: int, n: nat, w: nat)
    requires n <= w
    ensures (x % Pow2(w)) % Pow2(n) == x % Pow2(n)
  {
    var k := Pow2Multiple(n, w);
    assert x == x % Pow2(w) + (x / Pow2(w) * k) * Pow2(n) by {
      assert x == x / Pow2(w) * (k * Pow2(n)) + x % Pow2(w);
    }
    ModEqual(x, x % Pow2(w), x / Pow2(w) * k, Pow2(n));
  }

  lemma {:induction false} Pow2Multiple(n: nat, w: nat) returns (k: nat)
    requires n <= w
    ensures Pow2(w) == k * Pow2(n)
  {
    if n == w {
      k := 1;
    } else {
      var j := Pow2Multiple(n, w - 1);
      k := 2 * j;
    }
  }

  // ---------------------------------------------------------------- bitwise operations

  lemma {:induction false} BitwiseBound(op: BitOp, a: nat, b: nat, n: nat)
    requires a < Pow2(n) && b < Pow2(n)
    ensures Bitwise(op, a, b) < Pow2(n)
    decreases n
  {
    if n > 0 {
      BitwiseBound(op, a / 2, b / 2, n - 1);
    }
  }

  /** The low n bits of the result depend on the low n bits of the operands only. */
  lemma {:induction false} BitwiseMod(op: BitOp, a: nat, b: nat, n: nat)
    ensures Bitwise(op, a, b) % Pow2(n) == Bitwise(op, a % Pow2(n), b % Pow2(n))
    decreases n
  {
    if n > 0 {
      var m := Pow2(n - 1);
      ModHalf(a, m);
      ModHalf(b, m);
      BitwiseMod(op, a / 2, b / 2, n - 1);
      ModHalf(Bitwise(op, a, b), m);
      BitwiseStep(op, a, b);
      BitwiseStep(op, a % Pow2(n), b % Pow2(n));
    }
  }

  lemma BitwiseStep(op: BitOp, a: nat, b: nat)
    ensures Bitwise(op, a, b) == 2 * Bitwise(op, a / 2, b / 2) + OneBit(op, a % 2, b % 2)
    ensures Bitwise(op, a, b) / 2 == Bitwise(op, a / 2, b / 2) && Bitwise(op, a, b) % 2 == OneBit(op, a % 2, b % 2)
  {
  }

  /** The top bit of an (n+1)-bit result. */
  lemma {:induction false} TopBit(op: BitOp, a: nat, b: nat, n: nat)
    requires a < Pow2(n + 1) && b < Pow2(n + 1)
    ensures Bitwise(op, a, b) >= Pow2(n) <==>
            OneBit(op, if a >= Pow2(n) then 1 else 0, if b >= Pow2(n) then 1 else 0) == 1
    decreases n
  {
    BitwiseStep(op, a, b);
    if n == 0 {
      assert a < 2 && b < 2;
      BitwiseStep(op, 0, 0);
    } else {
      TopBit(op, a / 2, b / 2, n - 1);
    }
  }

  lemma {:induction false} AllOnes(a: nat, n: nat)
    requires a < Pow2(n)
    ensures Bitwise(BitAnd, Pow2(n) - 1, a) == a && Bitwise(BitAnd, a, Pow2(n) - 1) == a
    ensures Bitwise(BitOr, Pow2(n) - 1, a) == Pow2(n) - 1 && Bitwise(BitOr, a, Pow2(n) - 1) == Pow2(n) - 1
    decreases n
  {
    if n > 0 {
      AllOnes(a / 2, n - 1);
      assert (Pow2(n) - 1) / 2 == Pow2(n - 1) - 1 && (Pow2(n) - 1) % 2 == 1;
    }
  }

  lemma {:induction false} AndZero(a: nat)
    ensures Bitwise(BitAnd, 0, a) == 0
    decreases a
  {
    if a > 0 {
      AndZero(a / 2);
    }
  }
}
