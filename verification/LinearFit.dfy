/** Recovery of `IV = a * V + b` from three observations: `find_linear_relationship` and `build_expr` of
    src/codegen.py, with the floating-point arithmetic taken as exact. */
module LinearFit {
  import opened Wrappers

  datatype Line = Line(a: real, b: real)

  /** The C expression: with integer coefficients, or the decimal form printed otherwise. */
  datatype Formula = Integral(p: int, q: int) | Decimal(a: real, b: real)

  datatype Triple = Triple(x1: int, x2: int, x3: int)

  function Abs(x: real): real {
    if x < 0.0 then -x else x
  }

  /** Python's int(): toward zero. */
  function Trunc(x: real): int {
    if x >= 0.0 then x.Floor else -((-x).Floor)
  }

  /** The line through the first two points. */
  function Candidate(v: Triple, iv: Triple): Line
    requires v.x1 != v.x2
  {
    var a := (iv.x2 - iv.x1) as real / (v.x2 - v.x1) as real;
    Line(a, iv.x1 as real - a * v.x1 as real)
  }

  /** How far a line passes from a point. */
  function Miss(line: Line, x: int, y: int): real {
    line.a * x as real + line.b - y as real
  }

  function FindLinear(v: Triple, iv: Triple): Option<Line> {
    if v.x2 == v.x1 then None
    else
      var line := Candidate(v, iv);
      if Abs(Miss(line, v.x3, iv.x3)) < 0.001 then Some(line) else None
  }

  function BuildExpr(line: Line): Formula {
    if Abs(line.a - Trunc(line.a) as real) < 0.001 && Abs(line.b - Trunc(line.b) as real) < 0.001
    then Integral(Trunc(line.a), Trunc(line.b))
    else Decimal(line.a, line.b)
  }

  // ---------------------------------------------------------------- what the tolerances decide

  /** Zero exactly when the three points lie on one line. */
  function Cross(v: Triple, iv: Triple): int {
    (iv.x2 - iv.x1) * (v.x3 - v.x1) - (iv.x3 - iv.x1) * (v.x2 - v.x1)
  }

  lemma AbsTimes(x: real, d: real)
    ensures Abs(x) * Abs(d) == Abs(x * d)
  {
    if x >= 0.0 && d >= 0.0 {
      assert x * d >= 0.0;
    } else if x < 0.0 && d < 0.0 {
      assert (-x) * (-d) == x * d && (-x) * (-d) >= 0.0;
    } else if x < 0.0 {
      assert (-x) * d == -(x * d) && (-x) * d >= 0.0;
    } else {
      assert x * (-d) == -(x * d) && x * (-d) >= 0.0;
    }
  }

  lemma ProductSign(x: real, y: real)
    requires x >= 0.0 && y > 0.0
    ensures x * y >= 0.0 && (x > 0.0 ==> x * y > 0.0)
  {
  }

  lemma CancelZero(x: real, d: real)
    requires x * d == 0.0 && d != 0.0
    ensures x == 0.0
  {
  }

  lemma Distribute(y: real, m: real)
    ensures (0.001 - y) * m == 0.001 * m - y * m && (y - 0.001) * m == y * m - 0.001 * m
  {
  }

  lemma ScaledBelow(y: real, m: real, z: real)
    requires m > 0.0 && y * m == z
    ensures y < 0.001 <==> 1000.0 * z < m
  {
    Distribute(y, m);
    if y < 0.001 {
      ProductSign(0.001 - y, m);
    } else {
      ProductSign(y - 0.001, m);
    }
  }

  /** x = n / d is within the tolerance exactly when 1000 |n| < |d|. */
  lemma Tolerance(x: real, n: int, d: int)
    requires d != 0 && x * d as real == n as real
    ensures Abs(x) < 0.001 <==> 1000.0 * Abs(n as real) < Abs(d as real)
  {
    AbsTimes(x, d as real);
    ScaledBelow(Abs(x), Abs(d as real), Abs(n as real));
  }

  lemma SmallIsZero(x: real, n: int, d: int)
    requires d != 0 && -1000 <= d <= 1000 && x * d as real == n as real
    ensures Abs(x) < 0.001 <==> n == 0
  {
    Tolerance(x, n, d);
  }

  lemma Slope(v: Triple, iv: Triple)
    requires v.x1 != v.x2
    ensures Candidate(v, iv).a * (v.x2 - v.x1) as real == (iv.x2 - iv.x1) as real
    ensures Candidate(v, iv).b == iv.x1 as real - Candidate(v, iv).a * v.x1 as real
  {
  }

  lemma Residual(line: Line, v: Triple, iv: Triple)
    requires line.a * (v.x2 - v.x1) as real == (iv.x2 - iv.x1) as real && line.b == iv.x1 as real - line.a * v.x1 as real
    ensures Miss(line, v.x3, iv.x3) * (v.x2 - v.x1) as real == Cross(v, iv) as real
  {
    var d, s, t := (v.x2 - v.x1) as real, (v.x3 - v.x1) as real, (iv.x3 - iv.x1) as real;
    assert Miss(line, v.x3, iv.x3) == line.a * s - t;
    calc {
      (line.a * s - t) * d;
      (line.a * d) * s - t * d;
      (iv.x2 - iv.x1) as real * s - t * d;
    }
    assert (iv.x2 - iv.x1) as real * s == ((iv.x2 - iv.x1) * (v.x3 - v.x1)) as real;
    assert t * d == ((iv.x3 - iv.x1) * (v.x2 - v.x1)) as real;
  }

  /** What the collinearity test decides for any spacing of the observations. */
  lemma LineFound(v: Triple, iv: Triple)
    requires v.x1 != v.x2
    ensures FindLinear(v, iv).Some? <==>
            1000.0 * Abs(Cross(v, iv) as real) < Abs((v.x2 - v.x1) as real)
  {
    var line := Candidate(v, iv);
    Slope(v, iv);
    Residual(line, v, iv);
    Tolerance(Miss(line, v.x3, iv.x3), Cross(v, iv), v.x2 - v.x1);
  }

  ghost predicate Spaced(v: Triple) {
    v.x1 != v.x2 && -1000 <= v.x2 - v.x1 <= 1000
  }

  /** p and q are integer coefficients of a line through the three points. */
  ghost predicate Through(v: Triple, iv: Triple, p: int, q: int) {
    p * v.x1 + q == iv.x1 && p * v.x2 + q == iv.x2 && p * v.x3 + q == iv.x3
  }

  /** Within the spacing a line is returned exactly when the three points are collinear. */
  lemma LineIsExact(v: Triple, iv: Triple)
    requires Spaced(v)
    ensures FindLinear(v, iv).Some? <==> Cross(v, iv) == 0
  {
    LineFound(v, iv);
  }

  /** Three points off any common line that are accepted at every wider spacing. */
  lemma WideSpacingIsLoose(x1: int, x2: int)
    requires x2 - x1 > 1000 || x1 - x2 > 1000
    ensures var v, iv := Triple(x1, x2, x1 + 1), Triple(0, 1, 0); FindLinear(v, iv).Some? && Cross(v, iv) != 0
  {
    LineFound(Triple(x1, x2, x1 + 1), Triple(0, 1, 0));
  }

  /** The tolerance accepts exactly the collinear points, whatever the third observation and the values,
      exactly when the first two observations are at most 1000 apart. */
  lemma SpacingExact(x1: int, x2: int)
    requires x1 != x2
    ensures (forall x3, iv :: FindLinear(Triple(x1, x2, x3), iv).Some? <==> Cross(Triple(x1, x2, x3), iv) == 0)
            <==> -1000 <= x2 - x1 <= 1000
  {
    if -1000 <= x2 - x1 <= 1000 {
      forall x3, iv
        ensures FindLinear(Triple(x1, x2, x3), iv).Some? <==> Cross(Triple(x1, x2, x3), iv) == 0
      {
        LineIsExact(Triple(x1, x2, x3), iv);
      }
    } else {
      WideSpacingIsLoose(x1, x2);
    }
  }

  /** The truncation test accepts a quotient n / d exactly when it is an integer. */
  lemma TruncIsExact(x: real, n: int, d: int)
    requires d != 0 && -1000 <= d <= 1000 && x * d as real == n as real
    ensures Abs(x - Trunc(x) as real) < 0.001 <==> x == Trunc(x) as real
  {
    var t := Trunc(x);
    var rest := n - t * d;
    assert (x - t as real) * d as real == rest as real by {
      assert t as real * d as real == (t * d) as real;
    }
    SmallIsZero(x - t as real, rest, d);
    if rest == 0 {
      assert (x - t as real) * d as real == 0.0;
      CancelZero(x - t as real, d as real);
    }
  }

  lemma TruncOfInteger(n: int)
    ensures Trunc(n as real) == n
  {
  }

  /** The fitted line, both coefficients scaled by the spacing to integers. */
  lemma Scaled(v: Triple, iv: Triple)
    requires Spaced(v) && FindLinear(v, iv).Some?
    ensures var line, d := FindLinear(v, iv).value, v.x2 - v.x1;
            && line.a * d as real == (iv.x2 - iv.x1) as real
            && line.b == iv.x1 as real - line.a * v.x1 as real
            && line.b * d as real == (iv.x1 * d - (iv.x2 - iv.x1) * v.x1) as real
  {
    var line, d := FindLinear(v, iv).value, v.x2 - v.x1;
    Slope(v, iv);
    calc {
      line.b * d as real;
      iv.x1 as real * d as real - (line.a * d as real) * v.x1 as real;
      iv.x1 as real * d as real - (iv.x2 - iv.x1) as real * v.x1 as real;
    }
    assert iv.x1 as real * d as real == (iv.x1 * d) as real;
    assert (iv.x2 - iv.x1) as real * v.x1 as real == ((iv.x2 - iv.x1) * v.x1) as real;
  }

  lemma IntegralGoesThrough(v: Triple, iv: Triple)
    requires Spaced(v) && FindLinear(v, iv).Some? && BuildExpr(FindLinear(v, iv).value).Integral?
    ensures var f := BuildExpr(FindLinear(v, iv).value); Through(v, iv, f.p, f.q)
  {
    var line, d := FindLinear(v, iv).value, v.x2 - v.x1;
    var f := BuildExpr(line);
    Scaled(v, iv);
    LineIsExact(v, iv);
    TruncIsExact(line.a, iv.x2 - iv.x1, d);
    TruncIsExact(line.b, iv.x1 * d - (iv.x2 - iv.x1) * v.x1, d);
    assert f.p as real * d as real == (f.p * d) as real;
    assert f.p as real * v.x1 as real == (f.p * v.x1) as real;
    ThirdPoint(v, iv, f.p, f.q);
  }

  lemma ThroughIsFitted(v: Triple, iv: Triple, p: int, q: int)
    requires Spaced(v) && FindLinear(v, iv).Some? && Through(v, iv, p, q)
    ensures FindLinear(v, iv).value == Line(p as real, q as real)
  {
    var line, d := FindLinear(v, iv).value, v.x2 - v.x1;
    Scaled(v, iv);
    assert p * d == iv.x2 - iv.x1;
    assert p as real * d as real == (p * d) as real;
    assert (line.a - p as real) * d as real == 0.0;
    CancelZero(line.a - p as real, d as real);
    assert p as real * v.x1 as real == (p * v.x1) as real;
  }

  function OnLine(v: Triple, p: int, q: int): Triple {
    Triple(p * v.x1 + q, p * v.x2 + q, p * v.x3 + q)
  }

  lemma OnLineCross(v: Triple, p: int, q: int)
    ensures Cross(v, OnLine(v, p, q)) == 0 && OnLine(v, p, q).x2 - OnLine(v, p, q).x1 == p * (v.x2 - v.x1)
  {
    assert p * v.x2 + q - (p * v.x1 + q) == p * (v.x2 - v.x1) && p * v.x3 + q - (p * v.x1 + q) == p * (v.x3 - v.x1);
    assert (p * (v.x2 - v.x1)) * (v.x3 - v.x1) == (p * (v.x3 - v.x1)) * (v.x2 - v.x1);
  }

  lemma SlopeOf(n: int, p: int, d: int)
    requires d != 0 && n == p * d
    ensures n as real / d as real == p as real
  {
    var a := n as real / d as real;
    assert a * d as real == n as real;
    assert p as real * d as real == (p * d) as real;
    assert (a - p as real) * d as real == 0.0;
    CancelZero(a - p as real, d as real);
  }

  /** Points on a line with integer coefficients are fitted by that line, at any spacing. */
  lemma OnLineIsFitted(v: Triple, p: int, q: int)
    requires v.x1 != v.x2
    ensures FindLinear(v, OnLine(v, p, q)) == Some(Line(p as real, q as real))
    ensures BuildExpr(Line(p as real, q as real)) == Integral(p, q)
  {
    var iv := OnLine(v, p, q);
    OnLineCross(v, p, q);
    LineFound(v, iv);
    var line := FindLinear(v, iv).value;
    SlopeOf(iv.x2 - iv.x1, p, v.x2 - v.x1);
    assert line.a == p as real;
    assert iv.x1 as real == (p * v.x1) as real + q as real;
    assert p as real * v.x1 as real == (p * v.x1) as real;
    assert line.b == q as real;
    TruncOfInteger(p);
    TruncOfInteger(q);
  }

  /** Within the spacing the integer form is printed exactly when some line with integer coefficients goes
      through the three points, and it is that line. */
  lemma IntegralIsExact(v: Triple, iv: Triple)
    requires Spaced(v) && FindLinear(v, iv).Some?
    ensures var f := BuildExpr(FindLinear(v, iv).value);
            && (f.Integral? <==> exists p, q :: Through(v, iv, p, q))
            && (f.Integral? ==> Through(v, iv, f.p, f.q))
  {
    var f := BuildExpr(FindLinear(v, iv).value);
    if f.Integral? {
      IntegralGoesThrough(v, iv);
    }
    if p, q :| Through(v, iv, p, q) {
      ThroughIsFitted(v, iv, p, q);
      TruncOfInteger(p);
      TruncOfInteger(q);
    }
  }

  /** The decimal form is the line through the first two points, and passes near the third. */
  lemma DecimalIsTheLine(v: Triple, iv: Triple)
    requires FindLinear(v, iv).Some? && BuildExpr(FindLinear(v, iv).value).Decimal?
    ensures var f := BuildExpr(FindLinear(v, iv).value);
            && f.a * v.x1 as real + f.b == iv.x1 as real && f.a * v.x2 as real + f.b == iv.x2 as real
            && -0.001 < f.a * v.x3 as real + f.b - iv.x3 as real < 0.001
  {
    var line := FindLinear(v, iv).value;
    Slope(v, iv);
    Spread(line.a, v.x1 as real, v.x2 as real);
    assert (v.x2 - v.x1) as real == v.x2 as real - v.x1 as real;
    assert BuildExpr(line) == Decimal(line.a, line.b);
    assert Abs(Miss(line, v.x3, iv.x3)) < 0.001;
  }

  lemma Spread(a: real, x: real, y: real)
    ensures a * (y - x) == a * y - a * x
  {
  }

  lemma ThirdPoint(v: Triple, iv: Triple, p: int, q: int)
    requires v.x1 != v.x2 && Cross(v, iv) == 0
    requires p * (v.x2 - v.x1) == iv.x2 - iv.x1 && p * v.x1 + q == iv.x1
    ensures Through(v, iv, p, q)
  {
    var d, s := v.x2 - v.x1, v.x3 - v.x1;
    calc {
      d * (p * s - (iv.x3 - iv.x1));
      (p * d) * s - (iv.x3 - iv.x1) * d;
      0;
    }
    assert p * s - (iv.x3 - iv.x1) == 0;
    assert p * v.x3 == p * v.x1 + p * s;
    assert p * v.x2 == p * v.x1 + p * d;
  }
}
