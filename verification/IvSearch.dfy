/** Finding the instruction value: `extract_varying_constant` and `find_iv_from_symstates` of
    src/codegen.py. */
module IvSearch {
  import opened Wrappers
  import opened SymExec
  import opened LinearFit

  // ---------------------------------------------------------------- the one number that varies

  /** The numbers of an expression, left to right. */
  function Nums(e: Expr): seq<int> {
    match e
    case Name(_) => []
    case Num(n) => [n]
    case Bin(_, l, r) => Nums(l) + Nums(r)
  }

  /** The expression with every number replaced by the same mark. */
  function Template(e: Expr): Expr {
    match e
    case Name(_) => e
    case Num(_) => Num(0)
    case Bin(op, l, r) => Bin(op, Template(l), Template(r))
  }

  predicate Constant(t: Triple) { t.x1 == t.x2 == t.x3 }

  /** The positions where the three lists are not all equal. */
  function Diffs(n1: seq<int>, n2: seq<int>, n3: seq<int>): seq<Triple>
    requires |n1| == |n2| == |n3|
  {
    if n1 == [] then [] else
      var t := Triple(n1[0], n2[0], n3[0]);
      (if Constant(t) then [] else [t]) + Diffs(n1[1..], n2[1..], n3[1..])
  }

  function ExtractVarying(e1: Expr, e2: Expr, e3: Expr): Option<Triple> {
    if e1.Num? && e2.Num? && e3.Num? then Some(Triple(e1.n, e2.n, e3.n))
    else if Template(e1) != Template(e2) || Template(e1) != Template(e3) then None
    else
      var n1, n2, n3 := Nums(e1), Nums(e2), Nums(e3);
      if n1 == [] || |n1| != |n2| || |n1| != |n3| then None
      else
        var diffs := Diffs(n1, n2, n3);
        if |diffs| == 1 then Some(diffs[0]) else None
  }

  /** An expression with a hole where a number goes. */
  datatype Context = Hole | InLeft(op: BinOp, c: Context, r: Expr) | InRight(op: BinOp, l: Expr, c: Context)

  function Fill(c: Context, n: nat): Expr {
    match c
    case Hole => Num(n)
    case InLeft(op, d, r) => Bin(op, Fill(d, n), r)
    case InRight(op, l, d) => Bin(op, l, Fill(d, n))
  }

  predicate IsFilled(c: Context, e1: Expr, e2: Expr, e3: Expr, t: Triple) {
    t.x1 >= 0 && t.x2 >= 0 && t.x3 >= 0 && e1 == Fill(c, t.x1) && e2 == Fill(c, t.x2) && e3 == Fill(c, t.x3)
  }

  /** The three are one context around the numbers of `t`, which are not all equal. */
  ghost predicate VariesOnlyIn(e1: Expr, e2: Expr, e3: Expr, t: Triple) {
    !Constant(t) && exists c :: IsFilled(c, e1, e2, e3, t)
  }

  lemma {:induction false} SameTemplate(a: Expr, b: Expr)
    requires Template(a) == Template(b)
    ensures |Nums(a)| == |Nums(b)| && (Nums(a) == Nums(b) ==> a == b)
    decreases a
  {
    match (a, b)
    case (Bin(_, l, r), Bin(_, l', r')) =>
      SameTemplate(l, l');
      SameTemplate(r, r');
      if Nums(a) == Nums(b) {
        assert Nums(l) == Nums(a)[..|Nums(l)|] && Nums(r) == Nums(a)[|Nums(l)|..];
        assert Nums(l') == Nums(b)[..|Nums(l)|] && Nums(r') == Nums(b)[|Nums(l)|..];
      }
    case (_, _) =>
  }

  lemma {:induction false} DiffsAppend(a1: seq<int>, a2: seq<int>, a3: seq<int>, b1: seq<int>, b2: seq<int>, b3: seq<int>)
    requires |a1| == |a2| == |a3| && |b1| == |b2| == |b3|
    ensures Diffs(a1 + b1, a2 + b2, a3 + b3) == Diffs(a1, a2, a3) + Diffs(b1, b2, b3)
    decreases a1
  {
    if a1 == [] {
      assert a1 + b1 == b1 && a2 + b2 == b2 && a3 + b3 == b3;
    } else {
      assert (a1 + b1)[1..] == a1[1..] + b1 && (a2 + b2)[1..] == a2[1..] + b2 && (a3 + b3)[1..] == a3[1..] + b3;
      DiffsAppend(a1[1..], a2[1..], a3[1..], b1, b2, b3);
    }
  }

  lemma {:induction false} NoDiffs(n1: seq<int>, n2: seq<int>, n3: seq<int>)
    requires |n1| == |n2| == |n3|
    ensures Diffs(n1, n2, n3) == [] <==> n1 == n2 == n3
    decreases n1
  {
    if n1 != [] {
      NoDiffs(n1[1..], n2[1..], n3[1..]);
      assert n1 == [n1[0]] + n1[1..] && n2 == [n2[0]] + n2[1..] && n3 == [n3[0]] + n3[1..];
    }
  }

  /** One template and one differing position make a context. */
  lemma {:induction false} DiffHasContext(e1: Expr, e2: Expr, e3: Expr) returns (c: Context)
    requires Template(e1) == Template(e2) == Template(e3)
    requires |Nums(e1)| == |Nums(e2)| == |Nums(e3)| && |Diffs(Nums(e1), Nums(e2), Nums(e3))| == 1
    ensures var t := Diffs(Nums(e1), Nums(e2), Nums(e3))[0]; !Constant(t) && IsFilled(c, e1, e2, e3, t)
    decreases e1
  {
    match (e1, e2, e3)
    case (Num(n1), Num(n2), Num(n3)) =>
      c := Hole;
      assert Diffs([], [], []) == [];
    case (Bin(op, l1, r1), Bin(_, l2, r2), Bin(_, l3, r3)) =>
      SameTemplate(l1, l2);
      SameTemplate(l1, l3);
      SameTemplate(r1, r2);
      SameTemplate(r1, r3);
      DiffsAppend(Nums(l1), Nums(l2), Nums(l3), Nums(r1), Nums(r2), Nums(r3));
      if Diffs(Nums(l1), Nums(l2), Nums(l3)) == [] {
        NoDiffs(Nums(l1), Nums(l2), Nums(l3));
        var d := DiffHasContext(r1, r2, r3);
        c := InRight(op, l1, d);
      } else {
        NoDiffs(Nums(r1), Nums(r2), Nums(r3));
        var d := DiffHasContext(l1, l2, l3);
        c := InLeft(op, d, r1);
      }
  }

  lemma {:induction false} ContextHasDiff(c: Context, t: Triple)
    requires !Constant(t) && t.x1 >= 0 && t.x2 >= 0 && t.x3 >= 0
    ensures var e1, e2, e3 := Fill(c, t.x1), Fill(c, t.x2), Fill(c, t.x3);
            && Template(e1) == Template(e2) == Template(e3) && |Nums(e1)| == |Nums(e2)| == |Nums(e3)|
            && Diffs(Nums(e1), Nums(e2), Nums(e3)) == [t]
    decreases c
  {
    match c
    case Hole =>
      assert Diffs([], [], []) == [];
    case InLeft(_, d, r) =>
      ContextHasDiff(d, t);
      NoDiffs(Nums(r), Nums(r), Nums(r));
      DiffsAppend(Nums(Fill(d, t.x1)), Nums(Fill(d, t.x2)), Nums(Fill(d, t.x3)), Nums(r), Nums(r), Nums(r));
    case InRight(_, l, d) =>
      ContextHasDiff(d, t);
      NoDiffs(Nums(l), Nums(l), Nums(l));
      DiffsAppend(Nums(l), Nums(l), Nums(l), Nums(Fill(d, t.x1)), Nums(Fill(d, t.x2)), Nums(Fill(d, t.x3)));
  }

  /** A triple is extracted exactly when the three expressions are one context around it; equal numbers
      come back only when all three are that plain number. */
  lemma ExtractExact(e1: Expr, e2: Expr, e3: Expr, t: Triple)
    ensures !Constant(t) ==> (ExtractVarying(e1, e2, e3) == Some(t) <==> VariesOnlyIn(e1, e2, e3, t))
    ensures Constant(t) ==> (ExtractVarying(e1, e2, e3) == Some(t) <==> t.x1 >= 0 && e1 == e2 == e3 == Num(t.x1))
  {
    var r := ExtractVarying(e1, e2, e3);
    if e1.Num? && e2.Num? && e3.Num? {
      if r == Some(t) {
        assert IsFilled(Hole, e1, e2, e3, t);
      }
    } else if r.Some? {
      var c := DiffHasContext(e1, e2, e3);
      assert IsFilled(c, e1, e2, e3, r.value);
    }
    if VariesOnlyIn(e1, e2, e3, t) {
      var c :| IsFilled(c, e1, e2, e3, t);
      ContextHasDiff(c, t);
      assert Diffs(Nums(e1), Nums(e2), Nums(e3)) == [t];
    }
  }

  // ---------------------------------------------------------------- the search

  type States = seq<map<nat, Expr>>

  /** At step i register k varies in one number only, and the numbers fit a line. */
  ghost predicate IsIv(st1: States, st2: States, st3: States, v: Triple, i: nat, k: nat, t: Triple, line: Line)
    requires i < |st1| && i < |st2| && i < |st3|
  {
    && k in st1[i] && k in st2[i] && k in st3[i]
    && VariesOnlyIn(st1[i][k], st2[i][k], st3[i][k], t) && FindLinear(v, t) == Some(line)
  }

  ghost predicate NoIv(st1: States, st2: States, st3: States, v: Triple, i: nat, k: nat)
    requires i < |st1| && i < |st2| && i < |st3|
  {
    forall t, line :: !IsIv(st1, st2, st3, v, i, k, t, line)
  }

  lemma SomeIv(st1: States, st2: States, st3: States, v: Triple, i: nat, k: nat, t: Triple, line: Line)
    requires i < |st1| && i < |st2| && i < |st3| && IsIv(st1, st2, st3, v, i, k, t, line)
    ensures !NoIv(st1, st2, st3, v, i, k)
  {
  }

  datatype Found = Found(step: nat, reg: nat, iv: Triple, line: Line)

  /** One register at one step. */
  method TryRegister(st1: States, st2: States, st3: States, v: Triple, i: nat, k: nat) returns (r: Option<Found>)
    requires i < |st1| && i < |st2| && i < |st3|
    ensures r.None? ==> NoIv(st1, st2, st3, v, i, k)
    ensures r.Some? ==> r.value.step == i && r.value.reg == k && IsIv(st1, st2, st3, v, i, k, r.value.iv, r.value.line)
  {
    if k !in st1[i] || k !in st2[i] || k !in st3[i] {
      return None;
    }
    var e1, e2, e3 := st1[i][k], st2[i][k], st3[i][k];
    forall t
      ensures !Constant(t) ==> (ExtractVarying(e1, e2, e3) == Some(t) <==> VariesOnlyIn(e1, e2, e3, t))
    {
      ExtractExact(e1, e2, e3, t);
    }
    if e1 == e2 == e3 {
      forall t
        ensures !VariesOnlyIn(e1, e2, e3, t)
      {
        EqualDoNotVary(e1, t);
      }
      return None;
    }
    var consts := ExtractVarying(e1, e2, e3);
    if consts.None? || Constant(consts.value) {
      return None;
    }
    var rel := FindLinear(v, consts.value);
    if rel.Some? {
      return Some(Found(i, k, consts.value, rel.value));
    }
    return None;
  }

  lemma EqualDoNotVary(e: Expr, t: Triple)
    ensures !VariesOnlyIn(e, e, e, t)
  {
    if VariesOnlyIn(e, e, e, t) {
      var c :| IsFilled(c, e, e, e, t);
      ContextHasDiff(c, t);
      NoDiffs(Nums(e), Nums(e), Nums(e));
      assert false;
    }
  }

  /** `order` lists the anonymous registers as the program sorts them, by their printed names.  The result
      is the first hit: by step, then by that order. */
  method FindIv(st1: States, st2: States, st3: States, v: Triple, order: seq<nat>) returns (r: Option<Found>)
    ensures r.None? ==> forall i, k :: 0 <= i < |st1| && i < |st2| && i < |st3| && k in order ==> NoIv(st1, st2, st3, v, i, k)
    ensures r.Some? ==> exists p: nat :: IsFirst(st1, st2, st3, v, order, r.value, p)
  {
    var minLen := if |st1| <= |st2| then |st1| else |st2|;
    minLen := if minLen <= |st3| then minLen else |st3|;
    var i := 0;
    while i < minLen
      invariant 0 <= i <= minLen
      invariant forall j, k :: 0 <= j < i && k in order ==> NoIv(st1, st2, st3, v, j, k)
    {
      var p := 0;
      while p < |order|
        invariant 0 <= p <= |order|
        invariant forall q :: 0 <= q < p ==> NoIv(st1, st2, st3, v, i, order[q])
      {
        r := TryRegister(st1, st2, st3, v, i, order[p]);
        if r.Some? {
          assert IsFirst(st1, st2, st3, v, order, r.value, p);
          return;
        }
        p := p + 1;
      }
      i := i + 1;
    }
    return None;
  }

  ghost predicate IsFirst(st1: States, st2: States, st3: States, v: Triple, order: seq<nat>, f: Found, p: nat) {
    && f.step < |st1| && f.step < |st2| && f.step < |st3| && p < |order| && order[p] == f.reg
    && IsIv(st1, st2, st3, v, f.step, f.reg, f.iv, f.line)
    && (forall j, k :: 0 <= j < f.step && k in order ==> NoIv(st1, st2, st3, v, j, k))
    && (forall q :: 0 <= q < p ==> NoIv(st1, st2, st3, v, f.step, order[q]))
  }
}
