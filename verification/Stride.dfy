/** The adversarial order of ae/Figure1/gen_iolog.py: the offsets of a region, picked so that
    neighbouring requests are never adjacent on the device. */
module Stride {
  import opened Wrappers
  import opened Words

  /** The stride factor for n requests. */
  function Factor(n: nat): (k: nat)
    ensures 1 <= k && (n > 0 ==> k <= n)
  {
    if n >= 32 then n / 32 else 1
  }

  /** The factor is the number of whole groups of 32 requests, or 1. */
  lemma FactorExact(n: nat)
    ensures n < 32 ==> Factor(n) == 1
    ensures n >= 32 ==> 32 * Factor(n) <= n < 32 * (Factor(n) + 1)
  {
  }

  /** The position picked at place i. */
  function Position(n: nat, k: nat, i: nat): nat
    requires n > 0
  {
    var x: nat := i * k;
    x % n + x / n
  }

  ghost predicate RunsOff(n: nat, k: nat)
    requires n > 0
  {
    exists i :: 0 <= i < n && Position(n, k, i) >= n
  }

  method Picks(offs: seq<nat>, k: nat) returns (r: Option<seq<nat>>)
    ensures r.None? <==> offs != [] && RunsOff(|offs|, k)
    ensures r.Some? ==> |r.value| == |offs| && forall i :: 0 <= i < |offs| ==>
              Position(|offs|, k, i) < |offs| && r.value[i] == offs[Position(|offs|, k, i)]
  {
    var picks: seq<nat> := [];
    var i := 0;
    while i < |offs|
      invariant 0 <= i <= |offs| && |picks| == i
      invariant forall j :: 0 <= j < i ==> Position(|offs|, k, j) < |offs| && picks[j] == offs[Position(|offs|, k, j)]
    {
      var p := Position(|offs|, k, i);
      if p >= |offs| {
        return None;
      }
      picks := picks + [offs[p]];
      i := i + 1;
    }
    return Some(picks);
  }

  /** The offsets of one region in adversarial order; None if the picks run off the list. */
  method RegionOffsets(base: nat, stride: nat, n: nat) returns (r: Option<seq<nat>>)
    ensures r.None? <==> n % Factor(n) >= 2
    ensures r.Some? ==> |r.value| == n && forall i :: 0 <= i < n ==> r.value[i] == base + Position(n, Factor(n), i) * stride
  {
    var offs := seq(n, (i: nat) => base + i * stride);
    if n > 0 {
      RunsOffExact(n);
    }
    r := Picks(offs, Factor(n));
  }

  // ---------------------------------------------------------------- when it is a permutation

  ghost predicate IsPicked(n: nat, k: nat, x: nat)
    requires n > 0
  {
    exists i :: 0 <= i < n && Position(n, k, i) == x
  }

  ghost predicate IsPermutation(n: nat, k: nat)
    requires n > 0
  {
    && (forall i :: 0 <= i < n ==> Position(n, k, i) < n)
    && (forall x :: 0 <= x < n ==> IsPicked(n, k, x))
    && (forall i, j :: 0 <= i < j < n ==> Position(n, k, i) != Position(n, k, j))
  }

  /** a rows of b places: place p of row q is place q * b + p of a * b. */
  lemma InGrid(a: nat, b: nat, q: nat, p: nat)
    requires q < a && p < b
    ensures q * b + p < a * b
  {
    MulGrows(a - q, b);
    assert (a - q) * b == a * b - q * b;
  }

  lemma GridPlace(a: nat, b: nat, i: nat) returns (q: nat, p: nat)
    requires b >= 1 && i < a * b
    ensures q < a && p < b && i == q * b + p
  {
    q, p := i / b, i % b;
    assert i == q * b + p;
    if q >= a {
      RowsPast(a, b, q);
    }
  }

  lemma RowsPast(a: nat, b: nat, q: nat)
    requires q >= a
    ensures q * b >= a * b
  {
    assert q * b == a * b + (q - a) * b;
  }

  lemma RunProduct(n: nat, m: nat, k: nat, q: nat, p: nat)
    requires n == k * m
    ensures (q * m + p) * k == q * n + p * k
  {
    calc {
      (q * m + p) * k;
      (q * m) * k + p * k;
      q * (k * m) + p * k;
    }
  }

  /** Place p of run q, if k divides n = k * m, picks q + p * k. */
  lemma RunPick(n: nat, m: nat, k: nat, q: nat, p: nat)
    requires n == k * m && p < m && q < k
    ensures n > 0 && q * m + p < n && Position(n, k, q * m + p) == p * k + q < n
  {
    InGrid(k, m, q, p);
    InGrid(m, k, p, q);
    RunProduct(n, m, k, q, p);
    DivModUnique((q * m + p) * k, n, q, p * k);
  }

  lemma PicksDiffer(n: nat, m: nat, k: nat, i: nat, j: nat)
    requires m >= 1 && k >= 1 && n == k * m && i < j < n
    ensures Position(n, k, i) != Position(n, k, j)
  {
    var q, p := GridPlace(k, m, i);
    var r, s := GridPlace(k, m, j);
    RunPick(n, m, k, q, p);
    RunPick(n, m, k, r, s);
    if p * k + q == s * k + r {
      DivModUnique(p * k + q, k, p, q);
      DivModUnique(s * k + r, k, s, r);
    }
  }

  lemma AllArePicked(n: nat, m: nat, k: nat, x: nat)
    requires m >= 1 && k >= 1 && n == k * m && x < n
    ensures IsPicked(n, k, x)
  {
    var p, q := GridPlace(m, k, x);
    RunPick(n, m, k, q, p);
  }

  lemma DividingIsPermutation(n: nat, m: nat, k: nat)
    requires m >= 1 && k >= 1 && n == k * m && n > 0
    ensures IsPermutation(n, k)
  {
    forall i | 0 <= i < n
      ensures Position(n, k, i) < n
    {
      var q, p := GridPlace(k, m, i);
      RunPick(n, m, k, q, p);
    }
    forall x | 0 <= x < n
      ensures IsPicked(n, k, x)
    {
      AllArePicked(n, m, k, x);
    }
    forall i, j | 0 <= i < j < n
      ensures Position(n, k, i) != Position(n, k, j)
    {
      PicksDiffer(n, m, k, i, j);
    }
  }

  lemma OneAt(x: nat, n: nat)
    requires n > 0 && x % n + x / n == 1
    ensures x == 1 || x == n
  {
    var d, r := x / n, x % n;
    assert x == d * n + r;
    if d == 1 {
    } else {
      assert d == 0;
    }
  }

  /** If k does not divide n, position 1 is never picked. */
  lemma OneIsMissed(n: nat, k: nat)
    requires n > 0 && k >= 1 && n % k != 0
    ensures !IsPicked(n, k, 1)
  {
    forall i: nat
      ensures Position(n, k, i) != 1
    {
      if Position(n, k, i) == 1 {
        OneAt(i * k, n);
        if i * k == n {
          DivModUnique(n, k, i, 0);
        } else {
          UnitDivides(i, k);
          DivModUnique(n, k, n, 0);
        }
        assert false;
      }
    }
  }

  lemma UnitDivides(i: nat, k: nat)
    requires i * k == 1
    ensures k == 1
  {
    if k == 0 || i == 0 {
    } else if k > 1 {
      MulGrows(i, k);
    }
  }

  /** The adversarial order is a permutation exactly when the factor divides the number of requests. */
  lemma PermutationExact(n: nat)
    requires n > 0
    ensures IsPermutation(n, Factor(n)) <==> n % Factor(n) == 0
  {
    var k := Factor(n);
    if n % k == 0 {
      assert n == n / k * k;
      DividingIsPermutation(n, n / k, k);
    } else {
      OneIsMissed(n, k);
      DivModUnique(n, 1, n, 0);
      assert n > 1 && !IsPicked(n, k, 1);
    }
  }

  /** Within a run of n / k picks the positions are an arithmetic progression of step k; with k >= 2 no two
      of them are adjacent. */
  lemma RunsAreSpread(n: nat, q: nat, p: nat, s: nat)
    requires n > 0 && n % Factor(n) == 0 && q < Factor(n) && p < s < n / Factor(n)
    ensures var k := Factor(n);
            var m: nat := n / k;
            && Position(n, k, q * m + s) == Position(n, k, q * m + p) + (s - p) * k
            && (k >= 2 ==> Position(n, k, q * m + s) - Position(n, k, q * m + p) >= 2)
  {
    var k := Factor(n);
    var m: nat := n / k;
    assert n == k * m;
    RunPick(n, m, k, q, p);
    RunPick(n, m, k, q, s);
    assert q + s * k == q + p * k + (s - p) * k;
    MulGrows(s - p, k);
  }

  // ---------------------------------------------------------------- when the picks run off the list

  /** A remainder of two or more: the last multiple of k below (k - 1) * n is picked too high. */
  lemma HighPick(n: nat, k: nat, c: nat, t: nat)
    requires n == c * k + t && 2 <= t < k <= n
    ensures 0 <= n - c - 1 && Position(n, k, n - c - 1) == n + t - 2
  {
    assert n - c - 1 >= 0 by {
      MulGrows(k, c);
    }
    var x := (n - c - 1) * k;
    assert x == n * k - c * k - k;
    assert x == (k - 2) * n + (n - k + t);
    DivModUnique(x, n, k - 2, n - k + t);
  }

  lemma SmallRemainderStaysIn(n: nat, k: nat, c: nat, i: nat)
    requires n == c * k + 1 && k >= 1 && i < n
    ensures Position(n, k, i) < n
  {
    var x := i * k;
    var q, r := x / n, x % n;
    assert x == q * n + r;
    RowLimit(n, k, i, q);
    if r + q >= n {
      var e := n - r;
      assert q * n == (q * c) * k + q;
      assert (i - q * c - c) * k == q + 1 - e by {
        assert (i - q * c - c) * k == i * k - (q * c) * k - c * k;
      }
      SmallMultiple(i - q * c - c, k);
    }
  }

  lemma RowLimit(n: nat, k: nat, i: nat, q: nat)
    requires k >= 1 && i < n && q * n <= i * k
    ensures q < k
  {
    if q >= k {
      RowsPast(k, n, q);
      MulGrows(n - i, k);
    }
  }

  /** The program picks past the end of the list exactly when the remainder of the requests by the factor
      is two or more. */
  lemma RunsOffExact(n: nat)
    requires n > 0
    ensures RunsOff(n, Factor(n)) <==> n % Factor(n) >= 2
  {
    var k := Factor(n);
    var c, t := n / k, n % k;
    assert n == c * k + t;
    if t >= 2 {
      HighPick(n, k, c, t);
    } else if t == 1 {
      forall i | 0 <= i < n
        ensures Position(n, k, i) < n
      {
        SmallRemainderStaysIn(n, k, c, i);
      }
    } else {
      DividingIsPermutation(n, c, k);
    }
  }
}
