/** What `filter_address_offset_diff` of src/diff.py promises, as laws of its specification. */
module DiffLaws {
  import opened DiffFilter

  function Excess(a: nat, b: nat): nat {
    if a > b then a - b else 0
  }

  lemma {:induction false} CountPrefix(a: Diff, b: Diff, n: nat, removed: bool, s: string)
    requires n <= |a|
    ensures Count(a + b, n, removed, s) == Count(a, n, removed, s)
  {
    if n > 0 {
      CountPrefix(a, b, n - 1, removed, s);
    }
  }

  lemma TotalAppend(a: Diff, x: Line, removed: bool, s: string)
    ensures Total(a + [x], removed, s) == Total(a, removed, s) + (if Is(x, removed, s) then 1 else 0)
  {
    CountPrefix(a, [x], |a|, removed, s);
  }

  lemma {:induction false} ExcessSoFar(lines: Diff, n: nat, removed: bool, s: string)
    requires n <= |lines|
    ensures Total(Left(lines, n), removed, s) == Excess(Count(lines, n, removed, s), Total(lines, !removed, s))
  {
    if n > 0 {
      ExcessSoFar(lines, n - 1, removed, s);
      if Stays(lines, n - 1) {
        TotalAppend(Left(lines, n - 1), lines[n - 1], removed, s);
      } else {
        assert Left(lines, n) == Left(lines, n - 1);
      }
    }
  }

  /** Per signature exactly the common part of the two sides cancels; the survivors are the one-sided
      excess. */
  lemma SurvivorsAreTheExcess(lines: Diff, removed: bool, s: string)
    ensures Total(Filtered(lines), removed, s) == Excess(Total(lines, removed, s), Total(lines, !removed, s))
    ensures Total(Filtered(lines), true, s) == 0 || Total(Filtered(lines), false, s) == 0
  {
    ExcessSoFar(lines, |lines|, removed, s);
    ExcessSoFar(lines, |lines|, !removed, s);
  }

  predicate IsPlain(line: Line) { line.Context? || line.FileHeader? || line.Unsigned? }

  /** The lines that are neither hunk headers nor instructions, in order. */
  function Plain(lines: Diff, n: nat): Diff
    requires n <= |lines|
  {
    if n == 0 then [] else Plain(lines, n - 1) + (if IsPlain(lines[n - 1]) then [lines[n - 1]] else [])
  }

  lemma {:induction false} PlainPrefix(a: Diff, b: Diff, n: nat)
    requires n <= |a|
    ensures Plain(a + b, n) == Plain(a, n)
  {
    if n > 0 {
      PlainPrefix(a, b, n - 1);
    }
  }

  lemma {:induction false} PlainSoFar(lines: Diff, n: nat)
    requires n <= |lines|
    ensures Plain(Left(lines, n), |Left(lines, n)|) == Plain(lines, n)
  {
    if n > 0 {
      PlainSoFar(lines, n - 1);
      var before := Left(lines, n - 1);
      if Stays(lines, n - 1) {
        PlainPrefix(before, [lines[n - 1]], |before|);
      } else {
        assert Left(lines, n) == before;
      }
    }
  }

  /** Context, file headers and changed lines that are not instructions all stay, in order. */
  lemma PlainLinesStay(lines: Diff)
    ensures Plain(Filtered(lines), |Filtered(lines)|) == Plain(lines, |lines|)
  {
    PlainSoFar(lines, |lines|);
  }

  // ---------------------------------------------------------------- the result, line by line

  lemma {:induction false} LeftGrows(lines: Diff, m: nat, n: nat)
    requires m <= n <= |lines|
    ensures |Left(lines, m)| <= |Left(lines, n)|
    ensures m < n && Stays(lines, m) ==> |Left(lines, m)| < |Left(lines, n)| && Left(lines, n)[|Left(lines, m)|] == lines[m]
    decreases n
  {
    if m < n {
      LeftGrows(lines, m, n - 1);
    }
  }

  /** Every line of the result comes from a line that stays. */
  lemma {:induction false} SourceOf(lines: Diff, n: nat, p: nat) returns (i: nat)
    requires n <= |lines| && p < |Left(lines, n)|
    ensures i < n && Stays(lines, i) && |Left(lines, i)| == p && Left(lines, n)[p] == lines[i]
  {
    if p < |Left(lines, n - 1)| {
      i := SourceOf(lines, n - 1, p);
    } else {
      i := n - 1;
    }
  }

  /** An instruction that survived has nothing left to cancel with. */
  lemma SurvivorSurvives(lines: Diff, p: nat)
    requires p < |Filtered(lines)|
    ensures Survives(Filtered(lines), p)
  {
    var i := SourceOf(lines, |lines|, p);
    match lines[i]
    case Removed(_, s) =>
      CountGrows(lines, i, |lines|, true, s);
      SurvivorsAreTheExcess(lines, false, s);
    case Added(_, s) =>
      CountGrows(lines, i, |lines|, false, s);
      SurvivorsAreTheExcess(lines, true, s);
    case _ =>
  }

  /** A line of the result between the images of lines i and j comes from between them. */
  lemma SourceBetween(lines: Diff, i: nat, j: nat, m: nat) returns (k: nat)
    requires i < j < |lines| && Stays(lines, i) && Stays(lines, j)
    requires |Left(lines, i)| < m <= |Left(lines, j)| < |Filtered(lines)|
    ensures i < k <= j && Filtered(lines)[m] == lines[k]
  {
    k := SourceOf(lines, |lines|, m);
    if k <= i {
      LeftGrows(lines, k, i);
    }
    if j < k {
      LeftGrows(lines, j, k);
    }
  }

  /** Every hunk header of the result heads a hunk of the result with a change in it. */
  lemma HunkKeepsItsChange(lines: Diff, p: nat)
    requires p < |Filtered(lines)| && Filtered(lines)[p].Hunk?
    ensures exists q: nat ::
              && Heads(Filtered(lines), p, q) && Survives(Filtered(lines), q)
              && (Filtered(lines)[q].Removed? || Filtered(lines)[q].Added? || Filtered(lines)[q].Unsigned?)
  {
    var out := Filtered(lines);
    var i := SourceOf(lines, |lines|, p);
    var j: nat :| KeptIn(lines, i, j);
    var q := |Left(lines, j)|;
    LeftGrows(lines, j, |lines|);
    LeftGrows(lines, i, j);
    SurvivorSurvives(lines, q);
    forall m | p < m <= q
      ensures !out[m].Hunk? && !out[m].FileHeader?
    {
      var k := SourceBetween(lines, i, j, m);
    }
    assert Heads(out, p, q);
  }

  /** The ascending positions of the lines that are left among the first n. */
  ghost predicate IsSelection(lines: Diff, n: nat, out: Diff, ks: seq<nat>)
    requires n <= |lines|
  {
    && |ks| == |out| && (forall p, q :: 0 <= p < q < |ks| ==> ks[p] < ks[q])
    && (forall p :: 0 <= p < |ks| ==> ks[p] < n && out[p] == lines[ks[p]])
  }

  lemma SelectionStep(lines: Diff, n: nat, out: Diff, ks: seq<nat>)
    requires n < |lines| && IsSelection(lines, n, out, ks)
    ensures IsSelection(lines, n + 1, out, ks) && IsSelection(lines, n + 1, out + [lines[n]], ks + [n])
  {
  }

  ghost predicate Staying(lines: Diff, n: nat, ks: seq<nat>)
    requires n <= |lines|
  {
    forall i :: 0 <= i < n ==> (i in ks <==> Stays(lines, i))
  }

  lemma StayingStep(lines: Diff, n: nat, ks: seq<nat>)
    requires n < |lines| && Staying(lines, n, ks) && n !in ks
    ensures Staying(lines, n + 1, if Stays(lines, n) then ks + [n] else ks)
  {
    if Stays(lines, n) {
      assert (ks + [n])[|ks|] == n;
      forall i | 0 <= i < n
        ensures i in ks + [n] <==> i in ks
      {
      }
    }
  }

  lemma {:induction false} Selection(lines: Diff, n: nat) returns (ks: seq<nat>)
    requires n <= |lines|
    ensures IsSelection(lines, n, Left(lines, n), ks) && Staying(lines, n, ks)
  {
    if n == 0 {
      ks := [];
    } else {
      var m, out := n - 1, Left(lines, n - 1);
      ks := Selection(lines, m);
      SelectionStep(lines, m, out, ks);
      BelowOnly(lines, m, out, ks);
      StayingStep(lines, m, ks);
      if Stays(lines, m) {
        ks := ks + [m];
      } else {
        assert out + [] == out;
      }
    }
  }

  lemma BelowOnly(lines: Diff, n: nat, out: Diff, ks: seq<nat>)
    requires n <= |lines| && IsSelection(lines, n, out, ks)
    ensures n !in ks
  {
  }

  /** Which lines the result has.  They come in the order of the input.  A removed or added instruction is
      among them if it survives, and so are all other lines but hunk headers.  A hunk header is among them
      exactly if a change follows it that survives, before any other header: any header whose hunk lost all
      its changes is gone. */
  lemma ResultExact(lines: Diff) returns (ks: seq<nat>)
    ensures IsSelection(lines, |lines|, Filtered(lines), ks)
    ensures forall i :: 0 <= i < |lines| && (lines[i].Removed? || lines[i].Added?) ==> (i in ks <==> Survives(lines, i))
    ensures forall i :: 0 <= i < |lines| && (lines[i].Context? || lines[i].FileHeader? || lines[i].Unsigned?) ==> i in ks
    ensures forall i :: 0 <= i < |lines| && lines[i].Hunk? ==>
              (i in ks <==> exists j: nat :: Heads(lines, i, j) && Survives(lines, j)
                                             && (lines[j].Removed? || lines[j].Added? || lines[j].Unsigned?))
  {
    ks := Selection(lines, |lines|);
    forall i | 0 <= i < |lines| && lines[i].Hunk?
      ensures Stays(lines, i) <==> exists j: nat :: Heads(lines, i, j) && Survives(lines, j)
                                                    && (lines[j].Removed? || lines[j].Added? || lines[j].Unsigned?)
    {
      HunkStays(lines, i);
    }
  }

  /** The lines of a signature that survive are its last ones. */
  lemma SurvivorsAreLast(lines: Diff, i: nat, j: nat, removed: bool, s: string)
    requires i < j < |lines| && Is(lines[i], removed, s) && Is(lines[j], removed, s) && Survives(lines, i)
    ensures Survives(lines, j)
  {
    CountGrows(lines, i, j, removed, s);
  }

  lemma {:induction false} AllLeft(lines: Diff, n: nat)
    requires n <= |lines| && forall p :: 0 <= p < n ==> Stays(lines, p)
    ensures Left(lines, n) == lines[..n]
  {
    if n > 0 {
      AllLeft(lines, n - 1);
    }
  }

  /** Filtering twice is filtering once. */
  lemma FilterIsIdempotent(lines: Diff)
    ensures Filtered(Filtered(lines)) == Filtered(lines)
  {
    var out := Filtered(lines);
    forall p | 0 <= p < |out|
      ensures Stays(out, p)
    {
      SurvivorSurvives(lines, p);
      if out[p].Hunk? {
        HunkKeepsItsChange(lines, p);
        HunkStays(out, p);
      }
    }
    AllLeft(out, |out|);
  }
}
