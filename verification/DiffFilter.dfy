/** Cancelling moved instructions in a disassembly diff: `filter_address_offset_diff` of src/diff.py. */
module DiffFilter {
  import opened Wrappers

  /** A line of a unified diff.  A changed line carries the signature of its instruction, if it is one. */
  datatype Line =
    | Hunk(text: string)
    | FileHeader(text: string)
    | Context(text: string)
    | Unsigned(text: string)
    | Removed(text: string, sig: string)
    | Added(text: string, sig: string)

  type Diff = seq<Line>

  predicate Is(line: Line, removed: bool, s: string) {
    if removed then line.Removed? && line.sig == s else line.Added? && line.sig == s
  }

  predicate OnSide(line: Line, removed: bool) {
    if removed then line.Removed? else line.Added?
  }

  predicate IsChange(line: Line) { line.Unsigned? || line.Removed? || line.Added? }

  predicate EndsHunk(line: Line) { line.Hunk? || line.FileHeader? }

  /** How many of the first n lines are on the side and have the signature. */
  function Count(lines: Diff, n: nat, removed: bool, s: string): nat
    requires n <= |lines|
  {
    if n == 0 then 0 else Count(lines, n - 1, removed, s) + (if Is(lines[n - 1], removed, s) then 1 else 0)
  }

  function Total(lines: Diff, removed: bool, s: string): nat { Count(lines, |lines|, removed, s) }

  // ---------------------------------------------------------------- the specification

  /** The first lines of a signature on each side cancel, as many as the other side has. */
  predicate Survives(lines: Diff, i: nat)
    requires i < |lines|
  {
    match lines[i]
    case Removed(_, s) => Count(lines, i, true, s) >= Total(lines, false, s)
    case Added(_, s) => Count(lines, i, false, s) >= Total(lines, true, s)
    case _ => true
  }

  /** No hunk or file header comes after line i up to line j. */
  ghost predicate Heads(lines: Diff, i: nat, j: nat) {
    i < j < |lines| && forall m :: i < m <= j ==> !lines[m].Hunk? && !lines[m].FileHeader?
  }

  /** Line j is a surviving change in the hunk that line i heads. */
  ghost predicate KeptIn(lines: Diff, i: nat, j: nat) {
    Heads(lines, i, j) && IsChange(lines[j]) && Survives(lines, j)
  }

  ghost predicate Stays(lines: Diff, i: nat)
    requires i < |lines|
  {
    if lines[i].Hunk? then exists j: nat :: KeptIn(lines, i, j) else Survives(lines, i)
  }

  /** A hunk header stays exactly if a surviving change follows it before any other header. */
  lemma HunkStays(lines: Diff, i: nat)
    requires i < |lines| && lines[i].Hunk?
    ensures Stays(lines, i) <==> exists j: nat :: Heads(lines, i, j) && Survives(lines, j)
                                                  && (lines[j].Removed? || lines[j].Added? || lines[j].Unsigned?)
  {
    if j: nat :| Heads(lines, i, j) && Survives(lines, j) && (lines[j].Removed? || lines[j].Added? || lines[j].Unsigned?) {
      assert KeptIn(lines, i, j);
    }
  }

  /** What is left of the first n lines. */
  ghost function Left(lines: Diff, n: nat): Diff
    requires n <= |lines|
  {
    if n == 0 then [] else Left(lines, n - 1) + (if Stays(lines, n - 1) then [lines[n - 1]] else [])
  }

  ghost function Filtered(lines: Diff): Diff { Left(lines, |lines|) }

  // ---------------------------------------------------------------- the program

  /** The ascending positions of the lines of one side among the first n. */
  ghost predicate IsListing(lines: Diff, n: nat, removed: bool, l: seq<nat>)
    requires n <= |lines|
  {
    && (forall p :: 0 <= p < |l| ==> l[p] < n && OnSide(lines[l[p]], removed))
    && (forall p, q :: 0 <= p < q < |l| ==> l[p] < l[q])
    && (forall i :: 0 <= i < n && OnSide(lines[i], removed) ==> i in l)
  }

  method Collect(lines: Diff) returns (minus: seq<nat>, plus: seq<nat>, lineMap: map<nat, bool>)
    ensures IsListing(lines, |lines|, true, minus) && IsListing(lines, |lines|, false, plus)
    ensures forall i: nat :: i in lineMap <==> i < |lines| && !lines[i].Removed? && !lines[i].Added?
    ensures forall i :: i in lineMap ==> lineMap[i]
  {
    minus, plus, lineMap := [], [], map[];
    var i := 0;
    while i < |lines|
      invariant 0 <= i <= |lines| && IsListing(lines, i, true, minus) && IsListing(lines, i, false, plus)
      invariant forall m: nat :: m in lineMap <==> m < i && !lines[m].Removed? && !lines[m].Added?
      invariant forall m :: m in lineMap ==> lineMap[m]
    {
      match lines[i] {
        case Removed(_, _) => minus := minus + [i];
        case Added(_, _) => plus := plus + [i];
        case _ => lineMap := lineMap[i := true];
      }
      i := i + 1;
    }
  }

  /** The first added line of the signature that is not matched yet. */
  method FirstUnmatched(lines: Diff, plus: seq<nat>, matched: set<nat>, s: string) returns (r: Option<nat>)
    requires IsListing(lines, |lines|, false, plus)
    ensures r.None? ==> forall j :: j in plus && lines[j].sig == s ==> j in matched
    ensures r.Some? ==> r.value in plus && lines[r.value].sig == s && r.value !in matched
    ensures r.Some? ==> forall j :: j in plus && j < r.value && lines[j].sig == s ==> j in matched
  {
    var p := 0;
    while p < |plus|
      invariant 0 <= p <= |plus|
      invariant forall q :: 0 <= q < p && lines[plus[q]].sig == s ==> plus[q] in matched
    {
      if plus[p] !in matched && lines[plus[p]].sig == s {
        return Some(plus[p]);
      }
      p := p + 1;
    }
    return None;
  }

  /** The added lines matched with the removed ones among the first n lines. */
  ghost predicate IsMatching(lines: Diff, plus: seq<nat>, matched: set<nat>, n: nat)
    requires n <= |lines| && IsListing(lines, |lines|, false, plus)
  {
    && (forall j :: j in matched ==> j in plus)
    && (forall j :: j in plus ==> (j in matched <==> Count(lines, j, false, lines[j].sig) < Count(lines, n, true, lines[j].sig)))
  }

  /** The decisions for the removed lines listed in `done` and for the matched added lines. */
  ghost predicate IsDecided(lines: Diff, done: seq<nat>, matched: set<nat>, lineMap: map<nat, bool>) {
    && (forall p :: 0 <= p < |done| ==> done[p] < |lines| && done[p] in lineMap && lineMap[done[p]] == Survives(lines, done[p]))
    && (forall j :: j in matched ==> j in lineMap && !lineMap[j])
  }

  /** Both maps agree on the unchanged lines. */
  ghost predicate SameElsewhere(lines: Diff, a: map<nat, bool>, b: map<nat, bool>) {
    forall i: nat :: i < |lines| && !lines[i].Removed? && !lines[i].Added? && i in a ==> i in b && b[i] == a[i]
  }

  method MatchOne(lines: Diff, plus: seq<nat>, ghost done: seq<nat>, before: map<nat, bool>, matchedBefore: set<nat>, i: nat, ghost n: nat)
      returns (lineMap: map<nat, bool>, matched: set<nat>)
    requires IsListing(lines, |lines|, false, plus) && i < |lines| && lines[i].Removed? && n == i + 1
    requires IsMatching(lines, plus, matchedBefore, i) && IsDecided(lines, done, matchedBefore, before)
    requires forall p :: 0 <= p < |done| ==> done[p] < |lines| && lines[done[p]].Removed?
    ensures IsMatching(lines, plus, matched, n) && IsDecided(lines, done + [i], matched, lineMap)
    ensures SameElsewhere(lines, before, lineMap)
  {
    lineMap, matched := before, matchedBefore;
    var found := FirstUnmatched(lines, plus, matched, lines[i].sig);
    match found {
      case Some(j) =>
        MatchedIsNext(lines, plus, matched, i, j);
        lineMap := lineMap[i := false][j := false];
        matched := matched + {j};
      case None =>
        NothingLeft(lines, plus, matched, i);
        lineMap := lineMap[i := true];
    }
  }

  method MatchAll(lines: Diff, minus: seq<nat>, plus: seq<nat>, before: map<nat, bool>)
      returns (lineMap: map<nat, bool>, matched: set<nat>)
    requires IsListing(lines, |lines|, true, minus) && IsListing(lines, |lines|, false, plus)
    ensures IsMatching(lines, plus, matched, |lines|) && IsDecided(lines, minus, matched, lineMap)
    ensures SameElsewhere(lines, before, lineMap)
  {
    lineMap, matched := before, {};
    var t := 0;
    ghost var n := 0;
    NothingMatched(lines, plus);
    while t < |minus|
      invariant 0 <= t <= |minus| && n == if t == 0 then 0 else minus[t - 1] + 1
      invariant n <= |lines| && IsMatching(lines, plus, matched, n)
      invariant IsDecided(lines, minus[..t], matched, lineMap) && SameElsewhere(lines, before, lineMap)
    {
      var i := minus[t];
      ghost var done := minus[..t];
      MatchingAt(lines, minus, plus, matched, t, n, i);
      n := i + 1;
      lineMap, matched := MatchOne(lines, plus, done, lineMap, matched, i, n);
      assert minus[..t + 1] == done + [i];
      t := t + 1;
    }
    MatchingAt(lines, minus, plus, matched, t, n, |lines|);
    assert minus[..t] == minus;
  }

  lemma NothingMatched(lines: Diff, plus: seq<nat>)
    requires IsListing(lines, |lines|, false, plus)
    ensures IsMatching(lines, plus, {}, 0)
  {
  }

  lemma MatchingAt(lines: Diff, minus: seq<nat>, plus: seq<nat>, matched: set<nat>, t: nat, n: nat, m: nat)
    requires IsListing(lines, |lines|, true, minus) && t <= |minus| && n == if t == 0 then 0 else minus[t - 1] + 1
    requires m == if t < |minus| then minus[t] else |lines|
    requires n <= |lines| && IsListing(lines, |lines|, false, plus) && IsMatching(lines, plus, matched, n)
    ensures m <= |lines| && IsMatching(lines, plus, matched, m)
  {
    NoneBetween(lines, minus, t, n, m);
    CountsAlike(lines, n, m);
  }

  lemma NoneBetween(lines: Diff, minus: seq<nat>, t: nat, n: nat, m: nat)
    requires IsListing(lines, |lines|, true, minus) && t <= |minus| && n == if t == 0 then 0 else minus[t - 1] + 1
    requires m == if t < |minus| then minus[t] else |lines|
    ensures n <= m && forall i :: n <= i < m ==> !lines[i].Removed?
  {
  }

  lemma {:induction false} CountsAlike(lines: Diff, n: nat, m: nat)
    requires n <= m <= |lines| && forall i :: n <= i < m ==> !lines[i].Removed?
    ensures forall s :: Count(lines, n, true, s) == Count(lines, m, true, s)
  {
    if n < m {
      CountsAlike(lines, n, m - 1);
    }
  }

  lemma {:induction false} CountGrows(lines: Diff, n: nat, m: nat, removed: bool, s: string)
    requires n <= m <= |lines|
    ensures Count(lines, n, removed, s) <= Count(lines, m, removed, s)
    ensures n < m && Is(lines[n], removed, s) ==> Count(lines, n, removed, s) < Count(lines, m, removed, s)
    decreases m
  {
    if n < m {
      CountGrows(lines, n, m - 1, removed, s);
    }
  }

  /** A rank below the total is the rank of some line. */
  lemma {:induction false} RankTaken(lines: Diff, n: nat, removed: bool, s: string, rank: nat) returns (j: nat)
    requires n <= |lines| && rank < Count(lines, n, removed, s)
    ensures j < n && Is(lines[j], removed, s) && Count(lines, j, removed, s) == rank
  {
    if rank < Count(lines, n - 1, removed, s) {
      j := RankTaken(lines, n - 1, removed, s, rank);
    } else {
      j := n - 1;
    }
  }

  /** The first unmatched added line has the rank of the removed line in hand. */
  lemma MatchedIsNext(lines: Diff, plus: seq<nat>, matched: set<nat>, i: nat, j: nat)
    requires i < |lines| && lines[i].Removed? && IsListing(lines, |lines|, false, plus) && IsMatching(lines, plus, matched, i)
    requires j in plus && lines[j].sig == lines[i].sig && j !in matched
    requires forall k :: k in plus && k < j && lines[k].sig == lines[i].sig ==> k in matched
    ensures IsMatching(lines, plus, matched + {j}, i + 1) && !Survives(lines, i) && j !in {i}
  {
    var s := lines[i].sig;
    var rank := Count(lines, i, true, s);
    if rank < Count(lines, j, false, s) {
      var k := RankTaken(lines, j, false, s, rank);
      assert false;
    }
    CountGrows(lines, j, |lines|, false, s);
    forall k | k in plus
      ensures k in matched + {j} <==> Count(lines, k, false, lines[k].sig) < Count(lines, i + 1, true, lines[k].sig)
    {
      if lines[k].sig == s && k < j {
        CountGrows(lines, k, j, false, s);
      } else if lines[k].sig == s && j < k {
        CountGrows(lines, j, k, false, s);
      }
    }
  }

  /** With every added line of the signature matched, the removed line survives. */
  lemma NothingLeft(lines: Diff, plus: seq<nat>, matched: set<nat>, i: nat)
    requires i < |lines| && lines[i].Removed? && IsListing(lines, |lines|, false, plus) && IsMatching(lines, plus, matched, i)
    requires forall k :: k in plus && lines[k].sig == lines[i].sig ==> k in matched
    ensures IsMatching(lines, plus, matched, i + 1) && Survives(lines, i)
  {
    var s := lines[i].sig;
    var rank := Count(lines, i, true, s);
    if rank < Total(lines, false, s) {
      var k := RankTaken(lines, |lines|, false, s, rank);
      assert false;
    }
    forall k | k in plus
      ensures k in matched <==> Count(lines, k, false, lines[k].sig) < Count(lines, i + 1, true, lines[k].sig)
    {
    }
  }

  /** The look-ahead from a hunk header. */
  method HasKeptChanges(lines: Diff, lineMap: map<nat, bool>, i: nat) returns (kept: bool)
    requires i < |lines| && forall m :: 0 <= m < |lines| ==> m in lineMap && lineMap[m] == Survives(lines, m)
    ensures kept <==> exists j: nat :: Heads(lines, i, j) && Survives(lines, j)
                                       && (lines[j].Removed? || lines[j].Added? || lines[j].Unsigned?)
  {
    var j := i + 1;
    while j < |lines| && !EndsHunk(lines[j])
      invariant i < j <= |lines|
      invariant forall m :: i < m < j ==> !EndsHunk(lines[m]) && !(IsChange(lines[m]) && Survives(lines, m))
    {
      if lineMap[j] && IsChange(lines[j]) {
        assert Heads(lines, i, j);
        return true;
      }
      j := j + 1;
    }
    return false;
  }

  method MarkAdded(plus: seq<nat>, matched: set<nat>, before: map<nat, bool>) returns (lineMap: map<nat, bool>)
    requires forall j :: j in matched ==> j in before && !before[j]
    ensures forall j :: j in plus ==> j in lineMap
    ensures forall j :: j in plus ==> (lineMap[j] <==> j !in matched)
    ensures forall i :: i in before && i !in plus ==> i in lineMap && lineMap[i] == before[i]
  {
    lineMap := before;
    var p := 0;
    while p < |plus|
      invariant 0 <= p <= |plus|
      invariant forall q :: 0 <= q < p ==> plus[q] in lineMap && (lineMap[plus[q]] <==> plus[q] !in matched)
      invariant forall j :: j in matched ==> j in lineMap && !lineMap[j]
      invariant forall i :: i in before && i !in plus ==> i in lineMap && lineMap[i] == before[i]
    {
      if plus[p] !in matched {
        lineMap := lineMap[plus[p] := true];
      }
      p := p + 1;
    }
  }

  /** The first pass: which lines are kept, hunk headers aside. */
  method Decide(lines: Diff) returns (lineMap: map<nat, bool>)
    ensures forall i :: 0 <= i < |lines| ==> i in lineMap && lineMap[i] == Survives(lines, i)
  {
    var minus, plus, first := Collect(lines);
    var second, matched := MatchAll(lines, minus, plus, first);
    lineMap := MarkAdded(plus, matched, second);
    forall i | 0 <= i < |lines|
      ensures i in lineMap && lineMap[i] == Survives(lines, i)
    {
      DecidedLine(lines, minus, plus, matched, first, second, i);
    }
  }

  lemma DecidedLine(lines: Diff, minus: seq<nat>, plus: seq<nat>, matched: set<nat>, first: map<nat, bool>, second: map<nat, bool>, i: nat)
    requires i < |lines| && IsListing(lines, |lines|, true, minus) && IsListing(lines, |lines|, false, plus)
    requires IsMatching(lines, plus, matched, |lines|) && IsDecided(lines, minus, matched, second)
    requires SameElsewhere(lines, first, second)
    requires !lines[i].Removed? && !lines[i].Added? ==> i in first && first[i]
    ensures i in plus ==> (Survives(lines, i) <==> i !in matched)
    ensures i !in plus ==> i in second && second[i] == Survives(lines, i)
  {
  }

  method FilterAddressOffsetDiff(lines: Diff) returns (filtered: Diff)
    ensures filtered == Filtered(lines)
  {
    var lineMap := Decide(lines);
    filtered := [];
    var i := 0;
    while i < |lines|
      invariant 0 <= i <= |lines| && filtered == Left(lines, i)
    {
      if lines[i].Hunk? {
        var kept := HasKeptChanges(lines, lineMap, i);
        HunkStays(lines, i);
        if kept {
          filtered := filtered + [lines[i]];
        }
      } else if lineMap[i] {
        filtered := filtered + [lines[i]];
      }
      i := i + 1;
    }
  }
}
