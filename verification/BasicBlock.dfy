/** Recovering the basic block around an address: `is_basic_block_terminator` and
    `find_basic_block_for_address` of src/diff.py. */
module BasicBlock {
  import opened Wrappers

  /** An instruction of the searched range; `entry` marks the first of a function. */
  datatype Inst = Inst(addr: nat, mnemonic: string, entry: bool)

  type Code = seq<Inst>

  predicate IsTerminator(mnemonic: string) {
    if mnemonic == "" then false
    else if mnemonic == "jmp" then true
    else if mnemonic[0] == 'j' && mnemonic != "jmp" then true
    else if mnemonic == "call" then true
    else mnemonic in ["ret", "retq", "retn"]
  }

  /** The mnemonics that end a block: all jumps, the plain call and three spellings of the return. */
  lemma TerminatorExact(mnemonic: string)
    ensures IsTerminator(mnemonic) <==>
            || (|mnemonic| > 0 && mnemonic[0] == 'j')
            || mnemonic == "call" || mnemonic == "ret" || mnemonic == "retq" || mnemonic == "retn"
  {
    if mnemonic == "" {
      assert |mnemonic| == 0;
    }
  }

  predicate Ends(i: Inst) { IsTerminator(i.mnemonic) }

  // ---------------------------------------------------------------- what a block is

  /** Control may leave after position m or enter at m + 1. */
  predicate Boundary(code: Code, m: int)
    requires 0 <= m < |code| - 1
  {
    Ends(code[m]) || code[m + 1].entry
  }

  /** A maximal run without a boundary inside. */
  ghost predicate IsBlock(code: Code, first: nat, last: nat) {
    && first <= last < |code|
    && (forall m :: first <= m < last ==> !Boundary(code, m))
    && (first > 0 ==> Boundary(code, first - 1))
    && (last < |code| - 1 ==> Boundary(code, last))
  }

  /** Blocks are equal or disjoint. */
  lemma BlocksPartition(code: Code, a: nat, b: nat, c: nat, d: nat)
    requires IsBlock(code, a, b) && IsBlock(code, c, d)
    ensures (a == c && b == d) || b < c || d < a
  {
  }

  lemma BlockInside(code: Code, first: nat, last: nat, m: nat)
    requires IsBlock(code, first, last) && first <= m < last
    ensures m < |code| - 1 && !Boundary(code, m)
  {
  }

  /** A label comes only first and a terminator only last. */
  lemma BlockShape(code: Code, first: nat, last: nat, m: nat)
    requires IsBlock(code, first, last) && first <= m <= last
    ensures (code[m].entry ==> m == first) && (Ends(code[m]) ==> m == last)
  {
    if m < last {
      assert !Boundary(code, m);
    }
    if first < m {
      assert !Boundary(code, m - 1);
    }
  }

  // ---------------------------------------------------------------- the search

  ghost predicate IsTarget(code: Code, addr: nat, t: nat) {
    t < |code| && code[t].addr == addr && forall j :: 0 <= j < t ==> code[j].addr < addr
  }

  /** The backward walk ends at a label that is itself a terminator. */
  ghost predicate BehindEndingLabel(code: Code, t: nat)
    requires t < |code|
  {
    exists l :: 0 <= l < t && code[l].entry && Ends(code[l]) && forall m :: l < m <= t ==> !code[m].entry && !Ends(code[m])
  }

  /** The block that is returned contains the target. */
  ghost predicate Covered(code: Code, t: nat)
    requires t < |code|
  {
    (code[t].entry || !Ends(code[t])) && !BehindEndingLabel(code, t)
  }

  method FindTarget(code: Code, addr: nat) returns (r: Option<nat>)
    ensures r.Some? ==> IsTarget(code, addr, r.value)
    ensures r.None? ==> forall t: nat :: !IsTarget(code, addr, t)
  {
    var i := 0;
    while i < |code|
      invariant 0 <= i <= |code| && forall j :: 0 <= j < i ==> code[j].addr < addr
    {
      if code[i].addr == addr {
        return Some(i);
      } else if code[i].addr > addr {
        return None;
      }
      i := i + 1;
    }
    return None;
  }

  /** Backwards to a label or past a terminator; None if the walk starts on the last instruction and that
      is a terminator. */
  method FindStart(code: Code, t: nat) returns (r: Option<nat>)
    requires t < |code|
    ensures r.None? <==> t == |code| - 1 && Ends(code[t]) && !code[t].entry
    ensures r.Some? ==> r.value < |code| && (r.value > 0 ==> Boundary(code, r.value - 1))
    ensures r.Some? && r.value > t ==> Ends(code[t]) && !code[t].entry
    ensures r.Some? && r.value <= t ==> (code[t].entry || !Ends(code[t]))
    ensures r.Some? ==> forall m :: r.value < m <= t ==> !code[m].entry && !Ends(code[m])
    ensures r.Some? && r.value < t && !code[r.value].entry ==> !Ends(code[r.value])
    ensures r.Some? && 0 < r.value <= t && !code[r.value].entry ==> !code[r.value - 1].entry
  {
    var start := t;
    var i: int := t;
    while i >= 0
      invariant -1 <= i <= t && start == if i == t then t else i + 1
      invariant forall m :: i < m <= t ==> !code[m].entry && !Ends(code[m])
    {
      if code[i].entry {
        start := i;
        break;
      }
      if Ends(code[i]) {
        if i + 1 < |code| {
          start := i + 1;
        } else {
          return None;
        }
        break;
      }
      start := i;
      i := i - 1;
    }
    return Some(start);
  }

  /** Forwards to a terminator or up to a label. */
  method FindEnd(code: Code, start: nat) returns (end: nat)
    requires start < |code|
    ensures start <= end < |code| && (forall m :: start <= m < end ==> !Boundary(code, m))
    ensures end < |code| - 1 ==> Boundary(code, end)
  {
    end := start;
    var i := start;
    while i < |code|
      invariant start <= i <= |code| && end == if i == start then start else i - 1
      invariant forall m :: start <= m < i ==> !Ends(code[m]) && (start < m ==> !code[m].entry)
    {
      if code[i].entry && i > start {
        end := i - 1;
        break;
      }
      if Ends(code[i]) {
        end := i;
        break;
      }
      end := i;
      i := i + 1;
    }
  }

  lemma BlockEndsAt(code: Code, start: nat, end: nat, l: nat, t: nat)
    requires IsBlock(code, start, end) && l < t <= end && start <= t && Ends(code[l])
    requires forall m :: l < m <= t ==> !code[m].entry && !Ends(code[m])
    ensures l == start - 1 && !code[start].entry
  {
    if start <= l {
      BlockInside(code, start, end, l);
    } else {
      assert Boundary(code, start - 1);
    }
  }

  /** A block that does not start past the target holds it exactly when the walk back met no terminator. */
  lemma HoldsTarget(code: Code, t: nat, start: nat, end: nat)
    requires IsBlock(code, start, end) && start <= t < |code| && (code[t].entry || !Ends(code[t]))
    requires forall m :: start < m <= t ==> !code[m].entry && !Ends(code[m])
    requires start < t && !code[start].entry ==> !Ends(code[start])
    requires 0 < start && !code[start].entry ==> !code[start - 1].entry
    ensures t <= end <==> Covered(code, t)
  {
    if t <= end {
      if BehindEndingLabel(code, t) {
        var l :| 0 <= l < t && code[l].entry && Ends(code[l]) && forall m :: l < m <= t ==> !code[m].entry && !Ends(code[m]);
        BlockEndsAt(code, start, end, l, t);
      }
    } else {
      assert Boundary(code, end);
      assert !code[end + 1].entry;
      assert end == start && code[start].entry && Ends(code[start]);
    }
  }

  ghost predicate IsAnswer(code: Code, t: nat, block: seq<Inst>, first: nat, last: nat) {
    && t < |code| && IsBlock(code, first, last) && block == code[first..last + 1]
    && (first <= t <= last <==> Covered(code, t))
  }

  /** The result is always a block, and the target's own block exactly when the target is covered. */
  method FindBasicBlock(code: Code, addr: nat) returns (r: Option<seq<Inst>>)
    ensures r.None? <==> forall t: nat :: IsTarget(code, addr, t) ==> t == |code| - 1 && Ends(code[t]) && !code[t].entry
    ensures r.Some? ==> exists t, first, last :: IsTarget(code, addr, t) && IsAnswer(code, t, r.value, first, last)
  {
    var target := FindTarget(code, addr);
    if target.None? {
      return None;
    }
    var t := target.value;
    var found := FindStart(code, t);
    if found.None? {
      return None;
    }
    var start := found.value;
    var end := FindEnd(code, start);
    if start <= t {
      HoldsTarget(code, t, start, end);
    }
    var block: seq<Inst> := [];
    var i := start;
    while i <= end
      invariant start <= i <= end + 1 && block == code[start..i]
    {
      block := block + [code[i]];
      i := i + 1;
    }
    assert IsAnswer(code, t, block, start, end);
    return Some(block);
  }

  /** In a range whose addresses ascend, whose labels are no terminators, the block of an address that is
      no terminator is found and holds it. */
  lemma OrdinaryTargetsAreCovered(code: Code, t: nat)
    requires t < |code| && !Ends(code[t])
    requires forall i, j :: 0 <= i < j < |code| ==> code[i].addr < code[j].addr
    requires forall i :: 0 <= i < |code| && code[i].entry ==> !Ends(code[i])
    ensures Covered(code, t) && forall s :: IsTarget(code, code[t].addr, s) <==> s == t
  {
  }

  /** Two answers that hold their targets are the same block or share no position. */
  lemma AnswersPartition(code: Code, t: nat, s: nat, p: seq<Inst>, q: seq<Inst>, a: nat, b: nat, c: nat, d: nat)
    requires IsAnswer(code, t, p, a, b) && IsAnswer(code, s, q, c, d) && Covered(code, t) && Covered(code, s)
    ensures if a <= s <= b then p == q else b < c || d < a
  {
  }
}
