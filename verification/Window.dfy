/** The attachment window: `instruction_reads_register` and the loop of src/codegen.py that collects the
    offsets at which the overwrite may be attached. */
module Window {
  import opened Machine

  /** A `mov` reads its source; any other instruction reads every register that it mentions. */
  predicate Reads(i: Instr, target: Reg) {
    match i
    case Two(op, _, src, dst) => src == FromReg(target) || (op != Mov && dst == target)
    case Imul3(_, _, src, dst) => src == target || dst == target
  }

  predicate Mentions(i: Instr, target: Reg) {
    i.dst == target || (i.Two? && i.src == FromReg(target)) || (i.Imul3? && i.srcReg == target)
  }

  /** The readers are the instructions that mention the target, except the moves that only overwrite it. */
  lemma ReadsExact(i: Instr, target: Reg)
    ensures Reads(i, target) <==> Mentions(i, target) && !(i.Two? && i.op == Mov && i.src != FromReg(target))
  {
  }

  /** The candidates are all positions up to and including the first reader. */
  ghost predicate IsWindow(code: seq<Instr>, target: Reg, candidates: seq<nat>) {
    && |candidates| <= |code| && (forall j :: 0 <= j < |candidates| ==> candidates[j] == j)
    && (forall j :: 0 <= j < |candidates| - 1 ==> !Reads(code[j], target))
    && (|candidates| < |code| ==> candidates != [] && Reads(code[|candidates| - 1], target))
  }

  /** `code` is what follows the effective end. */
  method CandidateOffsets(code: seq<Instr>, target: Reg) returns (candidates: seq<nat>)
    ensures IsWindow(code, target, candidates)
  {
    candidates := [];
    var j := 0;
    while j < |code|
      invariant 0 <= j <= |code| && |candidates| == j
      invariant forall m :: 0 <= m < j ==> candidates[m] == m && !Reads(code[m], target)
    {
      candidates := candidates + [j];
      if Reads(code[j], target) {
        break;
      }
      j := j + 1;
    }
  }

  /** A position is a candidate exactly when no earlier instruction reads the target. */
  lemma CandidateExact(code: seq<Instr>, target: Reg, candidates: seq<nat>, j: nat)
    requires IsWindow(code, target, candidates)
    ensures j in candidates <==> j < |code| && forall m :: 0 <= m < j ==> !Reads(code[m], target)
  {
    if j < |candidates| {
      assert candidates[j] == j;
    }
  }

  // ---------------------------------------------------------------- the window is safe

  /** The register file on reaching candidate j, the target having been overwritten before candidate m. */
  function Reached(w: nat, code: seq<Instr>, target: Reg, value: nat, m: nat, j: nat, regs: Regs): Regs
    requires w > 0 && m <= j <= |code|
  {
    RunCpu(w, code[m..j], RunCpu(w, code[..m], regs)[target := value])
  }

  ghost predicate WritesTarget(code: seq<Instr>, target: Reg) {
    exists m :: 0 <= m < |code| && code[m].dst == target
  }

  /** Code that does not read the target carries its value through, or loses it at the first write. */
  lemma {:induction false} CarriedOrLost(w: nat, code: seq<Instr>, target: Reg, a: nat, b: nat, regs: Regs)
    requires w > 0 && forall m :: 0 <= m < |code| ==> !Reads(code[m], target)
    ensures var x, y := RunCpu(w, code, regs[target := a]), RunCpu(w, code, regs[target := b]);
            if WritesTarget(code, target) then x == y else x[target] == a && x == y[target := a]
  {
    if code != [] {
      var n := |code| - 1;
      CarriedOrLost(w, code[..n], target, a, b, regs);
      var x, y := RunCpu(w, code[..n], regs[target := a]), RunCpu(w, code[..n], regs[target := b]);
      assert forall m :: 0 <= m < n ==> code[..n][m] == code[m];
      assert Result(w, code[n], x) == Result(w, code[n], y);
      assert code[n].dst == target ==> WritesTarget(code, target);
      if WritesTarget(code[..n], target) {
        var m :| 0 <= m < n && code[..n][m].dst == target;
        assert code[m].dst == target;
      }
    }
  }

  /** Whatever the registers and the value, overwriting before the first candidate and before candidate j
      give the same registers there, exactly when no earlier instruction of the window writes the target. */
  lemma WindowExact(w: nat, code: seq<Instr>, target: Reg, candidates: seq<nat>, j: nat, regs: Regs)
    requires w > 0 && IsWindow(code, target, candidates) && j in candidates
    ensures (forall value: nat :: Reached(w, code, target, value, 0, j, regs) == Reached(w, code, target, value, j, j, regs))
            <==> !WritesTarget(code[..j], target)
  {
    assert forall m :: 0 <= m < j ==> !Reads(code[..j][m], target);
    if WritesTarget(code[..j], target) {
      CarriedOrLost(w, code[..j], target, 0, 1, regs);
      ReachedAt(w, code, target, 0, j, regs);
      ReachedAt(w, code, target, 1, j, regs);
      assert Reached(w, code, target, 0, j, j, regs)[target] == 0 && Reached(w, code, target, 1, j, j, regs)[target] == 1;
    } else {
      forall value: nat
        ensures Reached(w, code, target, value, 0, j, regs) == Reached(w, code, target, value, j, j, regs)
      {
        ReachedAt(w, code, target, value, j, regs);
        CarriedOrLost(w, code[..j], target, value, regs[target], regs);
        assert regs[target := regs[target]] == regs;
      }
    }
  }

  lemma ReachedAt(w: nat, code: seq<Instr>, target: Reg, value: nat, j: nat, regs: Regs)
    requires w > 0 && j <= |code|
    ensures Reached(w, code, target, value, 0, j, regs) == RunCpu(w, code[..j], regs[target := value])
    ensures Reached(w, code, target, value, j, j, regs) == RunCpu(w, code[..j], regs)[target := value]
  {
  }

  /** An overwrite j places into what follows position `start`. */
  lemma PatchedInside(w: nat, code: seq<Instr>, start: nat, target: Reg, j: nat, value: nat, regs: Regs)
    requires w > 0 && start + j <= |code|
    ensures RunPatched(w, code, start + j, target, value, regs) ==
            RunCpu(w, code[start..][j..], Reached(w, code[start..], target, value, j, j, RunCpu(w, code[..start], regs)))
  {
    var window := code[start..];
    assert window[j..] == code[start + j..];
    assert code[..start + j] == code[..start] + window[..j];
    RunAppend(w, code[..start], window[..j], regs);
    ReachedAt(w, window, target, value, j, RunCpu(w, code[..start], regs));
  }

  lemma PatchedAhead(w: nat, window: seq<Instr>, target: Reg, j: nat, value: nat, regs: Regs)
    requires w > 0 && j <= |window|
    ensures RunCpu(w, window[j..], Reached(w, window, target, value, 0, j, regs)) == RunCpu(w, window, regs[target := value])
  {
    ReachedAt(w, window, target, value, j, regs);
    assert window == window[..j] + window[j..];
    RunAppend(w, window[..j], window[j..], regs[target := value]);
  }

  /** So any candidate will do: the registers after the block are the same.  The window is what follows
      position `start`. */
  lemma AnyCandidateWillDo(w: nat, code: seq<Instr>, start: nat, target: Reg, candidates: seq<nat>, j: nat, value: nat, regs: Regs)
    requires w > 0 && start <= |code| && IsWindow(code[start..], target, candidates) && j in candidates
    requires !WritesTarget(code[start..][..j], target)
    ensures start + j <= |code|
    ensures RunPatched(w, code, start, target, value, regs) == RunPatched(w, code, start + j, target, value, regs)
  {
    var window, before := code[start..], RunCpu(w, code[..start], regs);
    WindowExact(w, window, target, candidates, j, before);
    assert Reached(w, window, target, value, 0, j, before) == Reached(w, window, target, value, j, j, before);
    PatchedInside(w, code, start, target, j, value, regs);
    PatchedAhead(w, window, target, j, value, before);
  }

  /** Code that does not write a register keeps it. */
  lemma {:induction false} UnwrittenIsKept(w: nat, code: seq<Instr>, r: Reg, regs: Regs)
    requires w > 0 && !WritesTarget(code, r)
    ensures RunCpu(w, code, regs)[r] == regs[r]
  {
    if code != [] {
      var n := |code| - 1;
      assert forall m :: 0 <= m < n ==> code[..n][m] == code[m];
      assert code[n].dst != r;
      UnwrittenIsKept(w, code[..n], r, regs);
    }
  }
}
