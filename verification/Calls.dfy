/** Where lr and pc go over whole runs: calls, returns and the step counters. */
module Calls {
  import opened Bits
  import opened Results
  import opened Memory
  import opened Machine
  import opened Instructions
  import opened Footprint
  import opened Opcode

  predicate IsCall(w: u32) { Operation(w) == CALL || Operation(w) == CALLR }

  predicate IsRet(w: u32) { Operation(w) == BRU_OTHER && BruOtherIndex(w) == RET_ID }

  // ---------------------------------------------------------------- who writes the control registers

  const CONTROL: set<Loc> := {Lr, Br, Pc, Cc, Ic}

  lemma AluLeavesControl(s: State, w: u32, imm24: nat)
    ensures WritesOf(AluEffect(s, w, imm24)) !! CONTROL
  {
    hide Bitwise, Pow2, RegA, RegB, RegC, Operation, AluSrc2, Sext, MoveImm, MoveNegImm, Mask, Raw, Compare;
  }

  lemma MduLeavesControl(s: State, w: u32, imm24: nat)
    ensures WritesOf(MduEffect(s, w, imm24)) !! CONTROL
  {
    hide Bitwise, Pow2, RegA, RegB, RegC, Operation, AluSrc2, Mask;
  }

  lemma LsuLeavesControl(s: State, w: u32, imm24: nat)
    ensures WritesOf(LsuEffect(s, w, imm24)) !! CONTROL
  {
    hide SelectBank, OffsetMask, Bitwise, Pow2, Operation, RegA, LsuAddress, ByteCount, Merge, ToBytes, ByteRange;
    hide ReadMem;
  }

  lemma BruControl(s: State, w: u32, imm24: nat)
    ensures Lr in WritesOf(BruEffect(s, w, imm24)) <==> IsCall(w)
    ensures WritesOf(BruEffect(s, w, imm24)) !! {Br, Cc, Ic}
  {
    hide Bitwise, Pow2, Operation, BruOtherIndex, BranchImm, Taken;
  }

  /** lr is written by the calls of slot 0 and by nothing else; slot 1 never touches pc. */
  lemma ControlWriters(s: State, w: u32, slot: nat, imm24: nat)
    ensures var e := UnitEffect(s, w, slot, imm24);
      && (Lr in WritesOf(e) <==> slot == 0 && IsCall(w))
      && WritesOf(e) !! {Br, Cc, Ic}
      && (slot != 0 ==> Pc !in WritesOf(e))
  {
    hide AluEffect, LsuEffect, MduEffect, BruEffect, Unit, Operation;
    UnitOfOperation(w);
    AluLeavesControl(s, w, imm24);
    MduLeavesControl(s, w, imm24);
    LsuLeavesControl(s, w, imm24);
    BruControl(s, w, imm24);
  }

  // ---------------------------------------------------------------- one bundle

  lemma FirstUnit(s: State, w: u32, imm24: nat)
    requires ExecuteUnit(s, w, 0, imm24).Ok?
    ensures var t := ExecuteUnit(s, w, 0, imm24).value;
      && t.cc == s.cc && t.ic == s.ic
      && t.lr == (if IsCall(w) then (s.pc + BundleLength(w)) % TWO32 else s.lr)
      && (IsRet(w) ==> t.pc == s.lr)
  {
    hide UnitEffect, Operation, BruOtherIndex;
    ControlWriters(ClearZero(s), w, 0, imm24);
    LinkValue(ClearZero(s), w, imm24);
  }

  lemma LinkValue(s: State, w: u32, imm24: nat)
    ensures IsCall(w) ==>
      var e := UnitEffect(s, w, 0, imm24);
      e.Ok? && Lr in e.value && e.value[Lr] == s.pc + BundleLength(w)
    ensures IsRet(w) ==> UnitEffect(s, w, 0, imm24) == Ok(map[Pc := s.lr])
  {
    hide Operation, BruOtherIndex, BranchImm, Unit, AluEffect, LsuEffect, MduEffect;
    UnitOfOperation(w);
  }

  lemma SecondUnit(s: State, w: u32, imm24: nat)
    requires ExecuteUnit(s, w, 1, imm24).Ok?
    ensures var t := ExecuteUnit(s, w, 1, imm24).value;
      t.cc == s.cc && t.ic == s.ic && t.lr == s.lr && t.pc == s.pc
  {
    hide UnitEffect;
    ControlWriters(ClearZero(s), w, 1, imm24);
  }

  /** The first word of the bundle at pc. */
  function Fetched(s: State): u32
    requires Step(s).Ok?
  {
    FetchWord(s.mem, RealPc(s.pc)).value
  }

  function NextBundle(s: State): u32
    requires Step(s).Ok?
  {
    (s.pc + BundleLength(Fetched(s))) % TWO32
  }

  /** Did the units of this bundle change pc? */
  predicate Jumped(s: State)
    requires Step(s).Ok?
  {
    Step(s).value.ic == s.ic
  }

  /** Does this word make pc move? A conditional branch when its test holds, LOOP when lc has run out, and
      all other instructions of the branch unit. */
  predicate Branches(s: State, w: u32) {
    var oper := Operation(w);
    && Unit(w) == 7
    && (BNE <= oper <= BRA ==> Taken(oper, s.fr))
    && (oper == LOOP ==> s.lc == 0)
  }

  lemma OnlyBranchesWritePc(s: State, w: u32, imm24: nat)
    requires UnitEffect(s, w, 0, imm24).Ok?
    ensures Pc in WritesOf(UnitEffect(s, w, 0, imm24)) <==> Branches(s, w)
  {
    hide AluEffect, LsuEffect, MduEffect, Unit, Operation, BruOtherIndex, BranchImm, Taken;
    AluLeavesControl(s, w, imm24);
    MduLeavesControl(s, w, imm24);
    LsuLeavesControl(s, w, imm24);
  }

  /** The extension word's contribution to the immediate of the bundle at pc. */
  function FetchedImm(s: State): nat
    requires Step(s).Ok?
  {
    BundleImm(Fetched(s), FetchWord(s.mem, RealPc(s.pc) + 1).value)
  }

  lemma FirstPc(s: State, w: u32, imm24: nat)
    requires ExecuteUnit(s, w, 0, imm24).Ok?
    ensures var e := UnitEffect(ClearZero(s), w, 0, imm24);
      && e.Ok? && (Branches(s, w) ==> Pc in e.value)
      && ExecuteUnit(s, w, 0, imm24).value.pc == if Branches(s, w) then e.value[Pc] % TWO32 else s.pc
  {
    hide UnitEffect, Unit, Operation, Taken;
    OnlyBranchesWritePc(ClearZero(s), w, imm24);
  }

  /** A bundle jumps exactly when its first word is a branch that goes, and goes somewhere else. */
  lemma JumpedIff(s: State)
    requires Step(s).Ok?
    ensures
      var first, imm24 := Fetched(s), FetchedImm(s);
      var e := UnitEffect(ClearZero(s), first, 0, imm24);
      && e.Ok? && (Branches(s, first) ==> Pc in e.value)
      && (Jumped(s) <==> Branches(s, first) && e.value[Pc] % TWO32 != s.pc)
  {
    hide ExecuteUnit, UnitEffect, FetchWord, RealPc, Branches;
    var first, second := Fetched(s), FetchWord(s.mem, RealPc(s.pc) + 1).value;
    var imm24 := FetchedImm(s);
    FirstPc(s, first, imm24);
    FirstUnit(s, first, imm24);
    var t := ExecuteUnit(s, first, 0, imm24).value;
    if RunsSecond(first, second) {
      SecondUnit(t, second, imm24);
    }
  }

  lemma StepControl(s: State)
    requires Step(s).Ok?
    ensures var t := Step(s).value;
      && t.lr == (if IsCall(Fetched(s)) then NextBundle(s) else s.lr)
      && t.cc == (s.cc + 1) % TWO32
      && (!Jumped(s) ==> t.pc == NextBundle(s) && t.ic == (s.ic + BundleLength(Fetched(s))) % TWO32)
      && (IsRet(Fetched(s)) ==> t.pc == (if s.pc == s.lr then NextBundle(s) else s.lr))
  {
    hide ExecuteUnit, FetchWord, RealPc, Operation, BruOtherIndex;
    var first, second := Fetched(s), FetchWord(s.mem, RealPc(s.pc) + 1).value;
    var imm24 := BundleImm(first, second);
    FirstUnit(s, first, imm24);
    if RunsSecond(first, second) {
      SecondUnit(ExecuteUnit(s, first, 0, imm24).value, second, imm24);
    }
  }

  // ---------------------------------------------------------------- runs

  /** The return address left by the last call of the run, or `link` when it makes none. */
  function LastLink(s: State, n: nat, link: u32): u32
    requires Run(s, n).Ok?
    decreases n
  {
    hide Step, Fetched, IsCall, NextBundle;
    if n == 0 then link
    else LastLink(Step(s).value, n - 1, if IsCall(Fetched(s)) then NextBundle(s) else link)
  }

  ghost predicate CallFree(s: State, n: nat)
    requires Run(s, n).Ok?
    decreases n
  {
    hide Step, Fetched, IsCall;
    n > 0 ==> !IsCall(Fetched(s)) && CallFree(Step(s).value, n - 1)
  }

  /** lr always holds the address after the last call that ran. */
  lemma {:induction false} LrIsLastLink(s: State, n: nat)
    requires Run(s, n).Ok?
    ensures Run(s, n).value.lr == LastLink(s, n, s.lr)
    decreases n
  {
    hide Step, IsCall, Fetched, NextBundle;
    if n > 0 {
      StepControl(s);
      LrIsLastLink(Step(s).value, n - 1);
    }
  }

  lemma {:induction false} CallFreeKeepsLink(s: State, n: nat, link: u32)
    requires Run(s, n).Ok? && CallFree(s, n)
    ensures LastLink(s, n, link) == link
    decreases n
  {
    hide Step, IsCall, Fetched, NextBundle;
    if n > 0 {
      CallFreeKeepsLink(Step(s).value, n - 1, link);
    }
  }

  /** A call, a callee without calls, and a return: execution is back at the bundle after the call,
      unless the return sits at that very address. */
  lemma CallReturns(s: State, n: nat)
    requires Step(s).Ok? && IsCall(Fetched(s))
    requires Run(Step(s).value, n).Ok? && CallFree(Step(s).value, n)
    requires var u := Run(Step(s).value, n).value; Step(u).Ok? && IsRet(Fetched(u))
    ensures var u := Run(Step(s).value, n).value;
      Step(u).value.pc == NextBundle(s) <==> u.pc != NextBundle(s)
  {
    hide Step, IsCall, IsRet, Fetched, Run;
    var t := Step(s).value;
    var u := Run(t, n).value;
    StepControl(s);
    LrIsLastLink(t, n);
    CallFreeKeepsLink(t, n, t.lr);
    StepControl(u);
  }

  lemma {:induction false} CyclesCountSteps(s: State, n: nat)
    requires Run(s, n).Ok?
    ensures Run(s, n).value.cc == (s.cc + n) % TWO32
    decreases n
  {
    hide Step, Fetched, IsCall, IsRet, NextBundle, Jumped;
    if n > 0 {
      StepControl(s);
      CyclesCountSteps(Step(s).value, n - 1);
    }
  }

  ghost predicate JumpFree(s: State, n: nat)
    requires Run(s, n).Ok?
    decreases n
  {
    hide Step, Jumped;
    n > 0 ==> !Jumped(s) && JumpFree(Step(s).value, n - 1)
  }

  /** No bundle of the run starts with a branch that goes. */
  ghost predicate BranchFree(s: State, n: nat)
    requires Run(s, n).Ok?
    decreases n
  {
    hide Step, Fetched, Branches;
    n > 0 ==> !Branches(s, Fetched(s)) && BranchFree(Step(s).value, n - 1)
  }

  lemma {:induction false} BranchFreeIsJumpFree(s: State, n: nat)
    requires Run(s, n).Ok? && BranchFree(s, n)
    ensures JumpFree(s, n)
    decreases n
  {
    hide Step, Jumped, Fetched, Branches, UnitEffect;
    if n > 0 {
      JumpedIff(s);
      BranchFreeIsJumpFree(Step(s).value, n - 1);
    }
  }

  lemma SameDifference(p: int, i: int, d: int)
    ensures ((p + d) % TWO32 - (i + d) % TWO32) % TWO32 == (p - i) % TWO32
  {
    var k := (i + d) / TWO32 - (p + d) / TWO32;
    assert (p + d) % TWO32 - (i + d) % TWO32 == p - i + k * TWO32;
    ModAddMultiple(p - i, k, TWO32);
  }

  /** Along straight-line execution pc and ic advance together. */
  lemma {:induction false} PcFollowsIc(s: State, n: nat)
    requires Run(s, n).Ok? && JumpFree(s, n)
    ensures var t := Run(s, n).value; (t.pc - t.ic) % TWO32 == (s.pc - s.ic) % TWO32
    decreases n
  {
    hide Step, Jumped, Fetched;
    if n > 0 {
      StepControl(s);
      SameDifference(s.pc, s.ic, BundleLength(Fetched(s)));
      PcFollowsIc(Step(s).value, n - 1);
    }
  }
}
