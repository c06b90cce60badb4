/** Where branches and calls go, in numbers, and how a step accounts for it. */
module Branching {
  import opened Bits
  import opened Results
  import opened Machine
  import opened Instructions
  import opened Opcode
  import opened Semantics
  import opened Flags
  import opened Calls
  import Immediates

  /** The 24-bit field and, above it, the extension. */
  function Displacement(w: u32, imm24: nat): nat { Imm24(w) + 0x100_0000 * imm24 }

  lemma DisplacementIs(w: u32, imm24: nat)
    requires imm24 < 0x100_0000
    ensures BranchImm(Imm24(w), imm24) == Displacement(w, imm24)
  {
    hide BranchImm;
    Immediates.BranchValue(Imm24(w), imm24);
  }

  /** The tests of operations 112 to 122 on the zero and negative flags. */
  predicate TestHolds(oper: nat, fr: u32) {
    var z, n := Bit(fr, 0) == 1, Bit(fr, 2) == 1;
    if oper == 113 then !z
    else if oper == 114 then n
    else if oper == 115 then z || n
    else if oper == 116 then !n
    else if oper == 117 then !z && !n
    else oper == 122 || z
  }

  lemma TakenIs(oper: nat, fr: u32)
    requires 112 <= oper <= 122
    ensures Taken(oper, fr) <==> TestHolds(oper, fr)
  {
    hide Bit, Bitwise;
    FlagMasks();
    TestedBit(fr, Z_BIT);
    TestedBit(fr, N_BIT);
  }

  lemma WritesPc(s: State, w: u32, imm24: nat, v: nat)
    requires UnitEffect(ClearZero(s), w, 0, imm24) == Ok(map[Pc := v])
    ensures ExecuteUnit(s, w, 0, imm24) == Ok(Passed(s).(pc := v % TWO32))
  {
    hide UnitEffect, Commit;
    CommitControl(ClearZero(s), Pc, v);
  }

  /** BNE to BRA, 112 to 122: pc moves by the displacement when the test holds, and nothing else happens. */
  lemma BranchRuns(s: State, w: u32, imm24: nat)
    requires 112 <= Operation(w) <= 122 && imm24 < 0x100_0000
    ensures ExecuteUnit(s, w, 0, imm24) ==
      Ok(if TestHolds(Operation(w), s.fr) then Passed(s).(pc := (s.pc + Displacement(w, imm24)) % TWO32)
         else Passed(s))
  {
    hide Operation, Unit, BranchImm, Taken, TestHolds, Displacement, ExecuteUnit, BruOtherIndex;
    UnitOfOperation(w);
    DisplacementIs(w, imm24);
    TakenIs(Operation(w), s.fr);
    if TestHolds(Operation(w), s.fr) {
      WritesPc(s, w, imm24, s.pc + Displacement(w, imm24));
    } else {
      WritesNothing(s, w, 0, imm24);
    }
  }

  /** LOOP, 123: a branch when lc is 0, and a countdown otherwise. */
  lemma LoopRuns(s: State, w: u32, imm24: nat)
    requires Operation(w) == 123 && imm24 < 0x100_0000
    ensures ExecuteUnit(s, w, 0, imm24) ==
      Ok(if s.lc == 0 then Passed(s).(pc := (s.pc + Displacement(w, imm24)) % TWO32) else Passed(s).(lc := s.lc - 1))
  {
    hide Operation, Unit, BranchImm, Taken, Displacement, BruOtherIndex, Commit;
    UnitOfOperation(w);
    DisplacementIs(w, imm24);
    CommitControl(ClearZero(s), Pc, s.pc + Displacement(w, imm24));
    if s.lc > 0 {
      CommitControl(ClearZero(s), Lc, s.lc - 1);
    }
  }

  /** JUMP, 124: to the displacement itself. */
  lemma JumpRuns(s: State, w: u32, imm24: nat)
    requires Operation(w) == 124 && imm24 < 0x100_0000
    ensures ExecuteUnit(s, w, 0, imm24) == Ok(Passed(s).(pc := Displacement(w, imm24) % TWO32))
  {
    hide Operation, Unit, BranchImm, Taken, Displacement, ExecuteUnit, BruOtherIndex;
    UnitOfOperation(w);
    DisplacementIs(w, imm24);
    WritesPc(s, w, imm24, Displacement(w, imm24));
  }

  /** Where a call goes: CALL, 125, to the displacement, CALLR, 126, by it. */
  function CallTarget(s: State, w: u32, imm24: nat): u32 {
    if Operation(w) == 125 then Displacement(w, imm24) % TWO32 else (s.pc + Displacement(w, imm24)) % TWO32
  }

  /** Calls leave the address behind their bundle in lr. */
  lemma CallRuns(s: State, w: u32, imm24: nat)
    requires 125 <= Operation(w) <= 126 && imm24 < 0x100_0000
    ensures ExecuteUnit(s, w, 0, imm24) ==
      Ok(Passed(s).(lr := (s.pc + 1 + w % 2) % TWO32, pc := CallTarget(s, w, imm24)))
  {
    hide Operation, Unit, BranchImm, Taken, Displacement, BruOtherIndex, Commit;
    UnitOfOperation(w);
    DisplacementIs(w, imm24);
    var d := Displacement(w, imm24);
    LinkAndJump(ClearZero(s), s.pc + 1 + w % 2, if Operation(w) == 125 then d else s.pc + d);
  }

  lemma LinkAndJump(c: State, ret: nat, target: nat)
    ensures Commit(c, map[Lr := ret, Pc := target]) == c.(lr := ret % TWO32, pc := target % TWO32)
  {
    hide Commit;
    assert map[Lr := ret] + map[Pc := target] == map[Lr := ret, Pc := target];
    CommitTwice(c, map[Lr := ret], map[Pc := target]);
    CommitControl(c, Lr, ret);
    CommitControl(c.(lr := ret % TWO32), Pc, target);
  }

  /** Operation 127: jump to br, returns to lr and ir, and the system call; other indices are undefined. */
  lemma OtherBranchRuns(s: State, w: u32, imm24: nat)
    requires Operation(w) == 127
    ensures ExecuteUnit(s, w, 0, imm24) ==
      var id := BruOtherIndex(w);
      if id == 1 then Ok(Passed(s).(pc := s.br))
      else if id == 2 then Ok(Passed(s).(pc := s.lr))
      else if id == 3 then Ok(Passed(s).(pc := s.ir))
      else if id == 4 then Ok(Passed(s).(ir := s.pc, pc := 0x8000_0000, syscall := 1))
      else Err(Undefined)
  {
    hide Operation, Unit, BranchImm, Taken, BruOtherIndex, Commit;
    UnitOfOperation(w);
    var c := ClearZero(s);
    CommitControl(c, Pc, s.br);
    CommitControl(c, Pc, s.lr);
    CommitControl(c, Pc, s.ir);
    EntersSystem(c);
  }

  lemma EntersSystem(c: State)
    ensures Commit(c, map[Ir := c.pc, Pc := 0x8000_0000, Syscall := 1])
      == c.(ir := c.pc, pc := 0x8000_0000, syscall := 1)
  {
    hide Commit;
    var p := c.pc;
    assert map[Ir := p] + map[Pc := 0x8000_0000] == map[Ir := p, Pc := 0x8000_0000];
    assert map[Ir := p, Pc := 0x8000_0000] + map[Syscall := 1] == map[Ir := p, Pc := 0x8000_0000, Syscall := 1];
    CommitTwice(c, map[Ir := p], map[Pc := 0x8000_0000]);
    CommitTwice(c, map[Ir := p, Pc := 0x8000_0000], map[Syscall := 1]);
    CommitControl(c, Ir, p);
    CommitControl(c.(ir := p), Pc, 0x8000_0000);
    CommitControl(c.(ir := p, pc := 0x8000_0000), Syscall, 1);
  }

  // ---------------------------------------------------------------- position independence

  function Moved(s: State, d: nat): State { s.(pc := (s.pc + d) % TWO32) }

  lemma MoveThenAdd(p: nat, d: nat, e: nat)
    ensures ((p + d) % TWO32 + e) % TWO32 == ((p + e) % TWO32 + d) % TWO32
  {
    MultipleApart((p + d) % TWO32 + e, p + d + e, -((p + d) / TWO32), TWO32);
    MultipleApart((p + e) % TWO32 + d, p + e + d, -((p + e) / TWO32), TWO32);
  }

  /** Relative branches, loops and calls run from d words further on end d words further on. */
  lemma RelativeMoves(s: State, w: u32, imm24: nat, d: nat)
    requires (112 <= Operation(w) <= 123 || Operation(w) == 126) && imm24 < 0x100_0000
    ensures ExecuteUnit(s, w, 0, imm24).Ok? && ExecuteUnit(Moved(s, d), w, 0, imm24).Ok?
    ensures ExecuteUnit(Moved(s, d), w, 0, imm24).value.pc ==
      (ExecuteUnit(s, w, 0, imm24).value.pc + d) % TWO32
  {
    hide Operation, ExecuteUnit, TestHolds, Displacement;
    var t := Moved(s, d);
    MoveThenAdd(s.pc, d, Displacement(w, imm24));
    if Operation(w) <= 122 {
      BranchRuns(s, w, imm24);
      BranchRuns(t, w, imm24);
    } else if Operation(w) == 123 {
      LoopRuns(s, w, imm24);
      LoopRuns(t, w, imm24);
    } else {
      CallRuns(s, w, imm24);
      CallRuns(t, w, imm24);
    }
  }

  /** JUMP and CALL go to the same place wherever they run. */
  lemma AbsoluteStays(s: State, w: u32, imm24: nat, d: nat)
    requires 124 <= Operation(w) <= 125 && imm24 < 0x100_0000
    ensures ExecuteUnit(s, w, 0, imm24).Ok? && ExecuteUnit(Moved(s, d), w, 0, imm24).Ok?
    ensures ExecuteUnit(Moved(s, d), w, 0, imm24).value.pc == ExecuteUnit(s, w, 0, imm24).value.pc
  {
    hide Operation, ExecuteUnit, Displacement;
    if Operation(w) == 124 {
      JumpRuns(s, w, imm24);
      JumpRuns(Moved(s, d), w, imm24);
    } else {
      CallRuns(s, w, imm24);
      CallRuns(Moved(s, d), w, imm24);
    }
  }

  // ---------------------------------------------------------------- steps

  /** The extension a bundle carries: the operands of a packaged word of operation 0. */
  function Extension(first: u32, second: u32): nat {
    if first % 2 == 1 && second / 2 % 128 == 0 then second / 0x100 else 0
  }

  /** A bundle in raw terms: one unit with the extension, or two without. */
  lemma BundleRuns(s: State, first: u32, second: u32)
    ensures ExecuteUnits(s, first, second) ==
      match ExecuteUnit(s, first, 0, Extension(first, second))
      case Err(e) => Err(e)
      case Ok(t) => if first % 2 == 1 && second / 2 % 128 != 0 then ExecuteUnit(t, second, 1, 0) else Ok(t)
  {
    hide ExecuteUnit;
    BundleFields(first, second);
  }

  /** The bookkeeping of a step: one cycle, and one or two words for ic and pc unless pc has changed. */
  function Accounted(s: State, u: State, first: u32): State {
    var n := if u.pc == s.pc then 1 + first % 2 else 0;
    u.(cc := (u.cc + 1) % TWO32, ic := (u.ic + n) % TWO32, pc := (u.pc + n) % TWO32)
  }

  /** One step in raw terms: the bundle made of the words at pc modulo 2^31 and behind it. */
  lemma StepRuns(s: State, first: u32, second: u32)
    requires FetchWord(s.mem, s.pc % 0x8000_0000) == Ok(first)
    requires FetchWord(s.mem, s.pc % 0x8000_0000 + 1) == Ok(second)
    ensures Step(s) ==
      match ExecuteUnits(s, first, second)
      case Err(e) => Err(e)
      case Ok(u) => Ok(Accounted(s, u, first))
  {
    hide ExecuteUnits, FetchWord;
    BundleFields(first, second);
  }

  lemma BundleFields(first: u32, second: u32)
    ensures BundleImm(first, second) == Extension(first, second) < 0x100_0000
    ensures RunsSecond(first, second) <==> first % 2 == 1 && second / 2 % 128 != 0
    ensures BundleLength(first) == 1 + first % 2
  {
  }

  /** A bundle of a single word does nothing with the word behind it. */
  lemma SingleIgnoresNext(s: State, first: u32, x: u32, y: u32)
    requires first % 2 == 0
    ensures ExecuteUnits(s, first, x) == ExecuteUnits(s, first, y)
  {
    hide ExecuteUnit;
    BundleFields(first, x);
    BundleFields(first, y);
  }

  /** A call enters its callee, or passes on if it calls its own address; lr is the address behind the bundle. */
  lemma CallEnters(s: State)
    requires Step(s).Ok? && 125 <= Operation(Fetched(s)) <= 126
    ensures
      var first, ret := Fetched(s), (s.pc + 1 + Fetched(s) % 2) % TWO32;
      var target := CallTarget(s, first, FetchedImm(s));
      && Step(s).value.lr == ret
      && Step(s).value.pc == if target == s.pc then ret else target
  {
    hide ExecuteUnit, FetchWord, Operation, CallTarget, RealPc;
    var first, second := Fetched(s), FetchWord(s.mem, RealPc(s.pc) + 1).value;
    BundleFields(first, second);
    CallRuns(s, first, FetchedImm(s));
    if RunsSecond(first, second) {
      SecondUnit(ExecuteUnit(s, first, 0, FetchedImm(s)).value, second, FetchedImm(s));
    }
  }

  /** A call to another address, a callee of any length without calls, and a RET located elsewhere: execution
      starts at the target and ends up behind the call. */
  lemma CallAndReturn(s: State, n: nat)
    requires Step(s).Ok? && 125 <= Operation(Fetched(s)) <= 126
    requires CallTarget(s, Fetched(s), FetchedImm(s)) != s.pc
    requires Run(Step(s).value, n).Ok? && CallFree(Step(s).value, n)
    requires var u := Run(Step(s).value, n).value; Step(u).Ok? && IsRet(Fetched(u)) && u.pc != NextBundle(s)
    ensures Step(s).value.pc == CallTarget(s, Fetched(s), FetchedImm(s))
    ensures Step(Run(Step(s).value, n).value).value.pc == (s.pc + 1 + Fetched(s) % 2) % TWO32
  {
    hide Step, Run, Fetched, CallTarget, FetchedImm, Operation, BruOtherIndex;
    CallEnters(s);
    CallReturns(s, n);
  }
}
