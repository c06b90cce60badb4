/** Which locations an instruction reads and writes, and why independent slots may run in any order. */
module Footprint {
  import opened Bits
  import opened Results
  import opened Memory
  import opened Machine
  import opened Instructions
  import opened Opcode

  // ---------------------------------------------------------------- what is read

  function Src2Reads(w: u32): set<Loc> { if AluHasImm(w) then {} else {Gpi(RegC(w))} }

  function AluReads(w: u32): set<Loc> {
    var oper := Operation(w);
    if oper in {MOVEIX, MOVEI, MOVEN, MOVEUP} then {}
    else if oper in {EXT, SEXT} then {Gpi(RegB(w))}
    else if oper == INS then {Gpi(RegA(w)), Gpi(RegB(w))}
    else if oper == CMP then {Gpi(RegB(w)), Gpi(RegC(w)), Fr}
    else {Gpi(RegB(w))} + Src2Reads(w)
  }

  function MduReads(w: u32): set<Loc> {
    if Operation(w) == MOVETO then {Mdu(MduPq(w))}
    else if Operation(w) == MOVEFROM then {Gpi(RegB(w))}
    else {Gpi(RegB(w))} + Src2Reads(w)
  }

  function AddressReads(w: u32): set<Loc> {
    if Operation(w) <= FST then {Gpi(RegB(w)), Gpi(RegC(w))}
    else if Operation(w) <= FSTI then {Gpi(RegB(w))}
    else {Gpi(0)}
  }

  function LsuReads(s: State, w: u32, imm24: nat): set<Loc> {
    var oper := Operation(w);
    var addr, n := LsuAddress(s.gpi, w, imm24), ByteCount(w);
    var reg := RegLoc(IsFloatAccess(oper), RegA(w));
    if IsLoad(oper) then AddressReads(w) + {reg} + ByteRange(SelectBank(addr), Offset(s.mem, addr), n)
    else if IsStore(oper) then AddressReads(w) + {reg}
    else {}
  }

  function BruReads(w: u32): set<Loc> {
    var oper, id := Operation(w), BruOtherIndex(w);
    if BNE <= oper < BRA then {Fr, Pc}
    else if oper in {BRA, CALL, CALLR} then {Pc}
    else if oper == LOOP then {Lc, Pc}
    else if oper != BRU_OTHER then {}
    else if id == JUMPBR_ID then {Br}
    else if id == RET_ID then {Lr}
    else if id == RETI_ID then {Ir}
    else if id == SYSCALL_ID then {Pc}
    else {}
  }

  function Reads(s: State, w: u32, slot: nat, imm24: nat): set<Loc> {
    var u := Unit(w);
    if u == 0 || u == 1 then AluReads(w)
    else if u == 2 then LsuReads(s, w, imm24)
    else if u == 6 && slot == 0 then MduReads(w)
    else if u == 7 && slot == 0 then BruReads(w)
    else {}
  }

  /** Nothing is written by an instruction that cannot run. */
  function WritesOf(e: Effect): set<Loc> { if e.Ok? then e.value.Keys else {} }

  ghost predicate Agree(s: State, t: State, locs: set<Loc>) {
    SameSizes(s.mem, t.mem) && forall l: Loc | l in locs && Exists(s, l) :: Get(s, l) == Get(t, l)
  }

  ghost predicate Zeroed(s: State) { s.gpi[REG_ZERO] == 0 && s.gpf[REG_ZERO] == 0 }

  // ---------------------------------------------------------------- the read footprint

  lemma AgreeGpi(s: State, t: State, locs: set<Loc>, r: Reg)
    requires Agree(s, t, locs) && Gpi(r) in locs
    ensures s.gpi[r] == t.gpi[r]
  {
    assert Get(s, Gpi(r)) == Get(t, Gpi(r));
  }

  lemma Src2Footprint(s: State, t: State, locs: set<Loc>, w: u32, imm24: nat)
    requires Agree(s, t, locs) && Src2Reads(w) <= locs
    ensures AluSrc2(s.gpi, w, imm24) == AluSrc2(t.gpi, w, imm24)
  {
    if !AluHasImm(w) {
      AgreeGpi(s, t, locs, RegC(w));
    }
  }

  lemma AluFootprint(s: State, t: State, w: u32, imm24: nat)
    requires Agree(s, t, AluReads(w))
    ensures AluEffect(s, w, imm24) == AluEffect(t, w, imm24)
  {
    hide Bitwise, Pow2, RegA, RegB, RegC, Operation, AluSrc2, Sext, MoveImm, MoveNegImm, Mask, Raw, Compare;
    var oper, locs := Operation(w), AluReads(w);
    if oper !in {MOVEIX, MOVEI, MOVEN, MOVEUP} {
      AgreeGpi(s, t, locs, RegB(w));
      if oper == INS {
        AgreeGpi(s, t, locs, RegA(w));
      } else if oper == CMP {
        AgreeGpi(s, t, locs, RegC(w));
        assert Get(s, Fr) == Get(t, Fr);
      } else if oper !in {EXT, SEXT} {
        Src2Footprint(s, t, locs, w, imm24);
      }
    }
  }

  lemma MduFootprint(s: State, t: State, w: u32, imm24: nat)
    requires Agree(s, t, MduReads(w))
    ensures MduEffect(s, w, imm24) == MduEffect(t, w, imm24)
  {
    hide Bitwise, Pow2, RegA, RegB, RegC, Operation, AluSrc2, Mask, MduPq;
    var locs := MduReads(w);
    if Operation(w) == MOVETO {
      assert Get(s, Mdu(MduPq(w))) == Get(t, Mdu(MduPq(w)));
    } else {
      AgreeGpi(s, t, locs, RegB(w));
      if Operation(w) != MOVEFROM {
        Src2Footprint(s, t, locs, w, imm24);
      }
    }
  }

  lemma BruFootprint(s: State, t: State, w: u32, imm24: nat)
    requires Agree(s, t, BruReads(w))
    ensures BruEffect(s, w, imm24) == BruEffect(t, w, imm24)
  {
    hide Bitwise, Pow2, Operation, BruOtherIndex, BranchImm;
    var oper := Operation(w);
    if BNE <= oper < BRA {
      assert Get(s, Fr) == Get(t, Fr) && Get(s, Pc) == Get(t, Pc);
    } else if oper in {BRA, CALL, CALLR} {
      assert Get(s, Pc) == Get(t, Pc);
    } else if oper == LOOP {
      assert Get(s, Lc) == Get(t, Lc) && Get(s, Pc) == Get(t, Pc);
    } else if oper == BRU_OTHER {
      BruOtherFootprint(s, t, w);
    }
  }

  lemma BruOtherFootprint(s: State, t: State, w: u32)
    requires Agree(s, t, BruReads(w)) && Operation(w) == BRU_OTHER
    ensures BruOtherEffect(s, BruOtherIndex(w)) == BruOtherEffect(t, BruOtherIndex(w))
  {
    hide Operation, BruOtherIndex;
    assert Lr in BruReads(w) ==> Get(s, Lr) == Get(t, Lr);
    assert Br in BruReads(w) ==> Get(s, Br) == Get(t, Br);
    assert Ir in BruReads(w) ==> Get(s, Ir) == Get(t, Ir);
    assert Pc in BruReads(w) ==> Get(s, Pc) == Get(t, Pc);
  }

  lemma AddressFootprint(s: State, t: State, locs: set<Loc>, w: u32, imm24: nat)
    requires Agree(s, t, locs) && AddressReads(w) <= locs
    ensures LsuAddress(s.gpi, w, imm24) == LsuAddress(t.gpi, w, imm24)
  {
    hide Bitwise, Pow2, RegB, RegC, Operation, ExtendedImm10, ExtendedImm16;
    if Operation(w) <= FST {
      AgreeGpi(s, t, locs, RegB(w));
      AgreeGpi(s, t, locs, RegC(w));
    } else if Operation(w) <= FSTI {
      AgreeGpi(s, t, locs, RegB(w));
    } else {
      AgreeGpi(s, t, locs, 0);
    }
  }

  lemma OffsetFootprint(m: Mem, n: Mem, addr: u64)
    requires SameSizes(m, n)
    ensures Offset(m, addr) == Offset(n, addr)
  {
    assert |m.Of(Wram)| == |n.Of(Wram)| && |m.Of(Spm2)| == |n.Of(Spm2)| && |m.Of(Spmt)| == |n.Of(Spmt)|;
  }

  lemma BytesFootprint(s: State, t: State, addr: u64, n: nat)
    requires Agree(s, t, ByteRange(SelectBank(addr), Offset(s.mem, addr), n))
    ensures ReadMem(s.mem, addr, n) == ReadMem(t.mem, addr, n)
  {
    hide SelectBank, OffsetMask, Bitwise;
    OffsetFootprint(s.mem, t.mem, addr);
    var b, off := SelectBank(addr), Offset(s.mem, addr);
    assert |s.mem.Of(b)| == |t.mem.Of(b)|;
    if off + n <= |s.mem.Of(b)| {
      var x, y := s.mem.Of(b), t.mem.Of(b);
      forall i: nat | off <= i < off + n ensures x[i] == y[i] {
        assert Byte(b, i) in ByteRange(b, off, n);
        assert Get(s, Byte(b, i)) == Get(t, Byte(b, i));
      }
      assert x[off..off + n] == y[off..off + n];
    }
  }

  lemma LsuFootprint(s: State, t: State, w: u32, imm24: nat)
    requires Agree(s, t, LsuReads(s, w, imm24))
    ensures LsuEffect(s, w, imm24) == LsuEffect(t, w, imm24)
    ensures LsuReads(s, w, imm24) == LsuReads(t, w, imm24)
  {
    hide SelectBank, OffsetMask, Bitwise, Pow2, Operation, RegA, LsuAddress, ByteCount, Merge, AddressReads;
    hide ToBytes, IsFloatAccess, ByteRange, ByteWrites, ReadMem;
    var oper, locs := Operation(w), LsuReads(s, w, imm24);
    var addr, n := LsuAddress(s.gpi, w, imm24), ByteCount(w);
    var reg := RegLoc(IsFloatAccess(oper), RegA(w));
    if IsLoad(oper) || IsStore(oper) {
      AddressFootprint(s, t, locs, w, imm24);
      OffsetFootprint(s.mem, t.mem, addr);
      assert reg in locs && Get(s, reg) == Get(t, reg);
      assert |s.mem.Of(SelectBank(addr))| == |t.mem.Of(SelectBank(addr))|;
      if IsLoad(oper) {
        BytesFootprint(s, t, addr, n);
      }
    }
  }

  /** An instruction's outcome, and what it reads, depend on nothing but the locations it reads. */
  lemma ReadFootprint(s: State, t: State, w: u32, slot: nat, imm24: nat)
    requires Agree(s, t, Reads(s, w, slot, imm24))
    ensures UnitEffect(s, w, slot, imm24) == UnitEffect(t, w, slot, imm24)
    ensures Reads(s, w, slot, imm24) == Reads(t, w, slot, imm24)
  {
    hide AluEffect, LsuEffect, MduEffect, BruEffect, AluReads, LsuReads, MduReads, BruReads, Unit;
    var u := Unit(w);
    if u == 0 || u == 1 {
      AluFootprint(s, t, w, imm24);
    } else if u == 2 {
      LsuFootprint(s, t, w, imm24);
    } else if u == 6 && slot == 0 {
      MduFootprint(s, t, w, imm24);
    } else if u == 7 && slot == 0 {
      BruFootprint(s, t, w, imm24);
    }
  }

  // ---------------------------------------------------------------- independent slots

  lemma GetClearZero(s: State, l: Loc)
    requires Exists(s, l)
    ensures Exists(ClearZero(s), l)
    ensures Get(ClearZero(s), l) == if l in ZEROS then 0 else Get(s, l)
  {
  }

  /** A write outside a set of locations, then clearing r63, leaves the set alone. */
  lemma CommitElsewhere(c: State, w: Writes, locs: set<Loc>)
    requires Zeroed(c) && (w.Keys - ZEROS) !! locs
    ensures Agree(c, ClearZero(Commit(c, w)), locs)
  {
    var t := ClearZero(Commit(c, w));
    assert SameSizes(c.mem, t.mem);
    forall l: Loc | l in locs && Exists(c, l) ensures Get(c, l) == Get(t, l) {
      GetCommit(c, w, l);
      GetClearZero(Commit(c, w), l);
    }
  }

  /** No read/write and no write/write conflict in either direction; r63 never counts. */
  ghost predicate Independent(c: State, a: u32, slotA: nat, immA: nat, b: u32, slotB: nat, immB: nat) {
    var wa := WritesOf(UnitEffect(c, a, slotA, immA)) - ZEROS;
    var wb := WritesOf(UnitEffect(c, b, slotB, immB)) - ZEROS;
    wa !! Reads(c, b, slotB, immB) && wb !! Reads(c, a, slotA, immA) && wa !! wb
  }

  /** Unit a, then unit b. */
  function Sequence(s: State, a: u32, slotA: nat, immA: nat, b: u32, slotB: nat, immB: nat): Result<State> {
    var t :- ExecuteUnit(s, a, slotA, immA);
    ExecuteUnit(t, b, slotB, immB)
  }

  lemma SecondSeesOldState(s: State, a: u32, slotA: nat, immA: nat, b: u32, slotB: nat, immB: nat)
    requires Independent(ClearZero(s), a, slotA, immA, b, slotB, immB)
    ensures
      var c := ClearZero(s);
      var ea, eb := UnitEffect(c, a, slotA, immA), UnitEffect(c, b, slotB, immB);
      var r := Sequence(s, a, slotA, immA, b, slotB, immB);
      && (r.Ok? <==> ea.Ok? && eb.Ok?)
      && (r.Ok? ==> r.value == Commit(ClearZero(Commit(c, ea.value)), eb.value))
  {
    hide UnitEffect, Reads, Commit;
    var c := ClearZero(s);
    var ea := UnitEffect(c, a, slotA, immA);
    if ea.Ok? {
      CommitElsewhere(c, ea.value, Reads(c, b, slotB, immB));
      ReadFootprint(c, ClearZero(Commit(c, ea.value)), b, slotB, immB);
    }
  }

  lemma TwoCommits(c: State, wa: Writes, wb: Writes)
    requires Zeroed(c) && (wa.Keys - ZEROS) !! (wb.Keys - ZEROS)
    ensures ClearZero(Commit(ClearZero(Commit(c, wa)), wb)) == ClearZero(Commit(c, wa + wb))
  {
    hide Commit;
    var x := ClearZero(Commit(c, wa));
    var y, z := ClearZero(Commit(x, wb)), ClearZero(Commit(c, wa + wb));
    CommitKeepsSizes(c, wa);
    CommitKeepsSizes(x, wb);
    CommitKeepsSizes(c, wa + wb);
    assert SameSizes(y.mem, z.mem);
    forall l: Loc | Exists(y, l) ensures Get(y, l) == Get(z, l) {
      assert Exists(x, l) && Exists(c, l) && Exists(z, l);
      GetCommit(c, wa, l);
      GetClearZero(Commit(c, wa), l);
      GetCommit(x, wb, l);
      GetClearZero(Commit(x, wb), l);
      GetCommit(c, wa + wb, l);
      GetClearZero(Commit(c, wa + wb), l);
    }
    SameState(y, z);
  }

  /** Independent slots: either order, or both reading the old state, end alike but for r63. */
  lemma OrderIrrelevant(s: State, a: u32, slotA: nat, immA: nat, b: u32, slotB: nat, immB: nat)
    requires Independent(ClearZero(s), a, slotA, immA, b, slotB, immB)
    ensures
      var c := ClearZero(s);
      var ea, eb := UnitEffect(c, a, slotA, immA), UnitEffect(c, b, slotB, immB);
      var ab := Sequence(s, a, slotA, immA, b, slotB, immB);
      var ba := Sequence(s, b, slotB, immB, a, slotA, immA);
      && (ab.Ok? <==> ea.Ok? && eb.Ok?) && (ba.Ok? <==> ea.Ok? && eb.Ok?)
      && (ab.Ok? ==>
            && ClearZero(ab.value) == ClearZero(ba.value)
            && ClearZero(ab.value) == ClearZero(Commit(c, ea.value + eb.value)))
  {
    hide UnitEffect, Reads, Commit, Sequence;
    var c := ClearZero(s);
    var ea, eb := UnitEffect(c, a, slotA, immA), UnitEffect(c, b, slotB, immB);
    SecondSeesOldState(s, a, slotA, immA, b, slotB, immB);
    SecondSeesOldState(s, b, slotB, immB, a, slotA, immA);
    if ea.Ok? && eb.Ok? {
      TwoCommits(c, ea.value, eb.value);
      TwoCommits(c, eb.value, ea.value);
      SwapUnion(c, ea.value, eb.value);
    }
  }

  lemma SwapUnion(c: State, wa: Writes, wb: Writes)
    requires (wa.Keys - ZEROS) !! (wb.Keys - ZEROS)
    ensures ClearZero(Commit(c, wa + wb)) == ClearZero(Commit(c, wb + wa))
  {
    hide Commit;
    var y, z := ClearZero(Commit(c, wa + wb)), ClearZero(Commit(c, wb + wa));
    CommitKeepsSizes(c, wa + wb);
    CommitKeepsSizes(c, wb + wa);
    assert SameSizes(y.mem, z.mem);
    forall l: Loc | Exists(y, l) ensures Get(y, l) == Get(z, l) {
      assert Exists(c, l) && Exists(z, l);
      assert !(l in wa.Keys - ZEROS && l in wb.Keys - ZEROS);
      GetCommit(c, wa + wb, l);
      GetClearZero(Commit(c, wa + wb), l);
      GetCommit(c, wb + wa, l);
      GetClearZero(Commit(c, wb + wa), l);
    }
    SameState(y, z);
  }

  /** A packaged bundle of two independent instructions. */
  lemma BundleIndependence(s: State, first: u32, second: u32)
    requires RunsSecond(first, second)
    requires Independent(ClearZero(s), first, 0, 0, second, 1, 0)
    ensures
      var c := ClearZero(s);
      var e1, e2 := UnitEffect(c, first, 0, 0), UnitEffect(c, second, 1, 0);
      var run, swapped := ExecuteUnits(s, first, second), Sequence(s, second, 1, 0, first, 0, 0);
      && (run.Ok? <==> swapped.Ok?) && (run.Ok? <==> e1.Ok? && e2.Ok?)
      && (run.Ok? ==>
            && ClearZero(run.value) == ClearZero(swapped.value)
            && ClearZero(run.value) == ClearZero(Commit(c, e1.value + e2.value))
            && Advance(s.pc, run.value, first) == Advance(s.pc, swapped.value, first))
  {
    hide UnitEffect, Reads, Commit, ExecuteUnit;
    OrderIrrelevant(s, first, 0, 0, second, 1, 0);
    var run, swapped := ExecuteUnits(s, first, second), Sequence(s, second, 1, 0, first, 0, 0);
    assert run == Sequence(s, first, 0, 0, second, 1, 0);
    if run.Ok? {
      assert run.value.pc == ClearZero(run.value).pc == ClearZero(swapped.value).pc == swapped.value.pc;
    }
  }
}
