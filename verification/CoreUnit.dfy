/** The core object: registers updated in place, unit by unit, against the effects of Instructions. */
module CoreUnit {
  import opened Bits
  import opened Memory
  import opened Machine
  import opened Instructions
  import opened Opcode
  import opened MemoryUnit
  import LoadStore
  import Flags

  class AxCore {
    var lr: u32
    var br: u32
    var lc: u32
    var fr: u32
    var pc: u32
    var ir: u32
    var cc: u32
    var ic: u32
    var syscall: u32
    const gpi: array<u64>
    const gpf: array<u64>
    const mdu: array<u64>
    const spm: array<u8>
    const memory: AxMemory

    constructor (memory: AxMemory)
      requires memory.WellFormed()
      ensures this.memory == memory && fresh(gpi) && fresh(gpf) && fresh(mdu) && fresh(spm)
      ensures Valid()
      ensures lr == br == lc == fr == pc == ir == cc == ic == syscall == 0
      ensures gpi[..] == gpf[..] == seq(64, _ => 0) && mdu[..] == seq(4, _ => 0) && spm[..] == seq(SPM_SIZE, _ => 0)
    {
      lr, br, lc, fr, pc, ir, cc, ic, syscall := 0, 0, 0, 0, 0, 0, 0, 0, 0;
      gpi := new u64[64](_ => 0);
      gpf := new u64[64](_ => 0);
      mdu := new u64[4](_ => 0);
      spm := new u8[SPM_SIZE](_ => 0);
      this.memory := memory;
    }

    ghost predicate Valid() {
      && gpi.Length == 64 && gpf.Length == 64 && mdu.Length == 4
      && gpi != gpf && gpi != mdu && gpf != mdu
      && memory.Fits(spm)
      && {this as object, gpi, gpf, mdu, memory} !! ByteBuffers()
      && this as object !in {gpi as object, gpf, mdu}
    }

    ghost function ByteBuffers(): set<object> { memory.Buffers() + {spm} }

    ghost function Snapshot(): State
      requires Valid()
      reads this, gpi, gpf, mdu, spm, memory.Buffers()
    {
      State(lr, br, lc, fr, pc, ir, cc, ic, syscall, gpi[..], gpf[..], mdu[..], memory.Image(spm))
    }

    // -------------------------------------------------------------- ALU

    function AluSrc2Value(op: u32, reg: Reg, imm24: nat): nat
      requires Valid() && reg == RegC(op)
      reads gpi
      ensures AluSrc2Value(op, reg, imm24) == AluSrc2(gpi[..], op, imm24)
    {
      if !AluHasImm(op) then Shl64(gpi[reg], AluShift(op))
      else
        var tmp := AluImm9(op);
        if And(tmp, 0x100) != 0 then Xor(Or(tmp, 0xFFFF_FFFF_FFFF_FF00), Shl64(imm24, 8))
        else Xor(tmp, Shl64(imm24, 8))
    }

    method SetRegister(dst: Reg, value: nat)
      requires Valid()
      modifies gpi
      ensures Snapshot() == Commit(old(Snapshot()), map[Gpi(dst) := value])
    {
      hide Commit;
      CommitRegister(Snapshot(), false, dst, value);
      gpi[dst] := value % TWO64;
    }

    method SetMdu(q: nat, value: nat)
      requires Valid() && q < 4
      modifies mdu
      ensures Snapshot() == Commit(old(Snapshot()), map[Mdu(q) := value])
    {
      hide Commit;
      CommitMdu(Snapshot(), q, value);
      mdu[q] := value % TWO64;
    }

    method ExecuteAluA(op: u32, imm24: nat) returns (ok: bool)
      requires Valid()
      modifies this`fr, gpi
      ensures ok == AluAEffect(old(Snapshot()), op, imm24).Ok?
      ensures ok ==> Snapshot() == Commit(old(Snapshot()), AluAEffect(old(Snapshot()), op, imm24).value)
    {
      hide Commit, Bitwise, Pow2, RegA, RegB, RegC, Operation, Size, SizeMask, AluMoveImm, ExtInsImm1, ExtInsImm2;
      hide Shl64, Shr;
      var dst, src1, src2 := RegA(op), RegB(op), RegC(op);
      var oper := Operation(op);
      ok := true;
      if oper == MOVEIX {
        CommitNothing(Snapshot());
      } else if oper == EXT && ExtInsImm2(op) < 31 {
        SetRegister(dst, And(Shr(gpi[src1], ExtInsImm1(op)), Pow2(ExtInsImm2(op)) - 1));
      } else if oper == INS && ExtInsImm2(op) < 31 {
        SetRegister(dst, Or(gpi[dst], And(Shl64(gpi[src1], ExtInsImm1(op)), Pow2(ExtInsImm2(op)) - 1)));
      } else if oper == MOVEI {
        SetRegister(dst, Or(AluMoveImm(op), Shl64(imm24, 18)));
      } else if oper == MOVEN {
        SetRegister(dst, Xor(Or(AluMoveImm(op), 0xFFFF_FFFF_FFFC_0000), Shl64(imm24, 18)));
      } else if oper == MOVEUP {
        SetRegister(dst, Or(Shl64(AluMoveImm(op), 32), Shl64(imm24, 42)));
      } else if oper == SEXT {
        SetRegister(dst, And(Sext(gpi[src1], SextInsize(op)), SizeMask(Size(op))));
      } else if oper == CMP {
        CompareFlags(gpi[src1], gpi[src2]);
      } else {
        ok := false;
      }
    }

    method CompareFlags(a: u64, b: u64)
      requires Valid()
      modifies this`fr
      ensures Snapshot() == Commit(old(Snapshot()), map[Fr := Compare(old(fr), a, b)])
      ensures forall k: nat | k < 32 :: Flags.Bit(fr, k) == Flags.ComparedBit(old(fr), a, b, k)
    {
      hide Commit, Bitwise, Flags.Bit;
      forall k: nat | k < 32 {
        Flags.CompareBits(fr, a, b, k);
      }
      var tmp := Sub64(a, b);
      CommitControl(Snapshot(), Fr, Compare(fr, a, b));
      if tmp == 0 {
        fr := Or(fr, 0x01) % TWO32;
      } else {
        fr := And(fr, 0xFFFF_FFFE) % TWO32;
      }
      if And(tmp, 0x8000_0000_0000_0000) != 0 {
        fr := Or(fr, 0x04) % TWO32;
      } else {
        fr := And(fr, 0xFFFF_FFFB) % TWO32;
      }
    }

    method ExecuteAluB(op: u32, imm24: nat) returns (ok: bool)
      requires Valid()
      modifies gpi
      ensures ok == AluBEffect(old(Snapshot()), op, imm24).Ok?
      ensures ok ==> Snapshot() == Commit(old(Snapshot()), AluBEffect(old(Snapshot()), op, imm24).value)
    {
      hide Commit, Bitwise, Pow2, RegA, RegB, RegC, Operation, Size, SizeMask, AluSrc2, Shl64, Shr;
      var dst, a, b := RegA(op), gpi[RegB(op)], AluSrc2Value(op, RegC(op), imm24);
      var oper, mask := Operation(op), SizeMask(Size(op));
      ok := true;
      if oper == ADD {
        SetRegister(dst, And(Add64(a, b), mask));
      } else if oper == SUB {
        SetRegister(dst, And(Sub64(a, b % TWO64), mask));
      } else if oper == Opcode.XOR {
        SetRegister(dst, And(Xor(a, b), mask));
      } else if oper == Opcode.OR {
        SetRegister(dst, And(Or(a, b), mask));
      } else if oper == Opcode.AND {
        SetRegister(dst, And(And(a, b), mask));
      } else if oper == LSL && b < 64 {
        SetRegister(dst, And(Shl64(a, b), mask));
      } else if oper == ASR && b < 64 {
        SetRegister(dst, And(Shr(a, b), mask));
      } else if oper == LSR && b < 64 {
        SetRegister(dst, And(Shr(a, b), mask));
      } else {
        ok := ExecuteAluTests(op, imm24);
      }
    }

    method ExecuteAluTests(op: u32, imm24: nat) returns (ok: bool)
      requires Valid()
      requires var oper, b := Operation(op), AluSrc2(gpi[..], op, imm24);
        !(ADD <= oper <= LSR && (oper >= LSL ==> b < 64))
      modifies gpi
      ensures ok == AluBEffect(old(Snapshot()), op, imm24).Ok?
      ensures ok ==> Snapshot() == Commit(old(Snapshot()), AluBEffect(old(Snapshot()), op, imm24).value)
    {
      hide Commit, Bitwise, Pow2, RegA, RegB, RegC, Operation, Size, SizeMask, AluSrc2, Shl64, Shr;
      var dst, a, b := RegA(op), gpi[RegB(op)], AluSrc2Value(op, RegC(op), imm24);
      var oper, mask := Operation(op), SizeMask(Size(op));
      CommitNothing(Snapshot());
      ok := true;
      if oper == SE {
        SetRegister(dst, if a == b then 1 else 0);
      } else if oper == SEN {
        SetRegister(dst, if a != b then 1 else 0);
      } else if oper == SLTS {
        SetRegister(dst, if Signed64(a) < Signed64(b % TWO64) then 1 else 0);
      } else if oper == SLTU {
        SetRegister(dst, if a < b then 1 else 0);
      } else if oper == SAND {
        SetRegister(dst, And(a, b));
      } else if oper == CMOVE {
        if b != 0 {
          SetRegister(dst, And(a, mask));
        }
      } else if oper == CMOVEN {
        if b == 0 {
          SetRegister(dst, And(a, mask));
        }
      } else {
        ok := false;
      }
    }

    method ExecuteAlu(op: u32, imm24: nat) returns (ok: bool)
      requires Valid()
      modifies this`fr, gpi
      ensures ok == AluEffect(old(Snapshot()), op, imm24).Ok?
      ensures ok ==> Snapshot() == Commit(old(Snapshot()), AluEffect(old(Snapshot()), op, imm24).value)
    {
      hide Commit, AluAEffect, AluBEffect, Operation;
      if Operation(op) < ADD {
        ok := ExecuteAluA(op, imm24);
      } else {
        ok := ExecuteAluB(op, imm24);
      }
    }

    // -------------------------------------------------------------- MDU

    method ExecuteMdu(op: u32, imm24: nat) returns (ok: bool)
      requires Valid()
      modifies gpi, mdu
      ensures ok == MduEffect(old(Snapshot()), op, imm24).Ok?
      ensures ok ==> Snapshot() == Commit(old(Snapshot()), MduEffect(old(Snapshot()), op, imm24).value)
    {
      hide Commit, Bitwise, Pow2, RegA, RegB, RegC, Operation, Size, SizeMask, AluSrc2;
      var dst, src1, b := RegA(op), RegB(op), AluSrc2Value(op, RegC(op), imm24);
      var oper, mask := Operation(op), SizeMask(Size(op));
      ok := true;
      if (oper == DIV || oper == DIVU) && b != 0 {
        var q, r := And(Quotient(gpi[src1], b), mask), And(Remainder(gpi[src1], b), mask);
        CommitTwice(Snapshot(), map[Mdu(0) := q], map[Mdu(1) := r]);
        assert map[Mdu(0) := q] + map[Mdu(1) := r] == map[Mdu(0) := q, Mdu(1) := r];
        SetMdu(0, q);
        SetMdu(1, r);
      } else if oper == MUL || oper == MULU {
        SetMdu(2, And(Mul64(gpi[src1], b), mask));
      } else if oper == MOVETO {
        SetRegister(dst, mdu[MduPq(op)]);
      } else if oper == MOVEFROM {
        SetMdu(MduPq(op), gpi[src1]);
      } else {
        ok := false;
      }
    }

    // -------------------------------------------------------------- LSU

    method DoLoad(fp: bool, reg: Reg, addr: u64, size: nat) returns (ok: bool)
      requires Valid()
      modifies gpi, gpf
      ensures ok == ReadMem(old(Snapshot()).mem, addr, size).Ok?
      ensures ok ==>
        var bytes := ReadMem(old(Snapshot()).mem, addr, size).value;
        var merged := Merge(Get(old(Snapshot()), RegLoc(fp, reg)), bytes);
        Snapshot() == Commit(old(Snapshot()), map[RegLoc(fp, reg) := merged])
    {
      hide Commit, SelectBank, Offset, Merge;
      var r := memory.Load(spm, addr, size);
      ok := r.Ok?;
      if r.Ok? {
        CommitRegister(Snapshot(), fp, reg, Merge(Get(Snapshot(), RegLoc(fp, reg)), r.value));
        if fp {
          gpf[reg] := Merge(gpf[reg], r.value) % TWO64;
        } else {
          gpi[reg] := Merge(gpi[reg], r.value) % TWO64;
        }
      }
    }

    method DoStore(fp: bool, reg: Reg, addr: u64, size: nat) returns (ok: bool)
      requires Valid()
      modifies spm, memory.Buffers()
      ensures ok == Holds(old(Snapshot()).mem, addr, size)
      ensures ok ==>
        var s := old(Snapshot());
        var bytes := ToBytes(Get(s, RegLoc(fp, reg)), size);
        Snapshot() == Commit(s, ByteWrites(SelectBank(addr), Offset(s.mem, addr), bytes))
    {
      hide Commit, SelectBank, Offset, ToBytes, ByteWrites;
      ghost var s := Snapshot();
      var bytes := ToBytes(if fp then gpf[reg] else gpi[reg], size);
      ok := memory.Store(spm, addr, bytes);
      if ok {
        LoadStore.CommitBytes(s, SelectBank(addr), Offset(s.mem, addr), bytes);
      }
    }

    method ExecuteLsu(op: u32, imm24: nat) returns (ok: bool)
      requires Valid()
      modifies gpi, gpf, spm, memory.Buffers()
      ensures ok == LsuEffect(old(Snapshot()), op, imm24).Ok?
      ensures ok ==> Snapshot() == Commit(old(Snapshot()), LsuEffect(old(Snapshot()), op, imm24).value)
    {
      hide Commit, Bitwise, Pow2, RegA, RegB, RegC, Operation, SelectBank, Offset, ToBytes, ByteWrites, Merge, ReadMem;
      hide ExtendedImm10, ExtendedImm16, Shl64, LsuShift, Size;
      var reg, base, off, size := RegA(op), gpi[RegB(op)], gpi[RegC(op)], ByteCount(op);
      var oper := Operation(op);
      var byReg := Add64(base, Shl64(off, LsuShift(op)));
      var byImm := Add64(base, ExtendedImm10(LsuImm10(op), imm24));
      var bySp := Add64(gpi[0], ExtendedImm16(LsuImm16(op), imm24));
      if oper == LD {
        ok := DoLoad(false, reg, byReg, size);
      } else if oper == ST {
        ok := DoStore(false, reg, byReg, size);
      } else if oper == FLD {
        ok := DoLoad(true, reg, byReg, size);
      } else if oper == FST {
        ok := DoStore(true, reg, byReg, size);
      } else if oper == LDI {
        ok := DoLoad(false, reg, byImm, size);
      } else if oper == STI {
        ok := DoStore(false, reg, byImm, size);
      } else if oper == FLDI {
        ok := DoLoad(true, reg, byImm, size);
      } else if oper == FSTI {
        ok := DoStore(true, reg, byImm, size);
      } else if oper == LDSP {
        ok := DoLoad(false, reg, bySp, size);
      } else if oper == STSP {
        ok := DoStore(false, reg, bySp, size);
      } else if oper == FLDSP {
        ok := DoLoad(true, reg, bySp, size);
      } else if oper == FSTSP {
        ok := DoStore(true, reg, bySp, size);
      } else {
        CommitNothing(Snapshot());
        ok := true;
      }
    }

    // -------------------------------------------------------------- BRU

    /** pc moved by an offset that is not sign-extended. */
    method Branch(taken: bool, imm: nat)
      requires Valid()
      modifies this`pc
      ensures Snapshot() == Commit(old(Snapshot()), if taken then map[Pc := old(pc) + imm] else map[])
    {
      hide Commit;
      CommitNothing(Snapshot());
      CommitControl(Snapshot(), Pc, pc + imm);
      if taken {
        pc := (pc + imm) % TWO32;
      }
    }

    method Link(target: nat, ret: nat)
      requires Valid()
      modifies this`pc, this`lr
      ensures Snapshot() == Commit(old(Snapshot()), map[Lr := ret, Pc := target])
    {
      hide Commit;
      ghost var s := Snapshot();
      CommitTwice(s, map[Lr := ret], map[Pc := target]);
      assert map[Lr := ret] + map[Pc := target] == map[Lr := ret, Pc := target];
      CommitControl(s, Lr, ret);
      CommitControl(s.(lr := ret % TWO32), Pc, target);
      lr := ret % TWO32;
      pc := target % TWO32;
    }

    method ExecuteBranch(op: u32, imm: nat)
      requires Valid() && BNE <= Operation(op) <= BRA
      modifies this`pc
      ensures Snapshot() ==
        Commit(old(Snapshot()), if Taken(Operation(op), old(fr)) then map[Pc := old(pc) + imm] else map[])
    {
      hide Commit, Bitwise, Operation;
      var oper := Operation(op);
      if oper == BNE {
        Branch(And(fr, 0x01) != 0, imm);
      } else if oper == BEQ {
        Branch(And(fr, 0x01) == 0, imm);
      } else if oper == BL {
        Branch(And(fr, 0x04) != 0, imm);
      } else if oper == BLE {
        Branch(And(fr, 0x01) != 0 || And(fr, 0x04) != 0, imm);
      } else if oper == BG {
        Branch(And(fr, 0x04) == 0, imm);
      } else if oper == BGE {
        Branch(And(fr, 0x01) == 0 && And(fr, 0x04) == 0, imm);
      } else if oper == BRA {
        Branch(true, imm);
      } else {
        Branch(And(fr, 0x01) != 0, imm);
      }
    }

    method ExecuteBru(op: u32, imm24: nat) returns (ok: bool)
      requires Valid()
      modifies this`pc, this`lr, this`lc, this`ir, this`syscall
      ensures ok == BruEffect(old(Snapshot()), op, imm24).Ok?
      ensures ok ==> Snapshot() == Commit(old(Snapshot()), BruEffect(old(Snapshot()), op, imm24).value)
    {
      hide Commit, Bitwise, Pow2, Operation, BruOtherIndex, Taken, Shl64;
      var oper := Operation(op);
      var imm := Or(Imm24(op), Shl64(imm24, 24));
      var ret := pc + 1 + (if IsPackage(op) then 1 else 0);
      ok := true;
      if BNE <= oper <= BRA {
        ExecuteBranch(op, imm);
      } else if oper == LOOP {
        if lc == 0 {
          Branch(true, imm);
        } else {
          CommitControl(Snapshot(), Lc, lc - 1);
          lc := lc - 1;
        }
      } else if oper == JUMP {
        CommitControl(Snapshot(), Pc, imm);
        pc := imm % TWO32;
      } else if oper == CALL {
        Link(imm, ret);
      } else if oper == CALLR {
        Link(pc + imm, ret);
      } else if oper == BRU_OTHER {
        ok := ExecuteBruOther(BruOtherIndex(op));
      } else {
        ok := false;
      }
    }

    method ExecuteBruOther(id: nat) returns (ok: bool)
      requires Valid()
      modifies this`pc, this`lr, this`ir, this`syscall
      ensures ok == BruOtherEffect(old(Snapshot()), id).Ok?
      ensures ok ==> Snapshot() == Commit(old(Snapshot()), BruOtherEffect(old(Snapshot()), id).value)
    {
      hide Commit;
      ok := true;
      if id == JUMPBR_ID {
        CommitControl(Snapshot(), Pc, br);
        pc := br;
      } else if id == RET_ID {
        CommitControl(Snapshot(), Pc, lr);
        pc := lr;
      } else if id == RETI_ID {
        CommitControl(Snapshot(), Pc, ir);
        pc := ir;
      } else if id == SYSCALL_ID {
        EnterSyscall();
      } else if id == CALLBR_ID {
        pc := br;
        lr := pc;
        ok := false;
      } else {
        ok := false;
      }
    }

    method EnterSyscall()
      requires Valid()
      modifies this`pc, this`ir, this`syscall
      ensures Snapshot() == Commit(old(Snapshot()), map[Ir := old(pc), Pc := 0x8000_0000, Syscall := 1])
    {
      hide Commit;
      ghost var s, p := Snapshot(), pc;
      CommitTwice(s, map[Ir := p], map[Pc := 0x8000_0000]);
      CommitTwice(s, map[Ir := p, Pc := 0x8000_0000], map[Syscall := 1]);
      assert map[Ir := p] + map[Pc := 0x8000_0000] == map[Ir := p, Pc := 0x8000_0000];
      assert map[Ir := p, Pc := 0x8000_0000] + map[Syscall := 1]
        == map[Ir := p, Pc := 0x8000_0000, Syscall := 1];
      CommitControl(s, Ir, p);
      CommitControl(s.(ir := p), Pc, 0x8000_0000);
      CommitControl(s.(ir := p, pc := 0x8000_0000), Syscall, 1);
      ir := pc;
      pc := 0x8000_0000;
      syscall := 1;
    }

    // -------------------------------------------------------------- units and bundles

    method ExecuteUnit(op: u32, slot: nat, imm24: nat) returns (ok: bool)
      requires Valid()
      modifies this, gpi, gpf, mdu, spm, memory.Buffers()
      ensures ok == Instructions.ExecuteUnit(old(Snapshot()), op, slot, imm24).Ok?
      ensures ok ==> Snapshot() == Instructions.ExecuteUnit(old(Snapshot()), op, slot, imm24).value
    {
      hide Commit, AluEffect, LsuEffect, MduEffect, BruEffect, Unit;
      ghost var s := Snapshot();
      gpi[REG_ZERO] := 0;
      gpf[REG_ZERO] := 0;
      assert Snapshot() == ClearZero(s);
      var u := Unit(op);
      if u == 0 || u == 1 {
        ok := ExecuteAlu(op, imm24);
      } else if u == 2 {
        ok := ExecuteLsu(op, imm24);
      } else if u == 6 && slot == 0 {
        ok := ExecuteMdu(op, imm24);
      } else if u == 7 && slot == 0 {
        ok := ExecuteBru(op, imm24);
      } else {
        ok := false;
      }
    }

    /** Runs one bundle; count is how far the caller has to move pc. */
    method Execute(first: u32, second: u32) returns (ok: bool, count: nat)
      requires Valid()
      modifies this, gpi, gpf, mdu, spm, memory.Buffers()
      ensures ok == ExecuteUnits(old(Snapshot()), first, second).Ok?
      ensures ok ==>
        && Snapshot() == ExecuteUnits(old(Snapshot()), first, second).value
        && count == Advance(old(pc), Snapshot(), first)
    {
      hide Instructions.ExecuteUnit, Operation, Imm24;
      var oldPc := pc;
      var imm24 := if IsPackage(first) && IsMoveix(second) then Imm24(second) else 0;
      ok := ExecuteUnit(first, 0, imm24);
      if ok && IsPackage(first) && !IsMoveix(second) {
        ok := ExecuteUnit(second, 1, imm24);
      }
      count := if oldPc != pc then 0 else if IsPackage(first) then 2 else 1;
    }
  }
}
