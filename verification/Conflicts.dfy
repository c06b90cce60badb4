/** Conditions on the encodings under which two slots are independent. */
module Conflicts {
  import opened Bits
  import opened Memory
  import opened Machine
  import opened Instructions
  import opened Footprint
  import opened LoadStore
  import opened Opcode

  // ---------------------------------------------------------------- what an encoding names

  predicate IsAccess(w: u32) { LD <= Operation(w) <= FSTSP }

  /** The registers an encoding names as read. */
  function RegisterReads(w: u32, slot: nat): set<Loc> {
    var u := Unit(w);
    if u == 0 || u == 1 then AluReads(w)
    else if u == 2 then if IsAccess(w) then AddressReads(w) + {DataLoc(w)} else {}
    else if u == 6 && slot == 0 then MduReads(w)
    else if u == 7 && slot == 0 then BruReads(w)
    else {}
  }

  function AluWrites(w: u32): set<Loc> {
    if Operation(w) == MOVEIX then {} else if Operation(w) == CMP then {Fr} else {Gpi(RegA(w))}
  }

  function MduWrites(w: u32): set<Loc> {
    var oper := Operation(w);
    if oper == MOVETO then {Gpi(RegA(w))}
    else if oper == MOVEFROM then {Mdu(MduPq(w))}
    else if oper == DIV || oper == DIVU then {Mdu(0), Mdu(1)}
    else {Mdu(2)}
  }

  function BruWrites(w: u32): set<Loc> {
    var oper := Operation(w);
    if oper == LOOP then {Lc, Pc}
    else if oper == CALL || oper == CALLR then {Lr, Pc}
    else if oper == BRU_OTHER && BruOtherIndex(w) == SYSCALL_ID then {Ir, Pc, Syscall}
    else {Pc}
  }

  /** The registers an encoding names as written. */
  function RegisterWrites(w: u32, slot: nat): set<Loc> {
    var u := Unit(w);
    if u == 0 || u == 1 then AluWrites(w)
    else if u == 2 then if IsLoad(Operation(w)) then {DataLoc(w)} else {}
    else if u == 6 && slot == 0 then MduWrites(w)
    else if u == 7 && slot == 0 then BruWrites(w)
    else {}
  }

  /** The bytes an access maps to. */
  function Touched(s: State, w: u32, imm24: nat): set<Loc> {
    var addr := LsuAddress(s.gpi, w, imm24);
    ByteRange(SelectBank(addr), Offset(s.mem, addr), ByteCount(w))
  }

  ghost predicate Registers(locs: set<Loc>) { forall l: Loc | l in locs :: !l.Byte? }

  ghost predicate Bytes(locs: set<Loc>) { forall l: Loc | l in locs :: l.Byte? }

  lemma RegistersRead(w: u32, slot: nat)
    ensures Registers(RegisterReads(w, slot))
  {
    hide Operation, Unit, RegA, RegB, RegC, BruOtherIndex, IsFloatAccess, AluHasImm, MduPq;
  }

  lemma RegistersWritten(w: u32, slot: nat)
    ensures Registers(RegisterWrites(w, slot))
  {
    hide Operation, Unit, RegA, BruOtherIndex, IsLoad, IsFloatAccess, MduPq;
  }

  lemma BytesTouched(s: State, w: u32, imm24: nat)
    ensures Bytes(BytesRead(s, w, imm24)) && Bytes(BytesWritten(s, w, imm24))
  {
    hide LsuAddress, SelectBank, Offset, ByteCount, Operation;
  }

  // ---------------------------------------------------------------- footprints of the units

  lemma AluNames(s: State, w: u32, imm24: nat)
    ensures WritesOf(AluEffect(s, w, imm24)) <= AluWrites(w)
  {
    hide Bitwise, Pow2, RegA, RegB, RegC, Operation, AluSrc2, Sext, MoveImm, MoveNegImm, Mask, Raw, Compare;
  }

  lemma MduNames(s: State, w: u32, imm24: nat)
    ensures WritesOf(MduEffect(s, w, imm24)) <= MduWrites(w)
  {
    hide Bitwise, Pow2, RegA, RegB, RegC, Operation, AluSrc2, Mask;
  }

  lemma BruNames(s: State, w: u32, imm24: nat)
    ensures WritesOf(BruEffect(s, w, imm24)) <= BruWrites(w)
  {
    hide Bitwise, Pow2, Operation, BruOtherIndex, BranchImm, Taken;
  }

  /** Loads write one register and read bytes; stores write bytes; both read registers. */
  lemma LsuNames(s: State, w: u32, imm24: nat)
    ensures LsuReads(s, w, imm24) <=
      (if IsAccess(w) then AddressReads(w) + {DataLoc(w)} else {}) + BytesRead(s, w, imm24)
    ensures WritesOf(LsuEffect(s, w, imm24)) <=
      (if IsLoad(Operation(w)) then {DataLoc(w)} else {}) + BytesWritten(s, w, imm24)
  {
    hide SelectBank, OffsetMask, Bitwise, Pow2, Operation, RegA, LsuAddress, ByteCount, Merge, ToBytes, ByteRange;
    hide ReadMem, AddressReads, IsFloatAccess;
  }

  function BytesRead(s: State, w: u32, imm24: nat): set<Loc> {
    if IsLoad(Operation(w)) then Touched(s, w, imm24) else {}
  }

  function BytesWritten(s: State, w: u32, imm24: nat): set<Loc> {
    if IsStore(Operation(w)) then Touched(s, w, imm24) else {}
  }

  /** No unit reads or writes anything but what its encoding names and the bytes it maps to. */
  lemma NamesCover(s: State, w: u32, slot: nat, imm24: nat)
    ensures Reads(s, w, slot, imm24) <= RegisterReads(w, slot) + BytesRead(s, w, imm24)
    ensures WritesOf(UnitEffect(s, w, slot, imm24)) <= RegisterWrites(w, slot) + BytesWritten(s, w, imm24)
  {
    hide AluEffect, LsuEffect, MduEffect, BruEffect, AluReads, LsuReads, MduReads, BruReads, AddressReads;
    hide AluWrites, MduWrites, BruWrites, Touched, Unit, Operation, DataLoc;
    AluNames(s, w, imm24);
    MduNames(s, w, imm24);
    BruNames(s, w, imm24);
    LsuNames(s, w, imm24);
  }

  // ---------------------------------------------------------------- independence by encoding

  /** No register written by one slot is named by the other; r63 never counts. */
  predicate RegistersApart(a: u32, slotA: nat, b: u32, slotB: nat) {
    var wa, wb := RegisterWrites(a, slotA) - ZEROS, RegisterWrites(b, slotB) - ZEROS;
    wa !! RegisterReads(b, slotB) && wb !! RegisterReads(a, slotA) && wa !! wb
  }

  /** At most one slot accesses memory, or both load, or their mapped bytes do not overlap. */
  ghost predicate BytesApart(s: State, a: u32, b: u32) {
    || !IsAccess(a) || !IsAccess(b)
    || (IsLoad(Operation(a)) && IsLoad(Operation(b)))
    || !Overlap(s.mem, LsuAddress(s.gpi, a, 0), ByteCount(a), LsuAddress(s.gpi, b, 0), ByteCount(b))
  }

  lemma DisjointRanges(s: State, a: u32, b: u32)
    requires BytesApart(s, a, b)
    ensures var ra, wa := BytesRead(s, a, 0), BytesWritten(s, a, 0);
      var rb, wb := BytesRead(s, b, 0), BytesWritten(s, b, 0);
      wa !! rb && wb !! ra && wa !! wb
  {
    hide SelectBank, Offset, LsuAddress, ByteCount, Operation;
  }

  lemma ApartUnions(r: set<Loc>, rb: set<Loc>, w: set<Loc>, wb: set<Loc>)
    requires Registers(r) && Registers(w) && Bytes(rb) && Bytes(wb)
    requires (w - ZEROS) !! r && wb !! rb
    ensures ((w + wb) - ZEROS) !! (r + rb)
  {
  }

  /** Any two slots, of whatever units, are independent when the registers their encodings name do not
      conflict and the bytes they access do not. */
  lemma EncodingsIndependent(s: State, a: u32, b: u32)
    requires RegistersApart(a, 0, b, 1) && BytesApart(s, a, b)
    ensures Independent(s, a, 0, 0, b, 1, 0)
  {
    hide UnitEffect, Reads, RegisterReads, RegisterWrites, BytesRead, BytesWritten, BytesApart;
    NamesCover(s, a, 0, 0);
    NamesCover(s, b, 1, 0);
    RegistersRead(a, 0);
    RegistersRead(b, 1);
    RegistersWritten(a, 0);
    RegistersWritten(b, 1);
    BytesTouched(s, a, 0);
    BytesTouched(s, b, 0);
    DisjointRanges(s, a, b);
    var (ra, wa) := (RegisterReads(a, 0), RegisterWrites(a, 0));
    var (rb, wb) := (RegisterReads(b, 1), RegisterWrites(b, 1));
    ApartUnions(rb, BytesRead(s, b, 0), wa, BytesWritten(s, a, 0));
    ApartUnions(ra, BytesRead(s, a, 0), wb, BytesWritten(s, b, 0));
    ApartUnions(wb - ZEROS, BytesWritten(s, b, 0), wa, BytesWritten(s, a, 0));
  }

  /** Register operands of a two-operand ALU instruction. */
  function Operands(w: u32): set<Loc> { {Gpi(RegB(w))} + Src2Reads(w) }

  predicate IsArithmetic(w: u32) { ADD <= Operation(w) <= SAND }

  /** Two arithmetic slots are independent when neither writes what the other reads or writes. */
  lemma ArithmeticIndependent(s: State, a: u32, b: u32)
    requires IsArithmetic(a) && IsArithmetic(b)
    requires RegA(a) == REG_ZERO || (RegA(a) != RegA(b) && Gpi(RegA(a)) !in Operands(b))
    requires RegA(b) == REG_ZERO || (RegA(a) != RegA(b) && Gpi(RegA(b)) !in Operands(a))
    ensures Independent(s, a, 0, 0, b, 1, 0)
  {
    hide Independent, Unit, Operation, RegA, RegB, Src2Reads;
    UnitOfOperation(a);
    UnitOfOperation(b);
    EncodingsIndependent(s, a, b);
  }

  /** A register a load brings in may not be used by the other slot. */
  predicate KeepsOut(a: u32, b: u32) {
    IsLoad(Operation(a)) ==> DataLoc(a) in ZEROS || DataLoc(a) !in AddressReads(b) + {DataLoc(b)}
  }

  /** Two memory accesses are independent when their mapped bytes do not overlap, or both are loads, and
      neither loads a register the other uses. */
  lemma AccessesIndependent(s: State, a: u32, b: u32)
    requires IsAccess(a) && IsAccess(b) && KeepsOut(a, b) && KeepsOut(b, a)
    requires (IsLoad(Operation(a)) && IsLoad(Operation(b)))
      || !Overlap(s.mem, LsuAddress(s.gpi, a, 0), ByteCount(a), LsuAddress(s.gpi, b, 0), ByteCount(b))
    ensures Independent(s, a, 0, 0, b, 1, 0)
  {
    hide Independent, Unit, Operation, AddressReads, DataLoc, Overlap, LsuAddress, ByteCount;
    UnitOfOperation(a);
    UnitOfOperation(b);
    EncodingsIndependent(s, a, b);
  }

  /** A branch in the first slot is independent of every ALU instruction in the second, but for a CMP beside
      a conditional branch. */
  lemma BranchIndependent(s: State, a: u32, b: u32)
    requires Unit(a) == 7 && Unit(b) <= 1
    requires Operation(b) == CMP ==> !(BNE <= Operation(a) < BRA)
    ensures Independent(s, a, 0, 0, b, 1, 0)
  {
    hide Independent, Unit, Operation, RegA, RegB, RegC, BruOtherIndex, AluHasImm;
    UnitOfOperation(a);
    UnitOfOperation(b);
    EncodingsIndependent(s, a, b);
  }
}
