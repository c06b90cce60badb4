/** Every instruction as the set of assignments it makes, computed from the state before it. */
module Instructions {
  import opened Bits
  import opened Results
  import opened Memory
  import opened Machine
  import opened Opcode

  type Effect = Result<Writes>

  function SizeMask(n: nat): u64
    requires n < 4
  {
    if n == 0 then 0xFF else if n == 1 then 0xFFFF else if n == 2 then 0xFFFF_FFFF else 0xFFFF_FFFF_FFFF_FFFF
  }

  function Mask(w: u32, v: nat): nat { And(v, SizeMask(Size(w))) }

  /** Flips the sign bit and subtracts it: sign extension for a v of 8 << from bits. */
  function Sext(v: u64, from: nat): u64
    requires from < 4
  {
    var sign := Pow2(8 * Pow2(from) - 1);
    (Xor(v, sign) - sign) % TWO64
  }

  // ---------------------------------------------------------------- immediates

  function ExtendedImm9(imm9: nat, imm24: nat): nat {
    Xor(if And(imm9, 0x100) != 0 then Or(imm9, 0xFFFF_FFFF_FFFF_FF00) else imm9, Shl64(imm24, 8))
  }

  function ExtendedImm10(imm10: nat, imm24: nat): nat {
    Xor(if And(imm10, 0x200) != 0 then Or(imm10, 0xFFFF_FFFF_FFFF_FC00) else imm10, Shl64(imm24, 9))
  }

  function ExtendedImm16(imm16: nat, imm24: nat): nat { Xor(imm16, Shl64(imm24, 16)) }

  function MoveImm(imm18: nat, imm24: nat): nat { Or(imm18, Shl64(imm24, 18)) }

  function MoveNegImm(imm18: nat, imm24: nat): nat { Xor(Or(imm18, 0xFFFF_FFFF_FFFC_0000), Shl64(imm24, 18)) }

  function BranchImm(low: nat, imm24: nat): nat { Or(low, Shl64(imm24, 24)) }

  function AluSrc2(gpi: RegFile, w: u32, imm24: nat): nat {
    if AluHasImm(w) then ExtendedImm9(AluImm9(w), imm24) else Shl64(gpi[RegC(w)], AluShift(w))
  }

  // ---------------------------------------------------------------- ALU

  function SetFlag(fr: u32, mask: u32, on: bool): nat {
    if on then Or(fr, mask) else And(fr, 0xFFFF_FFFF - mask)
  }

  function Compare(fr: u32, a: u64, b: u64): nat {
    var d := Sub64(a, b);
    SetFlag(SetFlag(fr, 0x01, d == 0) % TWO32, 0x04, And(d, 0x8000_0000_0000_0000) != 0)
  }

  /** The value of a two-operand operation before it is cut to the operand size. */
  function Raw(oper: nat, a: u64, b: nat): Result<nat> {
    if oper == ADD then Ok(Add64(a, b))
    else if oper == SUB then Ok(Sub64(a, b % TWO64))
    else if oper == Opcode.XOR then Ok(Xor(a, b))
    else if oper == Opcode.OR then Ok(Or(a, b))
    else if oper == Opcode.AND then Ok(And(a, b))
    else if oper == LSL && b < 64 then Ok(Shl64(a, b))
    else if (oper == ASR || oper == LSR) && b < 64 then Ok(Shr(a, b))
    else Err(Undefined)
  }

  function Flag(b: bool): nat { if b then 1 else 0 }

  /** Moves, bit-fields and comparison: unit 0. */
  function AluAEffect(s: State, w: u32, imm24: nat): Effect {
    var oper, d := Operation(w), Gpi(RegA(w));
    var a := s.gpi[RegB(w)];
    if oper == MOVEIX then Ok(map[])
    else if oper == EXT then
      if ExtInsImm2(w) < 31 then Ok(map[d := And(Shr(a, ExtInsImm1(w)), Pow2(ExtInsImm2(w)) - 1)])
      else Err(Undefined)
    else if oper == INS then
      if ExtInsImm2(w) < 31
      then Ok(map[d := Or(s.gpi[RegA(w)], And(Shl64(a, ExtInsImm1(w)), Pow2(ExtInsImm2(w)) - 1))])
      else Err(Undefined)
    else if oper == MOVEI then Ok(map[d := MoveImm(AluMoveImm(w), imm24)])
    else if oper == MOVEN then Ok(map[d := MoveNegImm(AluMoveImm(w), imm24)])
    else if oper == MOVEUP then Ok(map[d := Or(Shl64(AluMoveImm(w), 32), Shl64(imm24, 42))])
    else if oper == SEXT then Ok(map[d := Mask(w, Sext(a, SextInsize(w)))])
    else if oper == CMP then Ok(map[Fr := Compare(s.fr, a, s.gpi[RegC(w)])])
    else Err(Undefined)
  }

  /** Two-operand arithmetic, tests and conditional moves: unit 1. */
  function AluBEffect(s: State, w: u32, imm24: nat): Effect {
    var oper, d := Operation(w), Gpi(RegA(w));
    var a, b := s.gpi[RegB(w)], AluSrc2(s.gpi, w, imm24);
    if ADD <= oper <= LSR then
      var v :- Raw(oper, a, b);
      Ok(map[d := Mask(w, v)])
    else if oper == SE then Ok(map[d := Flag(a == b)])
    else if oper == SEN then Ok(map[d := Flag(a != b)])
    else if oper == SLTS then Ok(map[d := Flag(Signed64(a) < Signed64(b % TWO64))])
    else if oper == SLTU then Ok(map[d := Flag(a < b)])
    else if oper == SAND then Ok(map[d := And(a, b)])
    else if oper == CMOVE then Ok(if b != 0 then map[d := Mask(w, a)] else map[])
    else if oper == CMOVEN then Ok(if b == 0 then map[d := Mask(w, a)] else map[])
    else Err(Undefined)
  }

  function AluEffect(s: State, w: u32, imm24: nat): Effect {
    if Operation(w) < ADD then AluAEffect(s, w, imm24) else AluBEffect(s, w, imm24)
  }

  // ---------------------------------------------------------------- MDU

  function MduEffect(s: State, w: u32, imm24: nat): Effect {
    var oper := Operation(w);
    var a := s.gpi[RegB(w)];
    var b := AluSrc2(s.gpi, w, imm24);
    if oper == DIV || oper == DIVU then
      if b == 0 then Err(Undefined)
      else Ok(map[Mdu(0) := Mask(w, Quotient(a, b)), Mdu(1) := Mask(w, Remainder(a, b))])
    else if oper == MUL || oper == MULU then Ok(map[Mdu(2) := Mask(w, Mul64(a, b))])
    else if oper == MOVETO then Ok(map[Gpi(RegA(w)) := s.mdu[MduPq(w)]])
    else if oper == MOVEFROM then Ok(map[Mdu(MduPq(w)) := a])
    else Err(Undefined)
  }

  // ---------------------------------------------------------------- LSU

  predicate IsLoad(oper: nat) { LD <= oper <= FSTSP && oper % 2 == 0 }

  predicate IsStore(oper: nat) { LD <= oper <= FSTSP && oper % 2 == 1 }

  predicate IsFloatAccess(oper: nat) { oper % 4 >= 2 }

  /** Address of the register, immediate and stack-pointer forms. */
  function LsuAddress(gpi: RegFile, w: u32, imm24: nat): u64 {
    var oper := Operation(w);
    if oper <= FST then Add64(gpi[RegB(w)], Shl64(gpi[RegC(w)], LsuShift(w)))
    else if oper <= FSTI then Add64(gpi[RegB(w)], ExtendedImm10(LsuImm10(w), imm24))
    else Add64(gpi[0], ExtendedImm16(LsuImm16(w), imm24))
  }

  function ByteCount(w: u32): (n: nat)
    ensures n in {1, 2, 4, 8}
  {
    if Size(w) == 0 then 1 else if Size(w) == 1 then 2 else if Size(w) == 2 then 4 else 8
  }

  /** A load replaces the low bytes of its destination and keeps the others. */
  function Merge(old_: u64, bytes: seq<u8>): nat {
    RoundDown(old_, Pow2(8 * |bytes|)) + FromBytes(bytes)
  }

  function ByteWrites(b: Bank, off: nat, bytes: seq<u8>): Writes {
    map l: Loc | l in ByteRange(b, off, |bytes|) :: bytes[l.off - off]
  }

  function ByteRange(b: Bank, off: nat, n: nat): (r: set<Loc>)
    ensures forall l: Loc :: l in r <==> l.Byte? && l.bank == b && off <= l.off < off + n
  {
    set i: nat | off <= i < off + n :: Byte(b, i)
  }

  function LsuEffect(s: State, w: u32, imm24: nat): Effect {
    var oper := Operation(w);
    var addr, n := LsuAddress(s.gpi, w, imm24), ByteCount(w);
    var reg := RegLoc(IsFloatAccess(oper), RegA(w));
    if IsLoad(oper) then
      var bytes :- ReadMem(s.mem, addr, n);
      Ok(map[reg := Merge(Get(s, reg), bytes)])
    else if IsStore(oper) then
      if Holds(s.mem, addr, n)
      then Ok(ByteWrites(SelectBank(addr), Offset(s.mem, addr), ToBytes(Get(s, reg), n)))
      else Err(OutsideBank)
    else Ok(map[])
  }

  // ---------------------------------------------------------------- BRU

  predicate Taken(oper: nat, fr: u32) {
    var z, n := And(fr, 0x01) != 0, And(fr, 0x04) != 0;
    if oper == BNE then z
    else if oper == BEQ then !z
    else if oper == BL then n
    else if oper == BLE then z || n
    else if oper == BG then !n
    else if oper == BGE then !z && !n
    else if oper == BRA then true
    else z
  }

  function BruEffect(s: State, w: u32, imm24: nat): Effect {
    var oper := Operation(w);
    var imm := BranchImm(Imm24(w), imm24);
    var ret := s.pc + 1 + Flag(IsPackage(w));
    if BNE <= oper <= BRA then Ok(if Taken(oper, s.fr) then map[Pc := s.pc + imm] else map[])
    else if oper == LOOP then Ok(if s.lc == 0 then map[Pc := s.pc + imm] else map[Lc := s.lc - 1])
    else if oper == JUMP then Ok(map[Pc := imm])
    else if oper == CALL then Ok(map[Lr := ret, Pc := imm])
    else if oper == CALLR then Ok(map[Lr := ret, Pc := s.pc + imm])
    else if oper == BRU_OTHER then BruOtherEffect(s, BruOtherIndex(w))
    else Err(Undefined)
  }

  function BruOtherEffect(s: State, id: nat): Effect {
    if id == JUMPBR_ID then Ok(map[Pc := s.br])
    else if id == RET_ID then Ok(map[Pc := s.lr])
    else if id == RETI_ID then Ok(map[Pc := s.ir])
    else if id == SYSCALL_ID then Ok(map[Ir := s.pc, Pc := 0x8000_0000, Syscall := 1])
    else Err(Undefined)
  }

  // ---------------------------------------------------------------- one unit, one bundle, one step

  function UnitEffect(s: State, w: u32, slot: nat, imm24: nat): Effect {
    var u := Unit(w);
    if u == 0 || u == 1 then AluEffect(s, w, imm24)
    else if u == 2 then LsuEffect(s, w, imm24)
    else if u == 6 && slot == 0 then MduEffect(s, w, imm24)
    else if u == 7 && slot == 0 then BruEffect(s, w, imm24)
    else Err(Undefined)
  }

  function ClearZero(s: State): State {
    s.(gpi := s.gpi[O.REG_ZERO := 0], gpf := s.gpf[O.REG_ZERO := 0])
  }

  function ExecuteUnit(s: State, w: u32, slot: nat, imm24: nat): Result<State> {
    var writes :- UnitEffect(ClearZero(s), w, slot, imm24);
    Ok(Commit(ClearZero(s), writes))
  }

  function BundleImm(first: u32, second: u32): nat {
    if IsPackage(first) && IsMoveix(second) then Imm24(second) else 0
  }

  predicate RunsSecond(first: u32, second: u32) { IsPackage(first) && !IsMoveix(second) }

  function ExecuteUnits(s: State, first: u32, second: u32): Result<State> {
    var imm24 := BundleImm(first, second);
    var t :- ExecuteUnit(s, first, 0, imm24);
    if RunsSecond(first, second) then ExecuteUnit(t, second, 1, imm24) else Ok(t)
  }

  function BundleLength(first: u32): nat { if IsPackage(first) then 2 else 1 }

  /** A bundle that changed pc advances by nothing. */
  function Advance(old_: u32, s: State, first: u32): nat { if old_ != s.pc then 0 else BundleLength(first) }

  function RealPc(pc: u32): nat { pc % 0x8000_0000 }

  /** Where instruction words are counted from: the byte WRAM_BEGIN maps to. */
  function FetchBase(m: Mem): nat { Offset(m, WRAM_BEGIN) }

  function FetchWord(m: Mem, index: nat): Result<u32> {
    hide FetchBase, FromBytes, Pow2;
    var at := FetchBase(m) + 4 * index;
    if at + 4 <= |m.wram| then
      FromBytesBound(m.wram[at..at + 4]);
      Pow2Values();
      Ok(FromBytes(m.wram[at..at + 4]))
    else Err(OutsideBank)
  }

  function Account(s: State, count: nat): State {
    s.(cc := (s.cc + 1) % TWO32, ic := (s.ic + count) % TWO32, pc := (s.pc + count) % TWO32)
  }

  function Step(s: State): Result<State> {
    var first :- FetchWord(s.mem, RealPc(s.pc));
    var second :- FetchWord(s.mem, RealPc(s.pc) + 1);
    var t :- ExecuteUnits(s, first, second);
    Ok(Account(t, Advance(s.pc, t, first)))
  }

  function Run(s: State, n: nat): Result<State>
    decreases n
  {
    if n == 0 then Ok(s)
    else
      match Step(s)
      case Ok(t) => Run(t, n - 1)
      case Err(e) => Err(e)
  }
}
