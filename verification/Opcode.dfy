/** Fields of a 32-bit instruction word and the numbering of the operations. */
module Opcode {
  import opened Bits

  function Unit(w: u32): nat { w / 0x20 % 0x08 }

  function Operation(w: u32): nat { w / 0x02 % 0x80 }

  function Size(w: u32): (n: nat)
    ensures n < 4
  {
    w / 0x100 % 0x04
  }

  function SextInsize(w: u32): (n: nat)
    ensures n < 4
  {
    w / 0x800 % 0x04
  }

  function BruOtherIndex(w: u32): nat { w / 0x100 % 0x10 }

  type Reg = r: int | 0 <= r < 64

  const REG_ZERO: Reg := 63

  function RegC(w: u32): Reg { w / 0x4000 % 0x40 }

  function RegB(w: u32): Reg { w / 0x10_0000 % 0x40 }

  function RegA(w: u32): Reg { w / 0x400_0000 % 0x40 }

  predicate AluHasImm(w: u32) { w / 0x400 % 2 != 0 }

  function AluShift(w: u32): nat { w / 0x800 % 0x08 }

  function AluImm9(w: u32): nat { w / 0x800 % 0x200 }

  function ExtInsImm1(w: u32): nat { w / 0x100 % 0x40 }

  function ExtInsImm2(w: u32): nat { w / 0x4000 % 0x40 }

  function AluMoveImm(w: u32): nat { w / 0x100 % 0x4_0000 }

  function MduPq(w: u32): (n: nat)
    ensures n < 4
  {
    w / 0x800 % 0x04
  }

  function LsuShift(w: u32): nat { w / 0x800 % 0x08 }

  function LsuImm10(w: u32): nat { w / 0x400 % 0x400 }

  function LsuImm16(w: u32): nat { w / 0x400 % 0x1_0000 }

  function Imm24(w: u32): nat { w / 0x100 % 0x100_0000 }

  predicate IsPackage(w: u32) { w % 2 != 0 }

  predicate IsMoveix(w: u32) { Operation(w) == MOVEIX }

  /** The unit is the upper part of the operation number. */
  lemma UnitOfOperation(w: u32)
    ensures Unit(w) == Operation(w) / 16
  {
    ModSplit(w / 2, 16, 8);
    assert w / 0x20 == w / 2 / 16;
    assert w / 2 % 128 == 16 * (w / 2 / 16 % 8) + w / 2 % 16;
  }

  // ALU, unit 0
  const MOVEIX: nat := 0
  const EXT: nat := 2
  const INS: nat := 3
  const MOVEI: nat := 4
  const MOVEN: nat := 5
  const MOVEUP: nat := 7
  const SEXT: nat := 9
  const CMP: nat := 12
  // ALU, unit 1
  const ADD: nat := 16
  const SUB: nat := 17
  const XOR: nat := 18
  const OR: nat := 19
  const AND: nat := 20
  const LSL: nat := 21
  const ASR: nat := 22
  const LSR: nat := 23
  const SE: nat := 24
  const SEN: nat := 25
  const SLTS: nat := 26
  const SLTU: nat := 27
  const SAND: nat := 28
  const CMOVEN: nat := 30
  const CMOVE: nat := 31
  // LSU
  const LD: nat := 32
  const ST: nat := 33
  const FLD: nat := 34
  const FST: nat := 35
  const LDI: nat := 36
  const STI: nat := 37
  const FLDI: nat := 38
  const FSTI: nat := 39
  const LDSP: nat := 40
  const STSP: nat := 41
  const FLDSP: nat := 42
  const FSTSP: nat := 43
  // MDU
  const DIV: nat := 96
  const DIVU: nat := 97
  const MUL: nat := 98
  const MULU: nat := 99
  const MOVETO: nat := 100
  const MOVEFROM: nat := 101
  // BRU
  const BNE: nat := 112
  const BEQ: nat := 113
  const BL: nat := 114
  const BLE: nat := 115
  const BG: nat := 116
  const BGE: nat := 117
  const BRA: nat := 122
  const LOOP: nat := 123
  const JUMP: nat := 124
  const CALL: nat := 125
  const CALLR: nat := 126
  const BRU_OTHER: nat := 127
  const JUMPBR_ID: nat := 1
  const RET_ID: nat := 2
  const RETI_ID: nat := 3
  const SYSCALL_ID: nat := 4
  const CALLBR_ID: nat := 9
}
