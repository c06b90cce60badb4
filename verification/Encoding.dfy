/** Instruction words as the sums of their fields. */
module Encoding {
  import opened Bits
  import opened Opcode

  /** The digit of x at place value a, to the base b. */
  function Digit(x: nat, a: nat, b: nat): nat
    requires a > 0 && b > 0
  {
    x / a % b
  }

  /** What lies below a place value. */
  function Low(x: nat, a: nat): nat
    requires a > 0
  {
    x % a
  }

  lemma NextDigit(x: nat, a: nat, b: nat, ab: nat)
    requires a > 0 && b > 0 && ab == a * b
    ensures ab > 0 && Low(x, ab) == Low(x, a) + a * Digit(x, a, b) && Digit(x, a, b) < b
  {
    ModSplit(x, a, b);
  }

  /** Packaging bit, operation and 24 bits of operands. */
  lemma WordLayout(w: u32)
    ensures w == (if IsPackage(w) then 1 else 0) + 2 * Operation(w) + 0x100 * Imm24(w)
    ensures Operation(w) < 0x80 && Imm24(w) < 0x100_0000
    ensures IsMoveix(w) <==> Operation(w) == 0
  {
    var h := w / 2;
    ModSplit(h, 0x80, 0x100_0000);
    assert w / 0x100 == h / 0x80;
  }

  lemma UnitLayout(w: u32)
    ensures Operation(w) == 16 * Unit(w) + Operation(w) % 16 && Unit(w) < 8
  {
    UnitOfOperation(w);
  }

  lemma Registers(w: u32)
    ensures RegC(w) == Digit(Imm24(w), 0x40, 0x40) && RegB(w) == Digit(Imm24(w), 0x1000, 0x40)
    ensures RegA(w) == Digit(Imm24(w), 0x4_0000, 0x40)
  {
    assert Imm24(w) == w / 0x100;
  }

  lemma LowOperands(w: u32)
    ensures Size(w) == Low(Imm24(w), 4) && (AluHasImm(w) <==> Digit(Imm24(w), 4, 2) == 1)
    ensures AluShift(w) == LsuShift(w) == Digit(Imm24(w), 8, 8)
    ensures SextInsize(w) == MduPq(w) == Digit(Imm24(w), 8, 4) && BruOtherIndex(w) == Low(Imm24(w), 0x10)
  {
    assert Imm24(w) == w / 0x100;
  }

  lemma Immediates(w: u32)
    ensures AluImm9(w) == Digit(Imm24(w), 8, 0x200)
    ensures LsuImm10(w) == Digit(Imm24(w), 4, 0x400) && LsuImm16(w) == Digit(Imm24(w), 4, 0x1_0000)
    ensures AluMoveImm(w) == Low(Imm24(w), 0x4_0000)
    ensures ExtInsImm1(w) == Low(Imm24(w), 0x40) && ExtInsImm2(w) == Digit(Imm24(w), 0x40, 0x40)
  {
    assert Imm24(w) == w / 0x100;
  }

  /** Registers B and A lie above twelve and eighteen bits of the operands. */
  lemma UpperRegisters(w: u32)
    ensures Imm24(w) == Low(Imm24(w), 0x1000) + 0x1000 * RegB(w) + 0x4_0000 * RegA(w)
    ensures Imm24(w) == Low(Imm24(w), 0x4_0000) + 0x4_0000 * RegA(w)
  {
    hide Digit, RegA, RegB, RegC, Imm24;
    WordLayout(w);
    Registers(w);
    NextDigit(Imm24(w), 0x1000, 0x40, 0x4_0000);
    NextDigit(Imm24(w), 0x4_0000, 0x40, 0x100_0000);
  }

  /** Two-operand form: size, form bit, shift and three registers. */
  lemma RegisterLayout(w: u32)
    ensures Imm24(w) == Size(w) + 4 * (if AluHasImm(w) then 1 else 0) + 8 * AluShift(w)
                        + 0x40 * RegC(w) + 0x1000 * RegB(w) + 0x4_0000 * RegA(w)
    ensures Size(w) < 4 && AluShift(w) < 8 && LsuShift(w) == AluShift(w)
  {
    hide Digit, Low, RegA, RegB, RegC, Imm24, Size, AluHasImm, AluShift, LsuShift;
    Registers(w);
    LowOperands(w);
    UpperRegisters(w);
    NextDigit(Imm24(w), 4, 2, 8);
    NextDigit(Imm24(w), 8, 8, 0x40);
    NextDigit(Imm24(w), 0x40, 0x40, 0x1000);
  }

  /** Immediate form of the ALU, moves and bit-fields. */
  lemma ImmediateLayout(w: u32)
    ensures Imm24(w) == Size(w) + 4 * (if AluHasImm(w) then 1 else 0) + 8 * AluImm9(w)
                        + 0x1000 * RegB(w) + 0x4_0000 * RegA(w)
    ensures Imm24(w) == ExtInsImm1(w) + 0x40 * ExtInsImm2(w) + 0x1000 * RegB(w) + 0x4_0000 * RegA(w)
    ensures Imm24(w) == AluMoveImm(w) + 0x4_0000 * RegA(w)
    ensures AluImm9(w) < 0x200 && ExtInsImm1(w) < 0x40 && ExtInsImm2(w) < 0x40 && AluMoveImm(w) < 0x4_0000
  {
    hide Digit, RegA, RegB, RegC, Imm24, Size, AluHasImm, AluImm9, ExtInsImm1, ExtInsImm2, AluMoveImm;
    LowOperands(w);
    Immediates(w);
    UpperRegisters(w);
    NextDigit(Imm24(w), 4, 2, 8);
    NextDigit(Imm24(w), 8, 0x200, 0x1000);
    NextDigit(Imm24(w), 0x40, 0x40, 0x1000);
  }

  /** Immediate and stack-pointer forms of the LSU. */
  lemma AccessLayout(w: u32)
    ensures Imm24(w) == Size(w) + 4 * LsuImm10(w) + 0x1000 * RegB(w) + 0x4_0000 * RegA(w) && LsuImm10(w) < 0x400
    ensures Imm24(w) == Size(w) + 4 * LsuImm16(w) + 0x4_0000 * RegA(w) && LsuImm16(w) < 0x1_0000
  {
    hide Digit, Low, RegA, RegB, RegC, Imm24, Size, LsuImm10, LsuImm16;
    LowOperands(w);
    Immediates(w);
    UpperRegisters(w);
    NextDigit(Imm24(w), 4, 0x400, 0x1000);
    NextDigit(Imm24(w), 4, 0x1_0000, 0x4_0000);
  }

  /** Source width of SEXT, MDU register and index of the other branches. */
  lemma SmallLayout(w: u32)
    ensures Imm24(w) % 0x20 == Imm24(w) % 8 + 8 * SextInsize(w) && MduPq(w) == SextInsize(w) < 4
    ensures Imm24(w) % 0x10 == BruOtherIndex(w)
  {
    hide Digit, Imm24, SextInsize, MduPq, BruOtherIndex;
    LowOperands(w);
    NextDigit(Imm24(w), 8, 4, 0x20);
  }
}
