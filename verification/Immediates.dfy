/** What the extended immediates can express: every value of a range, each exactly once. */
module Immediates {
  import opened Bits
  import opened Results
  import opened Machine
  import opened Instructions
  import opened Opcode

  const IMM24_COUNT: int := 0x100_0000

  lemma {:induction false} OrOnes(x: nat, k: nat)
    requires x < Pow2(k)
    ensures Or(x, Pow2(k) - 1) == Pow2(k) - 1
  {
    if k > 0 {
      var p := Pow2(k - 1);
      BitwiseStep(BitOp.OR, x, 2 * p - 1);
      assert (2 * p - 1) / 2 == p - 1 && (2 * p - 1) % 2 == 1;
      OrOnes(x / 2, k - 1);
    }
  }

  /** XOR above bit k of a number that is all ones there: a borrow instead of a flip. */
  lemma FlipHigh(low: nat, ones: nat, q: nat, k: nat, m: nat)
    requires low < Pow2(k) && ones == Pow2(m) - 1 && q <= ones
    ensures Xor(low + ones * Pow2(k), q * Pow2(k)) == low + (ones - q) * Pow2(k)
  {
    hide Bitwise, Pow2;
    BitwiseSplit(BitOp.XOR, low, ones, 0, q, k);
    WithZero(low);
    XorOnes(q, m);
  }

  lemma JoinHigh(low: nat, q: nat, k: nat)
    requires low < Pow2(k)
    ensures Xor(low, q * Pow2(k)) == low + q * Pow2(k)
  {
    hide Bitwise, Pow2;
    BitwiseSplit(BitOp.XOR, low, 0, 0, q, k);
    WithZero(low);
    WithZero(q);
  }

  lemma Shifted(imm24: nat)
    requires imm24 < IMM24_COUNT
    ensures Shl64(imm24, 8) == imm24 * 0x100 && Shl64(imm24, 9) == imm24 * 0x200
    ensures Shl64(imm24, 16) == imm24 * 0x1_0000 && Shl64(imm24, 18) == imm24 * 0x4_0000
    ensures Shl64(imm24, 24) == imm24 * 0x100_0000
  {
    hide Pow2;
    Pow2Values();
  }

  // ---------------------------------------------------------------- decoding

  lemma Imm9Value(imm9: nat, imm24: nat)
    requires imm9 < 0x200 && imm24 < IMM24_COUNT
    ensures ExtendedImm9(imm9, imm24) ==
      if imm9 < 0x100 then imm9 + 0x100 * imm24 else TWO64 + (imm9 - 0x100) - 0x100 * (imm24 + 1)
  {
    hide Bitwise, Pow2;
    Shifted(imm24);
    Pow2Values();
    AndBit(imm9, 8);
    if imm9 < 0x100 {
      JoinHigh(imm9, imm24, 8);
    } else {
      var low := imm9 - 0x100;
      Pow2Add(56, 8);
      Pow2Add(24, 32);
      BitwiseSplit(BitOp.OR, low, 1, 0, Pow2(56) - 1, 8);
      WithZero(low);
      OrOnes(1, 56);
      FlipHigh(low, Pow2(56) - 1, imm24, 8, 56);
    }
  }

  lemma Imm10Value(imm10: nat, imm24: nat)
    requires imm10 < 0x400 && imm24 < IMM24_COUNT
    ensures ExtendedImm10(imm10, imm24) ==
      if imm10 < 0x200 then imm10 + 0x200 * imm24 else TWO64 + (imm10 - 0x200) - 0x200 * (imm24 + 1)
  {
    hide Bitwise, Pow2;
    Shifted(imm24);
    Pow2Values();
    AndBit(imm10, 9);
    if imm10 < 0x200 {
      JoinHigh(imm10, imm24, 9);
    } else {
      Pow2Add(54, 10);
      Pow2Add(55, 9);
      Pow2Add(24, 31);
      OrDisjoint(imm10, Pow2(54) - 1, 10);
      FlipHigh(imm10 - 0x200, Pow2(55) - 1, imm24, 9, 55);
    }
  }

  lemma Imm16Value(imm16: nat, imm24: nat)
    requires imm16 < 0x1_0000 && imm24 < IMM24_COUNT
    ensures ExtendedImm16(imm16, imm24) == imm16 + 0x1_0000 * imm24
  {
    hide Bitwise, Pow2;
    Shifted(imm24);
    Pow2Values();
    JoinHigh(imm16, imm24, 16);
  }

  lemma MoveValue(imm18: nat, imm24: nat)
    requires imm18 < 0x4_0000 && imm24 < IMM24_COUNT
    ensures MoveImm(imm18, imm24) == imm18 + 0x4_0000 * imm24
  {
    hide Bitwise, Pow2;
    Shifted(imm24);
    Pow2Values();
    OrDisjoint(imm18, imm24, 18);
  }

  lemma MoveNegValue(imm18: nat, imm24: nat)
    requires imm18 < 0x4_0000 && imm24 < IMM24_COUNT
    ensures MoveNegImm(imm18, imm24) == TWO64 + imm18 - 0x4_0000 * (imm24 + 1)
  {
    hide Bitwise, Pow2;
    Shifted(imm24);
    Pow2Values();
    Pow2Add(46, 18);
    Pow2Add(24, 22);
    OrDisjoint(imm18, Pow2(46) - 1, 18);
    FlipHigh(imm18, Pow2(46) - 1, imm24, 18, 46);
  }

  lemma BranchValue(low: nat, imm24: nat)
    requires low < 0x100_0000 && imm24 < IMM24_COUNT
    ensures BranchImm(low, imm24) == low + 0x100_0000 * imm24
  {
    hide Bitwise, Pow2;
    Shifted(imm24);
    Pow2Values();
    OrDisjoint(low, imm24, 24);
  }

  // ---------------------------------------------------------------- encoding

  /** The fields that make up a signed value: low part with its sign bit on top, and the extension. */
  function EncodeSigned(v: int, base: int): (r: (nat, nat))
    requires base > 0 && -base * IMM24_COUNT <= v < base * IMM24_COUNT
    ensures r.0 < 2 * base && r.1 < IMM24_COUNT
  {
    EncodeRange(v, base);
    if v >= 0 then (v % base, v / base) else (base + v % base, -(v / base) - 1)
  }

  lemma EncodeRange(v: int, base: int)
    requires base > 0 && -base * IMM24_COUNT <= v < base * IMM24_COUNT
    ensures -IMM24_COUNT <= v / base < IMM24_COUNT
    ensures v >= 0 <==> v / base >= 0
  {
    var q := v / base;
    assert v == base * q + v % base;
    if q >= IMM24_COUNT {
      MulMonotone(base, IMM24_COUNT, q);
    } else if q < -IMM24_COUNT {
      MulMonotone(base, q, -IMM24_COUNT - 1);
    }
    if q >= 0 {
      MulMonotone(base, 0, q);
    } else {
      MulMonotone(base, q, -1);
    }
  }

  /** (imm9, imm24) expresses exactly the 33-bit signed values, each once. */
  lemma Imm9Bijection(imm9: nat, imm24: nat, v: int)
    requires imm9 < 0x200 && imm24 < IMM24_COUNT && -0x1_0000_0000 <= v < 0x1_0000_0000
    ensures ExtendedImm9(imm9, imm24) < TWO64 && -0x1_0000_0000 <= Signed64(ExtendedImm9(imm9, imm24)) < 0x1_0000_0000
    ensures Signed64(ExtendedImm9(imm9, imm24)) == v <==> (imm9, imm24) == EncodeSigned(v, 0x100)
  {
    hide ExtendedImm9;
    Imm9Value(imm9, imm24);
  }

  /** (imm10, imm24) expresses exactly the 34-bit signed values, each once. */
  lemma Imm10Bijection(imm10: nat, imm24: nat, v: int)
    requires imm10 < 0x400 && imm24 < IMM24_COUNT && -0x2_0000_0000 <= v < 0x2_0000_0000
    ensures ExtendedImm10(imm10, imm24) < TWO64
    ensures -0x2_0000_0000 <= Signed64(ExtendedImm10(imm10, imm24)) < 0x2_0000_0000
    ensures Signed64(ExtendedImm10(imm10, imm24)) == v <==> (imm10, imm24) == EncodeSigned(v, 0x200)
  {
    hide ExtendedImm10;
    Imm10Value(imm10, imm24);
  }

  /** (imm16, imm24) expresses exactly the 40-bit stack-pointer offsets, each once. */
  lemma Imm16Bijection(imm16: nat, imm24: nat, v: nat)
    requires imm16 < 0x1_0000 && imm24 < IMM24_COUNT && v < 0x100_0000_0000
    ensures ExtendedImm16(imm16, imm24) < 0x100_0000_0000
    ensures ExtendedImm16(imm16, imm24) == v <==> imm16 == v % 0x1_0000 && imm24 == v / 0x1_0000
  {
    hide ExtendedImm16;
    Imm16Value(imm16, imm24);
  }

  const MOVE_LIMIT: int := 0x400_0000_0000

  /** The operation and fields that load a signed 43-bit constant. */
  function EncodeMove(v: int): (nat, nat, nat)
    requires -MOVE_LIMIT <= v < MOVE_LIMIT
  {
    if v >= 0 then (MOVEI, v % 0x4_0000, v / 0x4_0000) else (MOVEN, v % 0x4_0000, -(v / 0x4_0000) - 1)
  }

  function DecodeMove(oper: nat, imm18: nat, imm24: nat): nat {
    if oper == MOVEI then MoveImm(imm18, imm24) else MoveNegImm(imm18, imm24)
  }

  /** MOVEI and MOVEN together express exactly the 43-bit signed values, each once. */
  lemma MoveBijection(oper: nat, imm18: nat, imm24: nat, v: int)
    requires oper == MOVEI || oper == MOVEN
    requires imm18 < 0x4_0000 && imm24 < IMM24_COUNT && -MOVE_LIMIT <= v < MOVE_LIMIT
    ensures DecodeMove(oper, imm18, imm24) < TWO64
    ensures -MOVE_LIMIT <= Signed64(DecodeMove(oper, imm18, imm24)) < MOVE_LIMIT
    ensures Signed64(DecodeMove(oper, imm18, imm24)) == v <==> (oper, imm18, imm24) == EncodeMove(v)
  {
    hide MoveImm, MoveNegImm;
    MoveValue(imm18, imm24);
    MoveNegValue(imm18, imm24);
  }

  /** A packaged word of unit 0 with an 18-bit immediate. */
  function MoveWord(d: Reg, oper: nat, imm18: nat): u32
    requires oper < 16 && imm18 < 0x4_0000
  {
    1 + 2 * (oper + 128 * (imm18 + 0x4_0000 * d))
  }

  lemma MoveWordFields(d: Reg, oper: nat, imm18: nat)
    requires oper < 16 && imm18 < 0x4_0000
    ensures var w := MoveWord(d, oper, imm18);
      IsPackage(w) && Operation(w) == oper && Unit(w) == 0 && RegA(w) == d && AluMoveImm(w) == imm18
  {
    var w := MoveWord(d, oper, imm18);
    var rest := imm18 + 0x4_0000 * d;
    assert w / 2 == oper + 128 * rest;
    assert w / 0x100 == rest;
    assert w / 0x400_0000 == d by { ModSplit(w, 0x100, 0x4_0000); }
    assert w / 0x20 == 8 * rest by { ModSplit(w, 2, 16); }
  }

  /** The two words of a packaged constant load. */
  function ConstantLoad(d: Reg, v: int): (words: (u32, u32))
    requires -MOVE_LIMIT <= v < MOVE_LIMIT
  {
    var (oper, imm18, imm24) := EncodeMove(v);
    (MoveWord(d, oper, imm18), 0x100 * imm24)
  }

  lemma ExtensionFields(imm24: nat)
    requires imm24 < IMM24_COUNT
    ensures Operation(0x100 * imm24) == MOVEIX && Imm24(0x100 * imm24) == imm24
  {
    var w := 0x100 * imm24;
    assert w / 0x02 == 0x80 * imm24 && w / 0x100 == imm24;
  }

  lemma MoveEffect(s: State, w: u32, imm24: nat)
    requires Unit(w) == 0 && (Operation(w) == MOVEI || Operation(w) == MOVEN)
    ensures UnitEffect(s, w, 0, imm24) ==
      Ok(map[Gpi(RegA(w)) := DecodeMove(Operation(w), AluMoveImm(w), imm24)])
  {
    hide Unit, Operation, RegA, RegB, AluMoveImm, MoveImm, MoveNegImm;
  }

  /** Every signed 43-bit constant can be put in any register by one bundle. */
  lemma ConstantLoadRuns(s: State, d: Reg, v: int)
    requires -MOVE_LIMIT <= v < MOVE_LIMIT
    ensures var (first, second) := ConstantLoad(d, v);
      ExecuteUnits(s, first, second) == Ok(Commit(ClearZero(s), map[Gpi(d) := v % TWO64]))
  {
    hide DecodeMove, UnitEffect, Commit, MoveWord, Operation, Unit, RegA, AluMoveImm, IsPackage;
    var (oper, imm18, imm24) := EncodeMove(v);
    var (first, second) := ConstantLoad(d, v);
    MoveWordFields(d, oper, imm18);
    ExtensionFields(imm24);
    MoveBijection(oper, imm18, imm24, v);
    MoveEffect(ClearZero(s), first, imm24);
  }
}
