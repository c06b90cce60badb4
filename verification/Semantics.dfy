/** What a unit reads and leaves, in numbers: the vocabulary of the instruction theorems. */
module Semantics {
  import opened Bits
  import opened Results
  import opened Machine
  import opened Instructions
  import opened Opcode
  import Immediates
  import W = Width

  /** The value an instruction reads from a register: r63 is zero. */
  function Operand(s: State, r: Reg): u64 { if r == 63 then 0 else s.gpi[r] }

  function FloatOperand(s: State, r: Reg): u64 { if r == 63 then 0 else s.gpf[r] }

  /** s after a unit that writes no register. */
  function Passed(s: State): State { s.(gpi := s.gpi[63 := 0], gpf := s.gpf[63 := 0]) }

  /** s after a unit that writes v to an integer register. */
  function Written(s: State, r: Reg, v: u64): State { s.(gpi := s.gpi[63 := 0][r := v], gpf := s.gpf[63 := 0]) }

  function FloatWritten(s: State, r: Reg, v: u64): State { s.(gpi := s.gpi[63 := 0], gpf := s.gpf[63 := 0][r := v]) }

  /** Operand width: 8, 16, 32 or 64 bits. */
  function Width(w: u32): (n: nat)
    ensures 8 <= n <= 64
  {
    WidthValues(w);
    8 * Pow2(Size(w))
  }

  function Cut(w: u32): (m: nat)
    ensures 0 < m <= TWO64
  {
    CutFits(w);
    Pow2(Width(w))
  }

  lemma WidthValues(w: u32)
    ensures 8 * Pow2(Size(w)) == W.SizeBits(Size(w))
  {
    hide Size;
    assert Pow2(0) == 1 && Pow2(1) == 2 && Pow2(2) == 4 && Pow2(3) == 8;
  }

  lemma CutFits(w: u32)
    ensures Pow2(Width(w)) == W.Modulus(Size(w)) <= TWO64
  {
    hide Size;
    WidthValues(w);
    W.ModulusIsPow2(Size(w));
  }

  /** A field with its sign bit on top, and the extension word above it. */
  function SignedField(low: nat, imm24: nat, half: nat): int {
    if low < half then low + half * imm24 else low - half - half * (imm24 + 1)
  }

  /** The second operand: a register shifted left, or a signed immediate. */
  function Second(s: State, w: u32, imm24: nat): int {
    if AluHasImm(w) then SignedField(AluImm9(w), imm24, 0x100) else Operand(s, RegC(w)) * Pow2(AluShift(w))
  }

  lemma SecondOperand(s: State, w: u32, imm24: nat)
    requires imm24 < 0x100_0000
    ensures AluSrc2(ClearZero(s).gpi, w, imm24) == Second(s, w, imm24) % TWO64
  {
    hide Pow2, ExtendedImm9, AluHasImm, RegC, AluShift;
    if AluHasImm(w) {
      Immediates.Imm9Value(AluImm9(w), imm24);
    }
  }

  /** A unit whose effect is one register. */
  lemma WritesRegister(s: State, w: u32, slot: nat, imm24: nat, r: Reg, v: u64)
    requires UnitEffect(ClearZero(s), w, slot, imm24) == Ok(map[Gpi(r) := v])
    ensures ExecuteUnit(s, w, slot, imm24) == Ok(Written(s, r, v))
  {
    hide UnitEffect, Commit;
    CommitRegister(ClearZero(s), false, r, v);
  }

  lemma WritesFloatRegister(s: State, w: u32, slot: nat, imm24: nat, r: Reg, v: u64)
    requires UnitEffect(ClearZero(s), w, slot, imm24) == Ok(map[Gpf(r) := v])
    ensures ExecuteUnit(s, w, slot, imm24) == Ok(FloatWritten(s, r, v))
  {
    hide UnitEffect, Commit;
    CommitRegister(ClearZero(s), true, r, v);
  }

  lemma WritesNothing(s: State, w: u32, slot: nat, imm24: nat)
    requires UnitEffect(ClearZero(s), w, slot, imm24) == Ok(map[])
    ensures ExecuteUnit(s, w, slot, imm24) == Ok(Passed(s))
  {
    hide UnitEffect, Commit;
    CommitNothing(ClearZero(s));
  }

  /** Adding a wrapped word, then cutting, is adding and cutting. */
  lemma WrapAndCut(x: int, y: int, w: u32)
    ensures ((x + y % TWO64) % TWO64) % Cut(w) == (x + y) % Cut(w)
    ensures ((x - y % TWO64) % TWO64) % Cut(w) == (x - y) % Cut(w)
    ensures x % TWO64 % Cut(w) == x % Cut(w)
  {
    hide Cut, W.Modulus, Size;
    CutIsModulus(w);
    WrapFirst(x, y);
    W.WrapIsInvisible(x + y, Size(w));
    W.WrapIsInvisible(x - y, Size(w));
    W.WrapIsInvisible(x, Size(w));
  }

  lemma WrapFirst(x: int, y: int)
    ensures (x + y % TWO64) % TWO64 == (x + y) % TWO64 && (x - y % TWO64) % TWO64 == (x - y) % TWO64
  {
    MultipleApart(x + y % TWO64, x + y, -(y / TWO64), TWO64);
    MultipleApart(x - y % TWO64, x - y, y / TWO64, TWO64);
  }

  lemma CutIsModulus(w: u32)
    ensures Cut(w) == W.Modulus(Size(w))
  {
    CutFits(w);
  }

  lemma MaskCuts(w: u32, v: nat)
    ensures Mask(w, v) == v % Cut(w)
  {
    hide Mask, Cut, W.Modulus;
    W.MaskIsModulus(w, v);
    CutIsModulus(w);
  }
}
