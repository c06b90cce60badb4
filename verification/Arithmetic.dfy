/** What the ALU and the MDU compute, in terms of integers and bits. */
module Arithmetic {
  import opened Bits
  import opened Results
  import opened Machine
  import opened Instructions
  import opened Opcode
  import opened Semantics
  import opened Flags
  import Immediates
  import SignExtend
  import W = Width

  /** The operation's value before and after the cut to the operand size. */
  lemma Computes(s: State, w: u32, slot: nat, imm24: nat, v: nat)
    requires 16 <= Operation(w) <= 23 && imm24 < 0x100_0000
    requires Raw(Operation(w), Operand(s, RegB(w)), Second(s, w, imm24) % TWO64) == Ok(v)
    ensures ExecuteUnit(s, w, slot, imm24) == Ok(Written(s, RegA(w), v % Cut(w)))
  {
    hide Raw, AluSrc2, Second, Mask, Cut, Operation, Unit, RegA, RegB;
    UnitOfOperation(w);
    SecondOperand(s, w, imm24);
    MaskCuts(w, v);
    WritesRegister(s, w, slot, imm24, RegA(w), v % Cut(w));
  }

  /** ADD, 16: the sum modulo the operand width. */
  lemma AddRuns(s: State, w: u32, slot: nat, imm24: nat)
    requires Operation(w) == 16 && imm24 < 0x100_0000
    ensures ExecuteUnit(s, w, slot, imm24) ==
      Ok(Written(s, RegA(w), (Operand(s, RegB(w)) + Second(s, w, imm24)) % Cut(w)))
  {
    hide Second, Operation, RegA, RegB, Cut, ExecuteUnit;
    var x, y := Operand(s, RegB(w)), Second(s, w, imm24);
    Computes(s, w, slot, imm24, (x + y % TWO64) % TWO64);
    WrapAndCut(x, y, w);
  }

  /** SUB, 17: the difference modulo the operand width. */
  lemma SubRuns(s: State, w: u32, slot: nat, imm24: nat)
    requires Operation(w) == 17 && imm24 < 0x100_0000
    ensures ExecuteUnit(s, w, slot, imm24) ==
      Ok(Written(s, RegA(w), (Operand(s, RegB(w)) - Second(s, w, imm24)) % Cut(w)))
  {
    hide Second, Operation, RegA, RegB, Cut, ExecuteUnit;
    var x, y := Operand(s, RegB(w)), Second(s, w, imm24);
    Computes(s, w, slot, imm24, (x - y % TWO64) % TWO64);
    WrapAndCut(x, y, w);
  }

  /** Adding the same operand back undoes a subtraction, at the operand width. */
  lemma AddUndoesSub(s: State, sub: u32, add: u32, slot: nat, subImm: nat, addImm: nat)
    requires Operation(sub) == 17 && Operation(add) == 16 && Size(sub) == Size(add)
    requires subImm < 0x100_0000 && addImm < 0x100_0000 && RegB(add) == RegA(sub) != 63
    requires ExecuteUnit(s, sub, slot, subImm).Ok?
    requires Second(ExecuteUnit(s, sub, slot, subImm).value, add, addImm) == Second(s, sub, subImm)
    ensures var t := ExecuteUnit(s, sub, slot, subImm).value;
      ExecuteUnit(t, add, slot, addImm) == Ok(Written(t, RegA(add), Operand(s, RegB(sub)) % Cut(sub)))
  {
    hide Second, Operation, RegA, RegB, Size, ExecuteUnit, Cut;
    SubRuns(s, sub, slot, subImm);
    var t := ExecuteUnit(s, sub, slot, subImm).value;
    AddRuns(t, add, slot, addImm);
    SameCut(sub, add);
    BackAgain(Operand(s, RegB(sub)), Second(s, sub, subImm), Cut(sub));
  }

  lemma SameCut(w: u32, v: u32)
    requires Size(w) == Size(v)
    ensures Cut(w) == Cut(v)
  {
    hide Size;
  }

  lemma BackAgain(x: int, y: int, m: nat)
    requires m > 0
    ensures ((x - y) % m + y) % m == x % m
  {
    MultipleApart((x - y) % m + y, x, -((x - y) / m), m);
  }

  /** As a signed number of n bits, a sum cut to n bits is the sum exactly when the sum fits. */
  lemma SignedSum(x: nat, y: nat, n: nat)
    requires n > 0
    ensures var r, p, q := SignExtend.ReadSigned((x + y) % Pow2(n), n), SignExtend.ReadSigned(x, n),
                           SignExtend.ReadSigned(y, n);
      r == p + q <==> 0 <= p + q + Pow2(n - 1) < Pow2(n)
  {
    hide Pow2;
    var m := Pow2(n);
    Pow2Double(n);
    var r, p, q := SignExtend.ReadSigned((x + y) % m, n), SignExtend.ReadSigned(x, n), SignExtend.ReadSigned(y, n);
    ReadCongruent(x, n);
    ReadCongruent(y, n);
    ReadCongruent((x + y) % m, n);
    if 0 <= p + q + Pow2(n - 1) < m {
      SumCongruent(x, y, p, q, r, m);
      NearAndCongruent(r, p + q, m);
    }
  }

  lemma ReadCongruent(x: nat, n: nat)
    requires n > 0
    ensures SignExtend.ReadSigned(x, n) % Pow2(n) == x % Pow2(n)
    ensures 0 <= SignExtend.ReadSigned(x, n) + Pow2(n - 1) < Pow2(n)
  {
    hide Pow2;
    var m := Pow2(n);
    Pow2Double(n);
    if x % m < Pow2(n - 1) {
      DivModUnique(x % m, m, 0, x % m);
    } else {
      DivModUnique(x % m - m, m, -1, x % m);
    }
  }

  lemma SumCongruent(x: int, y: int, p: int, q: int, r: int, m: nat)
    requires m > 0 && p % m == x % m && q % m == y % m && r % m == (x + y) % m % m
    ensures r % m == (p + q) % m
  {
    W.ModSum(p, q, x, y, m);
    DivModUnique((x + y) % m, m, 0, (x + y) % m);
  }

  /** Two numbers of one window of length m that are congruent modulo m are equal. */
  lemma NearAndCongruent(a: int, b: int, m: nat)
    requires m > 0 && a % m == b % m && a - b < m && b - a < m
    ensures a == b
  {
    var p, q := a / m, b / m;
    assert a - b == m * p - m * q;
    if p < q {
      MulMonotone(m, p + 1, q);
    } else if q < p {
      MulMonotone(m, q + 1, p);
    }
  }

  // ---------------------------------------------------------------- bit by bit

  /** XOR, 18: a result bit is set where the operands differ. */
  lemma XorRuns(s: State, w: u32, slot: nat, imm24: nat) returns (v: u64)
    requires Operation(w) == 18 && imm24 < 0x100_0000
    ensures ExecuteUnit(s, w, slot, imm24) == Ok(Written(s, RegA(w), v)) && v < Cut(w)
    ensures forall k: nat | k < Width(w) ::
      Bit(v, k) == 1 <==> Bit(Operand(s, RegB(w)), k) != Bit(Second(s, w, imm24) % TWO64, k)
  {
    hide Second, Operation, RegA, RegB, ExecuteUnit, Bitwise, Bit;
    v := BitwiseRuns(s, w, slot, imm24, BitOp.XOR);
  }

  /** OR, 19: a result bit is set where either operand has it. */
  lemma OrRuns(s: State, w: u32, slot: nat, imm24: nat) returns (v: u64)
    requires Operation(w) == 19 && imm24 < 0x100_0000
    ensures ExecuteUnit(s, w, slot, imm24) == Ok(Written(s, RegA(w), v)) && v < Cut(w)
    ensures forall k: nat | k < Width(w) ::
      Bit(v, k) == 1 <==> Bit(Operand(s, RegB(w)), k) == 1 || Bit(Second(s, w, imm24) % TWO64, k) == 1
  {
    hide Second, Operation, RegA, RegB, ExecuteUnit, Bitwise, Bit;
    v := BitwiseRuns(s, w, slot, imm24, BitOp.OR);
  }

  /** AND, 20: a result bit is set where both operands have it. */
  lemma AndRuns(s: State, w: u32, slot: nat, imm24: nat) returns (v: u64)
    requires Operation(w) == 20 && imm24 < 0x100_0000
    ensures ExecuteUnit(s, w, slot, imm24) == Ok(Written(s, RegA(w), v)) && v < Cut(w)
    ensures forall k: nat | k < Width(w) ::
      Bit(v, k) == 1 <==> Bit(Operand(s, RegB(w)), k) == 1 && Bit(Second(s, w, imm24) % TWO64, k) == 1
  {
    hide Second, Operation, RegA, RegB, ExecuteUnit, Bitwise, Bit;
    v := BitwiseRuns(s, w, slot, imm24, BitOp.AND);
  }

  lemma BitwiseRuns(s: State, w: u32, slot: nat, imm24: nat, o: BitOp) returns (v: u64)
    requires Operation(w) == (match o case XOR => 18 case OR => 19 case AND => 20) && imm24 < 0x100_0000
    ensures ExecuteUnit(s, w, slot, imm24) == Ok(Written(s, RegA(w), v)) && v < Cut(w)
    ensures forall k: nat | k < Width(w) ::
      Bit(v, k) == OnBits(o, Bit(Operand(s, RegB(w)), k), Bit(Second(s, w, imm24) % TWO64, k))
  {
    hide Second, Operation, RegA, RegB, ExecuteUnit, Bitwise, OnBits, Width, Bit, Pow2;
    var x, y := Operand(s, RegB(w)), Second(s, w, imm24) % TWO64;
    Computes(s, w, slot, imm24, Bitwise(o, x, y));
    v := Bitwise(o, x, y) % Cut(w);
    forall k: nat | k < Width(w) ensures Bit(v, k) == OnBits(o, Bit(x, k), Bit(y, k)) {
      CutBits(Bitwise(o, x, y), Width(w), k);
      BitOfBitwise(o, x, y, k);
    }
  }

  // ---------------------------------------------------------------- shifts

  /** LSL, 21: multiplication by a power of two. */
  lemma LslRuns(s: State, w: u32, slot: nat, imm24: nat)
    requires Operation(w) == 21 && imm24 < 0x100_0000 && Second(s, w, imm24) % TWO64 < 64
    ensures ExecuteUnit(s, w, slot, imm24) ==
      Ok(Written(s, RegA(w), Operand(s, RegB(w)) * Pow2(Second(s, w, imm24) % TWO64) % Cut(w)))
  {
    hide Second, Operation, RegA, RegB, Cut, ExecuteUnit, Pow2;
    var x, y := Operand(s, RegB(w)), Second(s, w, imm24) % TWO64;
    Computes(s, w, slot, imm24, Shl64(x, y));
    WrapAndCut(x * Pow2(y), 0, w);
  }

  /** ASR and LSR, 22 and 23: both divide the unsigned word by a power of two. */
  lemma LsrRuns(s: State, w: u32, slot: nat, imm24: nat)
    requires 22 <= Operation(w) <= 23 && imm24 < 0x100_0000 && Second(s, w, imm24) % TWO64 < 64
    ensures ExecuteUnit(s, w, slot, imm24) ==
      Ok(Written(s, RegA(w), Operand(s, RegB(w)) / Pow2(Second(s, w, imm24) % TWO64) % Cut(w)))
  {
    hide Second, Operation, RegA, RegB, Cut, ExecuteUnit, Pow2;
    Computes(s, w, slot, imm24, Shr(Operand(s, RegB(w)), Second(s, w, imm24) % TWO64));
  }

  /** A shift by 64 or more is undefined. */
  lemma LongShiftFails(s: State, w: u32, slot: nat, imm24: nat)
    requires 21 <= Operation(w) <= 23 && imm24 < 0x100_0000 && Second(s, w, imm24) % TWO64 >= 64
    ensures ExecuteUnit(s, w, slot, imm24) == Err(Undefined)
  {
    hide Second, AluSrc2, Operation, RegA, RegB, Unit;
    UnitOfOperation(w);
    SecondOperand(s, w, imm24);
  }

  // ---------------------------------------------------------------- tests and conditional moves

  /** The value SE, SEN, SLTS and SLTU leave, 24 to 27. */
  predicate Related(oper: nat, x: u64, y: u64) {
    if oper == 24 then x == y
    else if oper == 25 then x != y
    else if oper == 26 then SignExtend.ReadSigned(x, 64) < SignExtend.ReadSigned(y, 64)
    else x < y
  }

  /** Tests leave 1 if the relation holds on the full words, and 0 if not. */
  lemma TestRuns(s: State, w: u32, slot: nat, imm24: nat)
    requires 24 <= Operation(w) <= 27 && imm24 < 0x100_0000
    ensures ExecuteUnit(s, w, slot, imm24) ==
      Ok(Written(s, RegA(w), if Related(Operation(w), Operand(s, RegB(w)), Second(s, w, imm24) % TWO64) then 1 else 0))
  {
    hide Second, AluSrc2, Operation, RegA, RegB, Unit, ExecuteUnit, Pow2, SignExtend.ReadSigned, Signed64;
    UnitOfOperation(w);
    SecondOperand(s, w, imm24);
    var x, y := Operand(s, RegB(w)), Second(s, w, imm24) % TWO64;
    ReadWord(x);
    ReadWord(y);
    WritesRegister(s, w, slot, imm24, RegA(w), if Related(Operation(w), x, y) then 1 else 0);
  }

  lemma ReadWord(x: u64)
    ensures Signed64(x) == SignExtend.ReadSigned(x, 64)
  {
    hide Pow2;
    Pow2Values();
    Pow2Double(64);
  }

  /** SAND, 28: AND on the full words, whatever the operand size. */
  lemma SandRuns(s: State, w: u32, slot: nat, imm24: nat) returns (v: u64)
    requires Operation(w) == 28 && imm24 < 0x100_0000
    ensures ExecuteUnit(s, w, slot, imm24) == Ok(Written(s, RegA(w), v))
    ensures forall k: nat ::
      Bit(v, k) == 1 <==> Bit(Operand(s, RegB(w)), k) == 1 && Bit(Second(s, w, imm24) % TWO64, k) == 1
  {
    hide Second, AluSrc2, Operation, RegA, RegB, Unit, ExecuteUnit, Bitwise, Bit;
    UnitOfOperation(w);
    SecondOperand(s, w, imm24);
    v := And(Operand(s, RegB(w)), Second(s, w, imm24) % TWO64);
    WritesRegister(s, w, slot, imm24, RegA(w), v);
    forall k: nat
      ensures Bit(v, k) == OnBits(BitOp.AND, Bit(Operand(s, RegB(w)), k), Bit(Second(s, w, imm24) % TWO64, k))
    {
      BitOfBitwise(BitOp.AND, Operand(s, RegB(w)), Second(s, w, imm24) % TWO64, k);
    }
  }

  /** CMOVE, 31, moves when the second operand is nonzero; CMOVEN, 30, when it is zero. */
  lemma ConditionalMoveRuns(s: State, w: u32, slot: nat, imm24: nat)
    requires 30 <= Operation(w) <= 31 && imm24 < 0x100_0000
    ensures ExecuteUnit(s, w, slot, imm24) ==
      if (Second(s, w, imm24) % TWO64 != 0) == (Operation(w) == 31)
      then Ok(Written(s, RegA(w), Operand(s, RegB(w)) % Cut(w))) else Ok(Passed(s))
  {
    hide Second, AluSrc2, Operation, RegA, RegB, Unit, ExecuteUnit, Mask, Cut;
    UnitOfOperation(w);
    SecondOperand(s, w, imm24);
    MaskCuts(w, Operand(s, RegB(w)));
    if (Second(s, w, imm24) % TWO64 != 0) == (Operation(w) == 31) {
      WritesRegister(s, w, slot, imm24, RegA(w), Operand(s, RegB(w)) % Cut(w));
    } else {
      WritesNothing(s, w, slot, imm24);
    }
  }

  /** CMP, 12: what it leaves in each bit of fr, and nothing else. */
  lemma CmpRuns(s: State, w: u32, slot: nat, imm24: nat) returns (fr: u32)
    requires Operation(w) == 12
    ensures ExecuteUnit(s, w, slot, imm24) == Ok(Passed(s).(fr := fr))
    ensures var x, y := Operand(s, RegB(w)), Operand(s, RegC(w));
      forall k: nat | k < 32 ::
        Bit(fr, k) ==
          if k == 0 then if x == y then 1 else 0
          else if k == 2 then if (x - y) % TWO64 >= TWO63 then 1 else 0 else Bit(s.fr, k)
  {
    hide Operation, RegB, RegC, Unit, Bit, Compare, Commit;
    UnitOfOperation(w);
    var x, y := Operand(s, RegB(w)), Operand(s, RegC(w));
    fr := Compare(s.fr, x, y) % TWO32;
    CommitControl(ClearZero(s), Fr, Compare(s.fr, x, y));
    forall k: nat | k < 32 ensures Bit(fr, k) == ComparedBit(s.fr, x, y, k) {
      CompareBits(s.fr, x, y, k);
    }
  }

  // ---------------------------------------------------------------- MDU

  /** DIV and DIVU, 96 and 97: quotient to register 0 and remainder to register 1, each cut to the operand
      width; a zero divisor is undefined. */
  lemma DivideRuns(s: State, w: u32, imm24: nat) returns (q: nat, r: nat)
    requires 96 <= Operation(w) <= 97 && imm24 < 0x100_0000
    ensures var x, y := Operand(s, RegB(w)), Second(s, w, imm24) % TWO64;
      if y == 0 then ExecuteUnit(s, w, 0, imm24) == Err(Undefined)
      else
        && q * y + r == x && r < y
        && ExecuteUnit(s, w, 0, imm24) == Ok(Passed(s).(mdu := s.mdu[0 := q % Cut(w)][1 := r % Cut(w)]))
  {
    hide Second, AluSrc2, Operation, RegA, RegB, Unit, Mask, Cut, Commit, RoundDown;
    UnitOfOperation(w);
    SecondOperand(s, w, imm24);
    var x, y := Operand(s, RegB(w)), Second(s, w, imm24) % TWO64;
    q, r := 0, 0;
    if y != 0 {
      var whole := RoundDown(x, y);
      q, r := Quotient(x, y), Remainder(x, y);
      MaskCuts(w, q);
      MaskCuts(w, r);
      TwoMdu(ClearZero(s), q % Cut(w), r % Cut(w));
    }
  }

  lemma TwoMdu(c: State, q: u64, r: u64)
    ensures Commit(c, map[Mdu(0) := q, Mdu(1) := r]) == c.(mdu := c.mdu[0 := q][1 := r])
  {
    hide Commit;
    assert map[Mdu(0) := q] + map[Mdu(1) := r] == map[Mdu(0) := q, Mdu(1) := r];
    CommitTwice(c, map[Mdu(0) := q], map[Mdu(1) := r]);
    CommitMdu(c, 0, q);
    CommitMdu(c.(mdu := c.mdu[0 := q]), 1, r);
  }

  /** At 64 bits a division loses nothing. */
  lemma DivisionIsExact(s: State, w: u32, imm24: nat)
    requires 96 <= Operation(w) <= 97 && imm24 < 0x100_0000 && Size(w) == 3 && Second(s, w, imm24) % TWO64 != 0
    ensures ExecuteUnit(s, w, 0, imm24).Ok?
    ensures var t, y := ExecuteUnit(s, w, 0, imm24).value, Second(s, w, imm24) % TWO64;
      t.mdu[0] * y + t.mdu[1] == Operand(s, RegB(w)) && t.mdu[1] < y
  {
    hide Second, Operation, RegB, Size, ExecuteUnit, Cut;
    var q, r := DivideRuns(s, w, imm24);
    var y := Second(s, w, imm24) % TWO64;
    FullCut(w);
    MulMonotone(q, 1, y);
    RemainderOfSmaller(q, TWO64);
    RemainderOfSmaller(r, TWO64);
  }

  lemma FullCut(w: u32)
    requires Size(w) == 3
    ensures Cut(w) == TWO64
  {
    hide Size;
    CutIsModulus(w);
  }

  /** MUL and MULU, 98 and 99: the product to register 2. */
  lemma MultiplyRuns(s: State, w: u32, imm24: nat)
    requires 98 <= Operation(w) <= 99 && imm24 < 0x100_0000
    ensures ExecuteUnit(s, w, 0, imm24) ==
      Ok(Passed(s).(mdu := s.mdu[2 := Operand(s, RegB(w)) * Second(s, w, imm24) % Cut(w)]))
  {
    hide Second, AluSrc2, Operation, RegA, RegB, Unit, Mask, Cut, Commit, Mul64;
    UnitOfOperation(w);
    SecondOperand(s, w, imm24);
    var x, y := Operand(s, RegB(w)), Second(s, w, imm24);
    MaskCuts(w, Mul64(x, y % TWO64));
    ProductCut(x, y, w);
    CommitMdu(ClearZero(s), 2, x * y % Cut(w));
    CutAgain(x * y, w);
  }

  lemma ProductCut(x: nat, y: int, w: u32)
    ensures Mul64(x, y % TWO64) % Cut(w) == x * y % Cut(w)
  {
    hide Cut;
    var q := y / TWO64;
    assert x * (y % TWO64) == x * y - x * (q * TWO64) by { assert y % TWO64 == y - q * TWO64; }
    assert x * (q * TWO64) == (x * q) * TWO64;
    MultipleApart(x * (y % TWO64), x * y, -(x * q), TWO64);
    WrapAndCut(x * y, 0, w);
  }

  lemma CutAgain(v: int, w: u32)
    ensures v % Cut(w) % TWO64 == v % Cut(w)
  {
    hide Cut;
    if v % Cut(w) < TWO64 {
      RemainderOfSmaller(v % Cut(w), TWO64);
    }
  }

  /** MOVETO, 100, reads an MDU register; MOVEFROM, 101, sets one. */
  lemma MduMoveRuns(s: State, w: u32, imm24: nat)
    requires 100 <= Operation(w) <= 101
    ensures ExecuteUnit(s, w, 0, imm24) ==
      Ok(if Operation(w) == 100 then Written(s, RegA(w), s.mdu[MduPq(w)])
         else Passed(s).(mdu := s.mdu[MduPq(w) := Operand(s, RegB(w))]))
  {
    hide AluSrc2, Operation, RegA, RegB, Unit, MduPq, Commit;
    UnitOfOperation(w);
    CommitRegister(ClearZero(s), false, RegA(w), s.mdu[MduPq(w)]);
    CommitMdu(ClearZero(s), MduPq(w), Operand(s, RegB(w)));
  }

  // ---------------------------------------------------------------- moves and bit-fields

  /** MOVEIX, 0, does nothing by itself. */
  lemma MoveixRuns(s: State, w: u32, slot: nat, imm24: nat)
    requires Operation(w) == 0
    ensures ExecuteUnit(s, w, slot, imm24) == Ok(Passed(s))
  {
    hide Operation, RegA, RegB, Unit, ExecuteUnit;
    UnitOfOperation(w);
    WritesNothing(s, w, slot, imm24);
  }

  /** MOVEI, 4, and MOVEN, 5: the 18-bit field below the extension, or its negative counterpart. */
  lemma MoveRuns(s: State, w: u32, slot: nat, imm24: nat)
    requires 4 <= Operation(w) <= 5 && imm24 < 0x100_0000
    ensures var low := AluMoveImm(w);
      ExecuteUnit(s, w, slot, imm24) ==
        Ok(Written(s, RegA(w), if Operation(w) == 4 then (low + 0x4_0000 * imm24) % TWO64
                               else (low - 0x4_0000 - 0x4_0000 * imm24) % TWO64))
  {
    hide Operation, RegA, RegB, Unit, ExecuteUnit, AluMoveImm, MoveImm, MoveNegImm;
    UnitOfOperation(w);
    MoveFieldFits(w);
    Immediates.MoveValue(AluMoveImm(w), imm24);
    Immediates.MoveNegValue(AluMoveImm(w), imm24);
    var v := if Operation(w) == 4 then MoveImm(AluMoveImm(w), imm24) else MoveNegImm(AluMoveImm(w), imm24);
    WritesRegister(s, w, slot, imm24, RegA(w), v);
  }

  lemma MoveFieldFits(w: u32)
    ensures AluMoveImm(w) < 0x4_0000
  {
  }

  /** EXT, 2: the field of second-immediate width from the first immediate's bit on; a width of 31 or more is
      undefined. */
  lemma ExtractRuns(s: State, w: u32, slot: nat, imm24: nat)
    requires Operation(w) == 2
    ensures var v := Operand(s, RegB(w)) / Pow2(ExtInsImm1(w)) % Pow2(ExtInsImm2(w));
      && v < TWO64
      && ExecuteUnit(s, w, slot, imm24) ==
           if ExtInsImm2(w) < 31 then Ok(Written(s, RegA(w), v)) else Err(Undefined)
  {
    hide Operation, RegA, RegB, Unit, ExecuteUnit, ExtInsImm1, ExtInsImm2, Bitwise, Pow2;
    UnitOfOperation(w);
    var x, lo, n := Operand(s, RegB(w)), ExtInsImm1(w), ExtInsImm2(w);
    AndLowMask(Shr(x, lo), n);
    ShrFits(x, lo, n);
    if n < 31 {
      WritesRegister(s, w, slot, imm24, RegA(w), x / Pow2(lo) % Pow2(n));
    } else {
      UnitFails(s, w, slot, imm24);
    }
  }

  lemma ShrFits(x: u64, lo: nat, n: nat)
    ensures x / Pow2(lo) % Pow2(n) < TWO64
  {
    hide Pow2;
    QuotientShrinks(x, Pow2(lo));
    RemainderShrinks(x / Pow2(lo), Pow2(n));
  }

  lemma QuotientShrinks(x: nat, p: nat)
    requires p > 0
    ensures 0 <= x / p <= x
  {
    var whole := RoundDown(x, p);
    MulMonotone(x / p, 1, p);
  }

  lemma RemainderShrinks(x: nat, p: nat)
    requires p > 0
    ensures x % p <= x
  {
    if x < p {
      RemainderOfSmaller(x, p);
    }
  }

  lemma UnitFails(s: State, w: u32, slot: nat, imm24: nat)
    requires UnitEffect(ClearZero(s), w, slot, imm24) == Err(Undefined)
    ensures ExecuteUnit(s, w, slot, imm24) == Err(Undefined)
  {
    hide UnitEffect;
  }

  /** INS, 3: bits from the first immediate up to the second are joined to the destination, which keeps its own. */
  lemma InsertRuns(s: State, w: u32, slot: nat, imm24: nat) returns (v: u64)
    requires Operation(w) == 3
    ensures ExecuteUnit(s, w, slot, imm24) ==
      if ExtInsImm2(w) < 31 then Ok(Written(s, RegA(w), v)) else Err(Undefined)
    ensures ExtInsImm2(w) < 31 ==>
      forall k: nat | k < 64 ::
        Bit(v, k) == 1 <==>
          || Bit(Operand(s, RegA(w)), k) == 1
          || (ExtInsImm1(w) <= k < ExtInsImm2(w) && Bit(Operand(s, RegB(w)), k - ExtInsImm1(w)) == 1)
  {
    hide Operation, RegA, RegB, Unit, ExecuteUnit, ExtInsImm1, ExtInsImm2, Bitwise, Pow2, Bit;
    UnitOfOperation(w);
    var x, lo, n := Operand(s, RegB(w)), ExtInsImm1(w), ExtInsImm2(w);
    v := 0;
    if n < 31 {
      var field := And(Shl64(x, lo), Pow2(n) - 1);
      AndLowMask(Shl64(x, lo), n);
      MaskBelow(Shl64(x, lo), n);
      OrFits(Operand(s, RegA(w)), field);
      v := Or(Operand(s, RegA(w)), field);
      WritesRegister(s, w, slot, imm24, RegA(w), v);
      forall k: nat | k < 64
        ensures Bit(v, k) == OnBits(BitOp.OR, Bit(Operand(s, RegA(w)), k), Bit(field, k))
        ensures Bit(field, k) == if lo <= k < n then Bit(x, k - lo) else 0
      {
        BitOfBitwise(BitOp.OR, Operand(s, RegA(w)), field, k);
        FieldBit(x, lo, n, k);
      }
    } else {
      UnitFails(s, w, slot, imm24);
    }
  }

  lemma MaskBelow(x: u64, n: nat)
    ensures x % Pow2(n) < TWO64
  {
    hide Pow2;
    RemainderShrinks(x, Pow2(n));
  }

  /** OR of two words is a word. */
  lemma OrFits(x: u64, y: u64)
    ensures Or(x, y) < TWO64
  {
    hide Bitwise, Pow2;
    Pow2Values();
    BitwiseMod(BitOp.OR, x, y, 64);
    RemainderOfSmaller(x, TWO64);
    RemainderOfSmaller(y, TWO64);
  }

  /** A bit of x shifted left. */
  lemma {:induction false} ShiftedBit(x: nat, lo: nat, k: nat)
    ensures Bit(x * Pow2(lo), k) == if k < lo then 0 else Bit(x, k - lo)
  {
    hide Bit, Pow2;
    if lo == 0 {
      PowZero(x);
    } else if k == 0 {
      Pow2Double(lo);
      BitZero(x * Pow2(lo));
      Doubling(x, Pow2(lo - 1));
    } else {
      Pow2Double(lo);
      Doubling(x, Pow2(lo - 1));
      BitStep(x * Pow2(lo), k);
      ShiftedBit(x, lo - 1, k - 1);
    }
  }

  lemma PowZero(x: nat)
    ensures x * Pow2(0) == x
  {
  }

  lemma Doubling(x: nat, p: nat)
    ensures x * (2 * p) == 2 * (x * p) && x * (2 * p) / 2 == x * p && x * (2 * p) % 2 == 0
  {
    var t := x * p;
    assert x * (2 * p) == 2 * t;
  }

  /** A bit of a field shifted to lo and cut at n. */
  lemma FieldBit(x: u64, lo: nat, n: nat, k: nat)
    requires n <= 64
    ensures Bit(Shl64(x, lo) % Pow2(n), k) == if lo <= k < n then Bit(x, k - lo) else 0
  {
    hide Bit, Pow2;
    var y := Shl64(x, lo);
    if k < n {
      CutBits(y, n, k);
      Pow2Values();
      CutBits(x * Pow2(lo), 64, k);
      ShiftedBit(x, lo, k);
    } else {
      BitAbove(y % Pow2(n), n, k);
    }
  }

  /** MOVEUP, 7: the 18-bit field from bit 32 and the extension from bit 42 on, joined where they overlap. */
  lemma MoveUpRuns(s: State, w: u32, slot: nat, imm24: nat) returns (v: u64)
    requires Operation(w) == 7 && imm24 < TWO64
    ensures ExecuteUnit(s, w, slot, imm24) == Ok(Written(s, RegA(w), v))
    ensures forall k: nat | k < 64 ::
      Bit(v, k) == 1 <==> (k >= 32 && Bit(AluMoveImm(w), k - 32) == 1) || (k >= 42 && Bit(imm24, k - 42) == 1)
  {
    hide Operation, RegA, RegB, Unit, ExecuteUnit, AluMoveImm, Bitwise, Pow2, Bit, Shl64;
    UnitOfOperation(w);
    MoveFieldFits(w);
    var lo, hi := Shl64(AluMoveImm(w), 32), Shl64(imm24, 42);
    OrFits(lo, hi);
    v := Or(lo, hi);
    WritesRegister(s, w, slot, imm24, RegA(w), v);
    forall k: nat | k < 64
      ensures Bit(v, k) == OnBits(BitOp.OR, Bit(lo, k), Bit(hi, k))
      ensures Bit(lo, k) == if k >= 32 then Bit(AluMoveImm(w), k - 32) else 0
      ensures Bit(hi, k) == if k >= 42 then Bit(imm24, k - 42) else 0
    {
      BitOfBitwise(BitOp.OR, lo, hi, k);
      WordBit(AluMoveImm(w), 32, k);
      WordBit(imm24, 42, k);
    }
  }

  lemma WordBit(x: u64, lo: nat, k: nat)
    requires k < 64
    ensures Bit(Shl64(x, lo), k) == if lo <= k then Bit(x, k - lo) else 0
  {
    hide Bit, Pow2;
    Pow2Values();
    FieldBit(x, lo, 64, k);
    RemainderOfSmaller(Shl64(x, lo), TWO64);
  }

  // ---------------------------------------------------------------- everything else

  /** Operations no unit knows, and units the second slot lacks, run into an assertion. */
  predicate Unknown(oper: nat, slot: nat) {
    || oper in {1, 6, 8, 10, 11, 13, 14, 15, 29}
    || 48 <= oper < 96 || 102 <= oper < 112
    || (slot != 0 && oper >= 96)
  }

  lemma UnknownFails(s: State, w: u32, slot: nat, imm24: nat)
    requires Unknown(Operation(w), slot)
    ensures ExecuteUnit(s, w, slot, imm24) == Err(Undefined)
  {
    hide Operation, RegA, RegB, RegC, Unit, AluSrc2, Raw;
    UnitOfOperation(w);
  }
}
