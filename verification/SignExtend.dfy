/** What SEXT makes of a register, for every register value. */
module SignExtend {
  import opened Bits
  import opened Machine
  import opened Instructions
  import opened Opcode
  import Immediates
  import W = Width

  /** The low bits of v read as a signed number of that width. */
  function ReadSigned(v: nat, bits: nat): (r: int)
    requires bits > 0
    ensures 0 <= r + Pow2(bits - 1) < Pow2(bits)
  {
    var low := v % Pow2(bits);
    if low < Pow2(bits - 1) then low else low - Pow2(bits)
  }

  /** What the program's formula computes on any register: the low part is sign-extended, the rest added as it is. */
  lemma SextValue(v: u64, from: nat)
    requires from < 4
    ensures Sext(v, from) == (v - v % Pow2(8 * Pow2(from)) + ReadSigned(v, 8 * Pow2(from))) % TWO64
  {
    hide Bitwise, Pow2;
    var k := 8 * Pow2(from) - 1;
    Pow2Successor(k);
    NothingAbove(v, Pow2(k + 1));
    XorSign(v, k);
  }

  /** Flipping bit k, the sign of the low k + 1 bits. */
  lemma XorSign(v: nat, k: nat)
    ensures
      var low := v % Pow2(k + 1);
      Xor(v, Pow2(k)) == v - low + if low < Pow2(k) then low + Pow2(k) else low - Pow2(k)
  {
    hide Bitwise, Pow2;
    var m := Pow2(k + 1);
    var high := RoundDown(v, m);
    Pow2Successor(k);
    BitwiseSplit(BitOp.XOR, v % m, v / m, Pow2(k), 0, k + 1);
    WithZero(v / m);
    FlipSignBit(v % m, k);
  }

  /** SEXT reads the low 8 << from bits as a signed number exactly when no bit above them is set. */
  lemma SextExtends(v: u64, from: nat)
    requires from < 4
    ensures Signed64(Sext(v, from)) == ReadSigned(v, 8 * Pow2(from)) <==> v < Pow2(8 * Pow2(from))
  {
    hide Pow2, Sext, ReadSigned, Signed64;
    var bits := 8 * Pow2(from);
    SextWidths(from);
    SextValue(v, from);
    SignedRange(v, bits);
    NothingAbove(v, Pow2(bits));
    SignedIff(Sext(v, from), v - v % Pow2(bits), ReadSigned(v, bits));
  }

  lemma SignedRange(v: nat, bits: nat)
    requires 0 < bits <= 64
    ensures 0 <= ReadSigned(v, bits) + TWO63 < TWO64
  {
    hide Pow2;
    Pow2Successor(bits - 1);
    Pow2Monotone(bits - 1, 63);
    Pow2Values();
    Pow2Successor(63);
  }

  lemma NothingAbove(v: nat, p: nat)
    requires p > 0
    ensures 0 <= v - v % p <= v && (v - v % p == 0 <==> v < p)
  {
    if v < p {
      RemainderOfSmaller(v, p);
    }
  }

  lemma SignedIff(x: u64, high: nat, r: int)
    requires x == (high + r) % TWO64 && high < TWO64 && 0 <= r + TWO63 < TWO64
    ensures Signed64(x) == r <==> high == 0
  {
  }

  /** A word above the source width that SEXT does not sign-extend: 0x180 from bytes gives 128, not -128. */
  lemma SextKeepsHighBits()
    ensures Signed64(Sext(0x180, 0)) == 128 && ReadSigned(0x180, 8) == -128
  {
    hide Pow2, Sext;
    Pow2Values();
    Pow2Successor(7);
    assert Pow2(0) == 1 by { OneIsPow2(); }
    SextValue(0x180, 0);
  }

  lemma OneIsPow2()
    ensures Pow2(0) == 1
  {
  }

  lemma Pow2Successor(k: nat)
    ensures Pow2(k + 1) == 2 * Pow2(k)
  {
  }

  lemma SextWidths(from: nat)
    requires from < 4
    ensures 7 <= 8 * Pow2(from) - 1 <= 63 && Pow2(8 * Pow2(from) - 1) <= TWO63
  {
    assert Pow2(3) == 8;
    Pow2Monotone(0, from);
    Pow2Monotone(from, 3);
    Pow2Monotone(8 * Pow2(from) - 1, 63);
    Pow2Values();
    Pow2Add(31, 32);
  }

  lemma FlipSignBit(v: nat, k: nat)
    requires v < 2 * Pow2(k)
    ensures Xor(v, Pow2(k)) == if v < Pow2(k) then v + Pow2(k) else v - Pow2(k)
  {
    hide Bitwise, Pow2;
    var p := Pow2(k);
    if v < p {
      Immediates.JoinHigh(v, 1, k);
    } else {
      BitwiseSplit(BitOp.XOR, v - p, 1, 0, 1, k);
      WithZero(v - p);
      OneXorOne();
    }
  }

  lemma OneXorOne()
    ensures Xor(1, 1) == 0
  {
    BitwiseStep(BitOp.XOR, 1, 1);
    WithZero(0);
  }

  // ---------------------------------------------------------------- the instruction

  lemma SameResidueIff(d: int, r: int, m: int)
    requires m > 0
    ensures (d + r) % m == r % m <==> d % m == 0
  {
    if d % m == 0 {
      MultipleApart(d + r, r, d / m, m);
    } else if (d + r) % m == r % m {
      var k := (d + r) / m - r / m;
      assert d == k * m + 0;
      DivModUnique(d, m, k, 0);
    }
  }

  /** Of the bits from m on, those below n survive a cut to n unless they are 0. */
  lemma HighPartCut(v: nat, bits: nat, size: nat)
    ensures (v - v % Pow2(bits)) % Pow2(size) == 0 <==> v % Pow2(size) < Pow2(bits)
  {
    hide Pow2;
    if size <= bits {
      Pow2Monotone(size, bits);
      Pow2Add(size, bits - size);
      WholeCut(v, Pow2(bits), Pow2(size), Pow2(bits - size));
    } else {
      Pow2Add(bits, size - bits);
      HighDigits(v, Pow2(bits), Pow2(size - bits));
    }
  }

  lemma WholeCut(v: nat, m: nat, n: nat, c: nat)
    requires 0 < n <= m && m == n * c
    ensures (v - v % m) % n == 0 && v % n < m
  {
    var high := RoundDown(v, m);
    MultipleOfFactor(v / m, n, c);
  }

  lemma MultipleOfFactor(q: nat, n: nat, c: nat)
    requires n > 0
    ensures (q * (n * c)) % n == 0
  {
    assert q * (n * c) == (q * c) * n;
    DivModUnique(q * (n * c), n, q * c, 0);
  }

  lemma HighDigits(v: nat, m: nat, c: nat)
    requires m > 0 && c > 0
    ensures m * c > 0
    ensures (v - v % m) % (m * c) == 0 <==> v % (m * c) < m
  {
    var q := v / m;
    ModSplit(v, m, c);
    ModSplit(v - v % m, m, c);
    DivModUnique(v - v % m, m, q, 0);
    if q % c > 0 {
      MulMonotone(m, 1, q % c);
    }
  }

  /** SEXT cut to its operand size is the signed reading cut to that size, exactly when none of the bits
      between the source width and the operand size is set. */
  lemma SextRuns(s: State, w: u32, slot: nat, imm24: nat)
    requires Operation(w) == SEXT
    ensures
      var v, bits, n := s.gpi[RegB(w)], 8 * Pow2(SextInsize(w)), W.Modulus(Size(w));
      var e := UnitEffect(s, w, slot, imm24);
      && e.Ok? && e.value.Keys == {Gpi(RegA(w))}
      && e.value[Gpi(RegA(w))] == (v - v % Pow2(bits) + ReadSigned(v, bits)) % n
      && (e.value[Gpi(RegA(w))] == ReadSigned(v, bits) % n <==> v % n < Pow2(bits))
  {
    hide Sext, Bitwise, RegA, RegB, Operation, Unit, Size, SizeMask, Mask, SextInsize, ReadSigned, Pow2, W.Modulus;
    UnitOfOperation(w);
    SextCut(s.gpi[RegB(w)], SextInsize(w), w);
  }

  lemma SextCut(v: u64, from: nat, w: u32)
    requires from < 4
    ensures Mask(w, Sext(v, from)) ==
      (v - v % Pow2(8 * Pow2(from)) + ReadSigned(v, 8 * Pow2(from))) % W.Modulus(Size(w))
    ensures Mask(w, Sext(v, from)) == ReadSigned(v, 8 * Pow2(from)) % W.Modulus(Size(w))
        <==> v % W.Modulus(Size(w)) < Pow2(8 * Pow2(from))
  {
    hide Sext, Size, Mask, ReadSigned, Pow2, W.Modulus;
    var bits, n := 8 * Pow2(from), W.Modulus(Size(w));
    var high, r := v - v % Pow2(bits), ReadSigned(v, bits);
    SextValue(v, from);
    W.MaskIsModulus(w, Sext(v, from));
    W.WrapIsInvisible(high + r, Size(w));
    SameResidueIff(high, r, n);
    W.ModulusIsPow2(Size(w));
    HighPartCut(v, bits, W.SizeBits(Size(w)));
  }
}
