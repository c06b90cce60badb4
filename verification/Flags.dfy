/** Which flag bits a comparison leaves, and when N means less-than. */
module Flags {
  import opened Bits
  import opened Instructions

  function Bit(x: nat, k: nat): (b: nat)
    ensures b <= 1
  {
    x / Pow2(k) % 2
  }

  lemma BitStep(x: nat, k: nat)
    requires k > 0
    ensures Bit(x, k) == Bit(x / 2, k - 1)
  {
    hide Pow2;
    Pow2Double(k);
    ModDouble(x, Pow2(k - 1));
  }

  lemma BitZero(x: nat)
    ensures Bit(x, 0) == x % 2
  {
  }

  /** Bit k of the result is the operator on bit k of the operands. */
  lemma {:induction false} BitOfBitwise(o: BitOp, x: nat, y: nat, k: nat)
    ensures Bit(Bitwise(o, x, y), k) == OnBits(o, Bit(x, k), Bit(y, k))
  {
    hide Bitwise, OnBits, Bit;
    BitwiseHalves(o, x, y);
    if k == 0 {
      BitZero(x);
      BitZero(y);
      BitZero(Bitwise(o, x, y));
    } else {
      BitStep(x, k);
      BitStep(y, k);
      BitStep(Bitwise(o, x, y), k);
      BitOfBitwise(o, x / 2, y / 2, k - 1);
    }
  }

  /** The word with bit j alone, and the word with every other one of the low n bits. */
  lemma {:induction false} BitOfMask(j: nat, n: nat, k: nat)
    requires j < n && k < n
    ensures Pow2(j) < Pow2(n)
    ensures Bit(Pow2(j), k) == Flag(j == k)
    ensures Bit(Pow2(n) - 1 - Pow2(j), k) == Flag(j != k)
  {
    hide Bit, Bitwise, OnBits;
    MaskBits(j, k);
    FullBits(n, k);
    Pow2Monotone(j, n - 1);
    XorOnes(Pow2(j), n);
    BitOfBitwise(BitOp.XOR, Pow2(n) - 1, Pow2(j), k);
    XorBits(Bit(Pow2(j), k));
  }

  lemma XorBits(b: nat)
    requires b <= 1
    ensures OnBits(BitOp.XOR, 1, b) == 1 - b
  {
  }

  lemma {:induction false} MaskBits(j: nat, k: nat)
    ensures Bit(Pow2(j), k) == Flag(j == k)
  {
    hide Bit;
    if k == 0 {
      BitZero(Pow2(j));
    } else {
      BitStep(Pow2(j), k);
      if j == 0 {
        NoBits(k - 1);
      } else {
        MaskBits(j - 1, k - 1);
      }
    }
  }

  lemma NoBits(k: nat)
    ensures Bit(0, k) == 0
  {
  }

  lemma {:induction false} FullBits(n: nat, k: nat)
    requires k < n
    ensures Bit(Pow2(n) - 1, k) == 1
  {
    hide Bit;
    Pow2Double(n);
    if k == 0 {
      BitZero(Pow2(n) - 1);
    } else {
      BitStep(Pow2(n) - 1, k);
      FullBits(n - 1, k - 1);
    }
  }

  /** Setting or clearing one flag changes that bit alone. */
  lemma SetFlagBits(fr: u32, j: nat, on: bool, k: nat)
    requires j < 32 && k < 32
    ensures Pow2(j) < TWO32
    ensures Bit(SetFlag(fr, Pow2(j), on), k) == if k == j then Flag(on) else Bit(fr, k)
  {
    hide Bit, Bitwise, Pow2;
    Pow2Values();
    BitOfMask(j, 32, k);
    if on {
      BitOfBitwise(BitOp.OR, fr, Pow2(j), k);
    } else {
      BitOfBitwise(BitOp.AND, fr, 0xFFFF_FFFF - Pow2(j), k);
    }
  }

  /** Bits below n survive a cut to n bits. */
  lemma CutBits(x: nat, n: nat, k: nat)
    requires k < n
    ensures Bit(x % Pow2(n), k) == Bit(x, k)
  {
    hide Pow2;
    Pow2Add(k, n - k);
    Pow2Double(n - k);
    DigitOfCut(x, Pow2(k), Pow2(n - k - 1), 2 * Pow2(n - k - 1));
  }

  /** There are no bits from the width of a number on. */
  lemma BitAbove(x: nat, n: nat, k: nat)
    requires x < Pow2(n) && n <= k
    ensures Bit(x, k) == 0
  {
    Pow2Monotone(n, k);
    DivModUnique(x, Pow2(k), 0, x);
  }

  /** Bits below 32 survive the cut to a flag register. */
  lemma CutKeepsBit(x: nat, k: nat)
    requires k < 32
    ensures Bit(x % TWO32, k) == Bit(x, k)
  {
    hide Pow2, Bit;
    Pow2Values();
    CutBits(x, 32, k);
  }

  lemma DigitOfCut(x: nat, p: nat, q: nat, d: nat)
    requires p > 0 && q > 0 && d == 2 * q
    ensures p * d > 0 && x % (p * d) / p % 2 == x / p % 2
  {
    var h := x / p;
    ModSplit(x, p, d);
    DivModUnique(x % (p * d), p, h % d, x % p);
    ModDouble(h, q);
  }

  /** The sign bit of a 64-bit word. */
  lemma SignBit(d: u64)
    ensures And(d, 0x8000_0000_0000_0000) != 0 <==> d >= TWO63
  {
    hide Bitwise, Pow2;
    Pow2Values();
    Pow2Double(64);
    AndBit(d, 63);
  }

  const Z_BIT: nat := 0
  const N_BIT: nat := 2

  /** What CMP is for, bit by bit: Z says that the operands are equal, N is the sign of their wrapped
      difference, and every other bit of the flag register stays. */
  function ComparedBit(fr: u32, a: u64, b: u64, k: nat): nat {
    if k == Z_BIT then Flag(a == b) else if k == N_BIT then Flag(Sub64(a, b) >= TWO63) else Bit(fr, k)
  }

  lemma CompareBits(fr: u32, a: u64, b: u64, k: nat)
    requires k < 32
    ensures Bit(Compare(fr, a, b) % TWO32, k) == ComparedBit(fr, a, b, k)
  {
    hide Bit, Bitwise, Pow2, SetFlag;
    FlagMasks();
    var d := Sub64(a, b);
    SignBit(d);
    var z := SetFlag(fr, 0x01, d == 0);
    SetFlagBits(fr, Z_BIT, d == 0, k);
    CutKeepsBit(z, k);
    SetFlagBits(z % TWO32, N_BIT, d >= TWO63, k);
    CutKeepsBit(Compare(fr, a, b), k);
  }

  lemma FlagMasks()
    ensures Pow2(Z_BIT) == 0x01 && Pow2(N_BIT) == 0x04
  {
    assert Pow2(1) == 2;
  }

  lemma NegativeMeansLess(a: u64, b: u64)
    ensures (Sub64(a, b) >= TWO63 <==> Signed64(a) < Signed64(b))
      <==> 0 <= Signed64(a) - Signed64(b) + TWO63 < TWO64
  {
  }

  lemma TestedBit(fr: u32, k: nat)
    ensures And(fr, Pow2(k)) != 0 <==> Bit(fr, k) == 1
  {
    hide Bitwise, Pow2;
    AndBit(fr, k);
  }

  /** As the branches test the flags: Z means equal operands, and N means signed less-than exactly when the
      signed difference fits 64 bits. */
  lemma CompareTested(fr: u32, a: u64, b: u64)
    ensures And(Compare(fr, a, b) % TWO32, 0x01) != 0 <==> a == b
    ensures (And(Compare(fr, a, b) % TWO32, 0x04) != 0 <==> Signed64(a) < Signed64(b))
      <==> 0 <= Signed64(a) - Signed64(b) + TWO63 < TWO64
  {
    hide Bit, Bitwise, Pow2, Compare, Sub64, Signed64;
    FlagMasks();
    CompareBits(fr, a, b, Z_BIT);
    CompareBits(fr, a, b, N_BIT);
    TestedBit(Compare(fr, a, b) % TWO32, Z_BIT);
    TestedBit(Compare(fr, a, b) % TWO32, N_BIT);
    NegativeMeansLess(a, b);
  }
}
