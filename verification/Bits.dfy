/** Fixed-width unsigned integers and bitwise operators, modelled on natural numbers. */
module Bits {

  const TWO32: nat := 0x1_0000_0000
  const TWO63: nat := 0x8000_0000_0000_0000
  const TWO64: nat := 0x1_0000_0000_0000_0000

  type u8 = x: int | 0 <= x < 0x100
  type u32 = x: int | 0 <= x < TWO32
  type u64 = x: int | 0 <= x < TWO64

  function Pow2(n: nat): (p: nat)
    ensures p > 0
  {
    if n == 0 then 1 else 2 * Pow2(n - 1)
  }

  datatype BitOp = AND | OR | XOR

  function OnBits(o: BitOp, a: nat, b: nat): (r: nat)
    ensures r <= 1
  {
    match o
    case AND => if a == 1 && b == 1 then 1 else 0
    case OR => if a == 1 || b == 1 then 1 else 0
    case XOR => if a != b then 1 else 0
  }

  /** The operator applied to every pair of bits of x and y, from the lowest up. */
  function Bitwise(o: BitOp, x: nat, y: nat): (r: nat)
    ensures o == AND ==> r <= x && r <= y
    decreases x + y
  {
    if x == 0 && y == 0 then 0
    else 2 * Bitwise(o, x / 2, y / 2) + OnBits(o, x % 2, y % 2)
  }

  function And(x: nat, y: nat): (r: nat)
    ensures r <= x && r <= y
  {
    Bitwise(AND, x, y)
  }

  function Or(x: nat, y: nat): nat { Bitwise(OR, x, y) }

  function Xor(x: nat, y: nat): nat { Bitwise(XOR, x, y) }

  // 64-bit arithmetic wraps around.
  function Add64(x: nat, y: nat): u64 { (x + y) % TWO64 }

  function Sub64(x: u64, y: u64): u64 { (x - y) % TWO64 }

  function Mul64(x: nat, y: nat): u64 { (x * y) % TWO64 }

  function Shl64(x: nat, n: nat): u64 { (x * Pow2(n)) % TWO64 }

  function Quotient(a: nat, b: nat): nat
    requires b > 0
  {
    a / b
  }

  function Remainder(a: nat, b: nat): nat
    requires b > 0
  {
    a % b
  }

  /** The part of a above the modulus. */
  function RoundDown(a: nat, b: nat): (r: nat)
    requires b > 0
    ensures r == (a / b) * b && r + a % b == a
  {
    MulMonotone(b, 0, a / b);
    b * (a / b)
  }

  function Shr(x: nat, n: nat): nat { Quotient(x, Pow2(n)) }

  /** The two's-complement reading of a 64-bit word. */
  function Signed64(x: u64): int { if x >= TWO63 then x - TWO64 else x }

  ghost predicate IsPow2(n: nat) { exists k: nat :: n == Pow2(k) }

  // ---------------------------------------------------------------- division

  lemma MulMonotone(d: nat, a: int, b: int)
    requires a <= b
    ensures d * a <= d * b
  {
    assert 0 <= d * (b - a) == d * b - d * a;
  }

  lemma DivModUnique(x: int, d: int, q: int, r: int)
    requires 0 <= r < d && x == q * d + r
    ensures x / d == q && x % d == r
  {
    var q' := x / d;
    if q' < q {
      MulMonotone(d, q' + 1, q);
    } else if q < q' {
      MulMonotone(d, q + 1, q');
    }
  }

  lemma RemainderOfSmaller(d: nat, n: nat)
    requires d < n
    ensures d % n == d
  {
    DivModUnique(d, n, 0, d);
  }

  /** Adding a multiple of the modulus changes nothing. */
  lemma ModAddMultiple(x: int, k: int, d: int)
    requires d > 0
    ensures (x + k * d) % d == x % d
  {
    DivModUnique(x + k * d, d, x / d + k, x % d);
  }

  lemma MultipleApart(x: int, y: int, k: int, d: int)
    requires d > 0 && x == y + k * d
    ensures x % d == y % d
  {
    ModAddMultiple(y, k, d);
  }

  /** Reducing first by a multiple of the modulus does not show. */
  lemma ModMod(x: int, a: int, b: int)
    requires a > 0 && b > 0
    ensures (x % (a * b)) % a == x % a
  {
    var q := x / (a * b);
    assert x % (a * b) == x + (-(q * b)) * a;
    ModAddMultiple(x, -(q * b), a);
  }

  lemma Regroup(c: int, p: int, q: int, t: int, r: int)
    ensures c * (p * q + t) + r == q * (c * p) + (c * t + r)
  {
    assert c * (p * q) == q * (c * p);
  }

  /** Division by a product, one factor at a time. */
  lemma ModSplit(x: int, c: int, p: int)
    requires c > 0 && p > 0
    ensures c * p > 0
    ensures x % (c * p) == c * ((x / c) % p) + x % c
    ensures x / (c * p) == (x / c) / p
  {
    var h, r := x / c, x % c;
    var q, t := h / p, h % p;
    MulMonotone(c, 1, p);
    MulMonotone(c, t + 1, p);
    MulMonotone(c, 0, t);
    assert x == c * h + r && h == p * q + t;
    Regroup(c, p, q, t, r);
    DivModUnique(x, c * p, q, c * t + r);
  }

  lemma ModDouble(x: int, p: int)
    requires p > 0
    ensures x % (2 * p) == 2 * ((x / 2) % p) + x % 2
    ensures x / (2 * p) == (x / 2) / p
  {
    ModSplit(x, 2, p);
  }

  // --------------------------------------------------------------- powers of two

  lemma Pow2Add(m: nat, n: nat)
    ensures Pow2(m + n) == Pow2(m) * Pow2(n)
  {
    if m == 0 {
    } else {
      Pow2Add(m - 1, n);
      assert Pow2(m + n) == 2 * Pow2(m - 1 + n);
      assert 2 * (Pow2(m - 1) * Pow2(n)) == (2 * Pow2(m - 1)) * Pow2(n);
    }
  }

  lemma Pow2Double(k: nat)
    requires k > 0
    ensures Pow2(k) == 2 * Pow2(k - 1)
    ensures (Pow2(k) - 1) / 2 == Pow2(k - 1) - 1 && (Pow2(k) - 1) % 2 == 1
  {
  }

  lemma Pow2Monotone(m: nat, n: nat)
    requires m <= n
    ensures Pow2(m) <= Pow2(n)
  {
    if m < n {
      Pow2Monotone(m, n - 1);
    }
  }

  lemma Pow2Values()
    ensures Pow2(8) == 0x100 && Pow2(9) == 0x200 && Pow2(10) == 0x400 && Pow2(16) == 0x1_0000 && Pow2(18) == 0x4_0000
    ensures Pow2(24) == 0x100_0000 && Pow2(27) == 0x800_0000 && Pow2(28) == 0x1000_0000
    ensures Pow2(29) == 0x2000_0000 && Pow2(30) == 0x4000_0000 && Pow2(31) == 0x8000_0000 && Pow2(32) == TWO32
    ensures Pow2(64) == TWO64
  {
    Pow2Add(8, 8);
    Pow2Add(16, 16);
    Pow2Add(32, 32);
    Pow2Add(16, 8);
    Pow2Add(24, 3);
  }

  // --------------------------------------------------------------- bit lemmas

  /** The defining step also holds at zero. */
  lemma BitwiseStep(o: BitOp, x: nat, y: nat)
    ensures Bitwise(o, x, y) == 2 * Bitwise(o, x / 2, y / 2) + OnBits(o, x % 2, y % 2)
  {
    if x == 0 && y == 0 {
      assert OnBits(o, 0, 0) == 0;
    }
  }

  lemma BitwiseHalves(o: BitOp, x: nat, y: nat)
    ensures Bitwise(o, x, y) / 2 == Bitwise(o, x / 2, y / 2)
    ensures Bitwise(o, x, y) % 2 == OnBits(o, x % 2, y % 2)
  {
    BitwiseStep(o, x, y);
  }

  lemma LowHalf(x: nat, p: nat, d: nat)
    requires p > 0 && d == 2 * p
    ensures (x % d) / 2 == (x / 2) % p && (x % d) % 2 == x % 2
  {
    ModDouble(x, p);
  }

  lemma SameHalves(a: nat, b: nat)
    requires a / 2 == b / 2 && a % 2 == b % 2
    ensures a == b
  {
  }

  /** The low k bits of the result are the operator on the low k bits of the operands. */
  lemma {:induction false} BitwiseMod(o: BitOp, x: nat, y: nat, k: nat)
    ensures Bitwise(o, x, y) % Pow2(k) == Bitwise(o, x % Pow2(k), y % Pow2(k))
  {
    if k == 0 {
      assert x % 1 == 0 && y % 1 == 0;
    } else {
      hide Bitwise, Pow2, OnBits;
      var p, d := Pow2(k - 1), Pow2(k);
      Pow2Double(k);
      BitwiseMod(o, x / 2, y / 2, k - 1);
      LowHalf(x, p, d);
      LowHalf(y, p, d);
      LowHalf(Bitwise(o, x, y), p, d);
      BitwiseHalves(o, x, y);
      BitwiseHalves(o, x % d, y % d);
      SameHalves(Bitwise(o, x, y) % d, Bitwise(o, x % d, y % d));
    }
  }

  lemma Doubled(p: nat, h: nat)
    ensures p * h >= 0 && p * (2 * h) == 2 * (p * h)
  {
  }

  /** One more low bit in front of operands whose upper parts already combine. */
  lemma SplitStep(o: BitOp, a: nat, b: nat, p: nat, q: nat, r: nat)
    requires Bitwise(o, a / 2 + p, b / 2 + q) == Bitwise(o, a / 2, b / 2) + r
    ensures Bitwise(o, a + 2 * p, b + 2 * q) == Bitwise(o, a, b) + 2 * r
  {
    hide Bitwise;
    BitwiseStep(o, a + 2 * p, b + 2 * q);
    BitwiseStep(o, a, b);
  }

  /** Splitting both operands at bit k: low parts and high parts combine separately. */
  lemma {:induction false} BitwiseSplit(o: BitOp, a: nat, p: nat, b: nat, q: nat, k: nat)
    requires a < Pow2(k) && b < Pow2(k)
    ensures Bitwise(o, a + p * Pow2(k), b + q * Pow2(k)) == Bitwise(o, a, b) + Bitwise(o, p, q) * Pow2(k)
  {
    hide Bitwise, Pow2;
    if k == 0 {
      BitwiseAtZero(o);
    } else {
      var h, r := Pow2(k - 1), Bitwise(o, p, q);
      Pow2Double(k);
      Doubled(p, h);
      Doubled(q, h);
      Doubled(r, h);
      BitwiseSplit(o, a / 2, p, b / 2, q, k - 1);
      SplitStep(o, a, b, p * h, q * h, r * h);
    }
  }

  lemma BitwiseAtZero(o: BitOp)
    ensures Bitwise(o, 0, 0) == 0 && Pow2(0) == 1
  {
  }

  lemma {:induction false} AndOnes(q: nat, k: nat)
    requires q < Pow2(k)
    ensures And(q, Pow2(k) - 1) == q
  {
    hide Bitwise, Pow2;
    if k == 0 {
      BitwiseAtZero(AND);
    } else {
      Pow2Double(k);
      BitwiseStep(AND, q, Pow2(k) - 1);
      AndOnes(q / 2, k - 1);
    }
  }

  /** Masking with 2^k - 1 is the remainder modulo 2^k. */
  lemma {:induction false} AndLowMask(x: nat, k: nat)
    ensures And(x, Pow2(k) - 1) == x % Pow2(k)
  {
    hide Bitwise, Pow2;
    var p := Pow2(k);
    var high := RoundDown(x, p);
    BitwiseSplit(AND, x % p, x / p, p - 1, 0, k);
    AndOnes(x % p, k);
    WithZero(x / p);
  }

  lemma {:induction false} WithZero(x: nat)
    ensures And(x, 0) == 0 && Or(x, 0) == x && Xor(x, 0) == x
    ensures Or(0, x) == x && Xor(0, x) == x && And(0, x) == 0
  {
    if x != 0 {
      WithZero(x / 2);
    }
  }

  /** Flipping all k bits of q subtracts it from 2^k - 1. */
  lemma {:induction false} XorOnes(q: nat, k: nat)
    requires q < Pow2(k)
    ensures Xor(Pow2(k) - 1, q) == Pow2(k) - 1 - q
  {
    if k == 0 {
      WithZero(0);
    } else {
      hide Bitwise, Pow2;
      Pow2Double(k);
      BitwiseStep(XOR, Pow2(k) - 1, q);
      XorOnes(q / 2, k - 1);
    }
  }

  /** OR of numbers that share no bit is their sum. */
  lemma {:induction false} OrDisjoint(a: nat, q: nat, k: nat)
    requires a < Pow2(k)
    ensures Or(a, q * Pow2(k)) == a + q * Pow2(k)
  {
    hide Bitwise;
    BitwiseSplit(OR, a, 0, 0, q, k);
    WithZero(a);
    WithZero(q);
  }

  lemma {:induction false} AndOne(x: nat)
    ensures And(x, 1) == x % 2
  {
    BitwiseStep(AND, x, 1);
    WithZero(x / 2);
  }

  /** Testing one bit. */
  lemma {:induction false} AndBit(x: nat, k: nat)
    ensures And(x, Pow2(k)) == (x / Pow2(k) % 2) * Pow2(k)
  {
    hide Bitwise, Pow2;
    var p := Pow2(k);
    var high := RoundDown(x, p);
    BitwiseSplit(AND, x % p, x / p, 0, 1, k);
    WithZero(x % p);
    AndOne(x / p);
  }
}
