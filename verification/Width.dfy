/** Dropping the cut to the operand size after every operation, and cutting once at the end. */
module Width {
  import opened Bits
  import opened Results
  import opened Machine
  import opened Instructions
  import opened Opcode

  datatype Op = Op(word: u32, imm24: nat)

  /** The operations that keep the low bits independent of the high ones. */
  predicate LowBitsOnly(op: Op) {
    var oper := Operation(op.word);
    ADD <= oper <= Opcode.AND
    || (oper == LSL && AluHasImm(op.word) && ExtendedImm9(AluImm9(op.word), op.imm24) < 64)
  }

  predicate Straight(p: seq<Op>, n: nat) {
    forall i | 0 <= i < |p| :: LowBitsOnly(p[i]) && Size(p[i].word) == n
  }

  function SizeBits(n: nat): nat
    requires n < 4
  {
    if n == 0 then 8 else if n == 1 then 16 else if n == 2 then 32 else 64
  }

  function Modulus(n: nat): (m: nat)
    requires n < 4
    ensures m > 0
  {
    SizeMask(n) + 1
  }

  lemma ModulusIsPow2(n: nat)
    requires n < 4
    ensures Modulus(n) == Pow2(SizeBits(n))
  {
    Pow2Values();
  }

  function Unmasked(g: RegFile, op: Op): nat
    requires LowBitsOnly(op)
  {
    Raw(Operation(op.word), g[RegB(op.word)], AluSrc2(g, op.word, op.imm24)).value
  }

  function Cleared(g: RegFile): RegFile { g[REG_ZERO := 0] }

  /** One operation without the cut: registers keep all 64 bits. */
  function UnmaskedStep(g: RegFile, op: Op): RegFile
    requires LowBitsOnly(op)
  {
    var c := Cleared(g);
    c[RegA(op.word) := Unmasked(c, op) % TWO64]
  }

  function UnmaskedRun(g: RegFile, p: seq<Op>): RegFile
    requires forall i | 0 <= i < |p| :: LowBitsOnly(p[i])
  {
    if |p| == 0 then g else UnmaskedStep(UnmaskedRun(g, p[..|p| - 1]), p[|p| - 1])
  }

  /** The machine itself, one unit after the other in slot 0. */
  function RunUnits(s: State, p: seq<Op>): Result<State> {
    if |p| == 0 then Ok(s)
    else
      var t :- RunUnits(s, p[..|p| - 1]);
      ExecuteUnit(t, p[|p| - 1].word, 0, p[|p| - 1].imm24)
  }

  ghost predicate CongruentFiles(g: RegFile, h: RegFile, n: nat)
    requires n < 4
  {
    forall r: Reg :: g[r] % Modulus(n) == h[r] % Modulus(n)
  }

  // ---------------------------------------------------------------- arithmetic modulo 2^k

  /** Congruent numbers differ by a multiple of the modulus. */
  lemma CongruenceStep(a: int, c: int, m: int) returns (p: int)
    requires m > 0 && a % m == c % m
    ensures a == c + p * m
  {
    p := a / m - c / m;
    assert a == m * (a / m) + a % m && c == m * (c / m) + c % m;
    Distribute(a / m, c / m, m);
  }

  lemma ModSum(a: int, b: int, c: int, d: int, m: int)
    requires m > 0 && a % m == c % m && b % m == d % m
    ensures (a + b) % m == (c + d) % m && (a - b) % m == (c - d) % m
  {
    var p := CongruenceStep(a, c, m);
    var q := CongruenceStep(b, d, m);
    Distribute(p, q, m);
    MultipleApart(a + b, c + d, p + q, m);
    MultipleApart(a - b, c - d, p - q, m);
  }

  lemma Distribute(p: int, q: int, m: int)
    ensures (p + q) * m == p * m + q * m && (p - q) * m == p * m - q * m
  {
  }

  lemma ModProduct(a: int, c: int, f: int, m: int)
    requires m > 0 && a % m == c % m
    ensures (a * f) % m == (c * f) % m
  {
    var p := CongruenceStep(a, c, m);
    ProductTerms(c, p, m, f);
    ModAddMultiple(c * f, p * f, m);
  }

  lemma ProductTerms(c: int, p: int, m: int, f: int)
    ensures (c + p * m) * f == c * f + (p * f) * m
  {
    assert (p * m) * f == (p * f) * m;
  }

  /** Wrapping at 64 bits does not disturb the low bits. */
  lemma WrapIsInvisible(x: int, n: nat)
    requires n < 4
    ensures (x % TWO64) % Modulus(n) == x % Modulus(n)
  {
    ModMod(x, Modulus(n), TWO64 / Modulus(n));
  }

  lemma ShiftCongruent(a: nat, c: nat, k: nat, n: nat)
    requires n < 4 && a % Modulus(n) == c % Modulus(n)
    ensures Shl64(a, k) % Modulus(n) == Shl64(c, k) % Modulus(n)
  {
    hide Pow2;
    WrapIsInvisible(a * Pow2(k), n);
    WrapIsInvisible(c * Pow2(k), n);
    ModProduct(a, c, Pow2(k), Modulus(n));
  }

  lemma BitwiseCongruent(o: BitOp, a: nat, b: nat, c: nat, d: nat, n: nat)
    requires n < 4 && a % Modulus(n) == c % Modulus(n) && b % Modulus(n) == d % Modulus(n)
    ensures Bitwise(o, a, b) % Modulus(n) == Bitwise(o, c, d) % Modulus(n)
  {
    hide Bitwise;
    ModulusIsPow2(n);
    BitwiseMod(o, a, b, SizeBits(n));
    BitwiseMod(o, c, d, SizeBits(n));
  }

  lemma DifferenceCongruent(a: u64, b: nat, c: u64, d: nat, n: nat)
    requires n < 4 && a % Modulus(n) == c % Modulus(n) && b % Modulus(n) == d % Modulus(n)
    ensures Sub64(a, b % TWO64) % Modulus(n) == Sub64(c, d % TWO64) % Modulus(n)
  {
    hide Modulus;
    WrapIsInvisible(b, n);
    WrapIsInvisible(d, n);
    ModSum(a, b % TWO64, c, d % TWO64, Modulus(n));
    WrapIsInvisible(a - b % TWO64, n);
    WrapIsInvisible(c - d % TWO64, n);
  }

  lemma RawCongruent(oper: nat, a: u64, b: nat, c: u64, d: nat, n: nat)
    requires n < 4 && a % Modulus(n) == c % Modulus(n) && b % Modulus(n) == d % Modulus(n)
    requires ADD <= oper <= LSL
    requires oper == LSL ==> b == d < 64
    ensures Raw(oper, a, b).Ok? && Raw(oper, c, d).Ok?
    ensures Raw(oper, a, b).value % Modulus(n) == Raw(oper, c, d).value % Modulus(n)
  {
    hide Bitwise, Shl64, Sub64, Modulus;
    if oper == ADD {
      ModSum(a, b, c, d, Modulus(n));
      WrapIsInvisible(a + b, n);
      WrapIsInvisible(c + d, n);
    } else if oper == SUB {
      DifferenceCongruent(a, b, c, d, n);
    } else if oper == LSL {
      ShiftCongruent(a, c, b, n);
    } else {
      BitwiseCongruent(BitOp.XOR, a, b, c, d, n);
      BitwiseCongruent(BitOp.OR, a, b, c, d, n);
      BitwiseCongruent(BitOp.AND, a, b, c, d, n);
    }
  }

  // ---------------------------------------------------------------- the transformation

  lemma UnmaskedCongruent(g: RegFile, h: RegFile, op: Op, n: nat)
    requires n < 4 && LowBitsOnly(op) && CongruentFiles(g, h, n)
    ensures Unmasked(g, op) % Modulus(n) == Unmasked(h, op) % Modulus(n)
  {
    hide Raw, Modulus, Shl64, ExtendedImm9, Operation, RegB, RegC, AluHasImm;
    var w := op.word;
    if !AluHasImm(w) {
      ShiftCongruent(g[RegC(w)], h[RegC(w)], AluShift(w), n);
    }
    RawCongruent(Operation(w), g[RegB(w)], AluSrc2(g, w, op.imm24), h[RegB(w)], AluSrc2(h, w, op.imm24), n);
  }

  lemma MaskIsModulus(w: u32, v: nat)
    ensures Mask(w, v) == v % Modulus(Size(w))
  {
    hide Bitwise, Pow2;
    ModulusIsPow2(Size(w));
    AndLowMask(v, SizeBits(Size(w)));
  }

  /** One unit of the machine writes the unmasked value cut to its size. */
  lemma UnitMasks(s: State, op: Op)
    requires LowBitsOnly(op)
    ensures var c := Cleared(s.gpi);
      ExecuteUnit(s, op.word, 0, op.imm24) ==
        Ok(ClearZero(s).(gpi := c[RegA(op.word) := Unmasked(c, op) % Modulus(Size(op.word))]))
  {
    hide Bitwise, Raw, AluSrc2, Modulus, Mask, Commit, RegA, RegB, Operation, Unit;
    var c, w := ClearZero(s), op.word;
    UnitOfOperation(w);
    var v := Unmasked(c.gpi, op);
    RawDefined(c.gpi, op);
    MaskIsModulus(w, v);
    CommitRegister(c, false, RegA(w), Mask(w, v));
    ModulusFits(v, Size(w));
  }

  lemma ModulusFits(v: nat, n: nat)
    requires n < 4
    ensures (v % Modulus(n)) % TWO64 == v % Modulus(n)
  {
    assert Modulus(n) <= TWO64;
  }

  lemma RawDefined(g: RegFile, op: Op)
    requires LowBitsOnly(op)
    ensures Raw(Operation(op.word), g[RegB(op.word)], AluSrc2(g, op.word, op.imm24)).Ok?
  {
    hide Bitwise, Pow2;
  }

  lemma StepCongruent(s: State, h: RegFile, op: Op)
    requires LowBitsOnly(op) && CongruentFiles(s.gpi, h, Size(op.word))
    ensures var r := ExecuteUnit(s, op.word, 0, op.imm24);
      r.Ok? && CongruentFiles(r.value.gpi, UnmaskedStep(h, op), Size(op.word))
  {
    hide Modulus, Unmasked, ExecuteUnit, RegA, Size;
    var n := Size(op.word);
    var c, d := Cleared(s.gpi), Cleared(h);
    UnitMasks(s, op);
    UnmaskedCongruent(c, d, op, n);
    WrapIsInvisible(Unmasked(d, op), n);
    TwiceModulus(Unmasked(c, op), n);
  }

  lemma TwiceModulus(v: nat, n: nat)
    requires n < 4
    ensures v % Modulus(n) % Modulus(n) == v % Modulus(n)
  {
  }

  /** A straight-line program runs, and gives the registers of the mask-free program modulo 2^size. */
  lemma {:induction false} MaskOnceAtTheEnd(s: State, h: RegFile, p: seq<Op>, n: nat)
    requires n < 4 && Straight(p, n) && CongruentFiles(s.gpi, h, n)
    ensures RunUnits(s, p).Ok?
    ensures CongruentFiles(RunUnits(s, p).value.gpi, UnmaskedRun(h, p), n)
  {
    hide ExecuteUnit, UnmaskedStep, Modulus, LowBitsOnly, Size;
    if |p| > 0 {
      MaskOnceAtTheEnd(s, h, p[..|p| - 1], n);
      StepCongruent(RunUnits(s, p[..|p| - 1]).value, UnmaskedRun(h, p[..|p| - 1]), p[|p| - 1]);
    }
  }

  ghost predicate Narrow(g: RegFile, n: nat)
    requires n < 4
  {
    forall r: Reg :: g[r] < Modulus(n)
  }

  lemma {:induction false} RunStaysNarrow(s: State, p: seq<Op>, n: nat)
    requires n < 4 && Straight(p, n) && Narrow(s.gpi, n)
    ensures RunUnits(s, p).Ok? ==> Narrow(RunUnits(s, p).value.gpi, n)
  {
    hide ExecuteUnit, Modulus, LowBitsOnly, Size, Unmasked, RegA;
    if |p| > 0 {
      RunStaysNarrow(s, p[..|p| - 1], n);
      if RunUnits(s, p).Ok? {
        UnitMasks(RunUnits(s, p[..|p| - 1]).value, p[|p| - 1]);
      }
    }
  }

  /** Starting from registers of the operand size, one cut at the end gives the very same registers. */
  lemma SameRegisters(s: State, p: seq<Op>, n: nat, r: Reg)
    requires n < 4 && Straight(p, n) && Narrow(s.gpi, n)
    ensures RunUnits(s, p).Ok?
    ensures RunUnits(s, p).value.gpi[r] == UnmaskedRun(s.gpi, p)[r] % Modulus(n)
  {
    hide RunUnits, UnmaskedRun, Modulus, LowBitsOnly, Straight;
    MaskOnceAtTheEnd(s, s.gpi, p, n);
    RunStaysNarrow(s, p, n);
    RemainderOfSmaller(RunUnits(s, p).value.gpi[r], Modulus(n));
  }
}
