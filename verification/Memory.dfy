/** The banked memory map: six byte banks behind one 64-bit address space. */
module Memory {
  import opened Bits
  import opened Results

  const IO_BEGIN: u64 := 0x0800_0000
  const ROM_BEGIN: u64 := 0x1000_0000
  const SPMT_BEGIN: u64 := 0x2000_0000
  const SPM2_BEGIN: u64 := 0x4000_0000
  const WRAM_BEGIN: u64 := 0x8000_0000

  const SPM_SIZE: nat := 0x4000
  const IO_SIZE: nat := 0x8_0000
  const ROM_SIZE: nat := 0x100_0000

  datatype Bank = Spm | Io | Rom | Spmt | Spm2 | Wram

  /** The contents of all banks. */
  datatype Mem = Mem(spm: seq<u8>, io: seq<u8>, rom: seq<u8>, spmt: seq<u8>, spm2: seq<u8>, wram: seq<u8>) {
    function Of(b: Bank): seq<u8> {
      match b
      case Spm => spm
      case Io => io
      case Rom => rom
      case Spmt => spmt
      case Spm2 => spm2
      case Wram => wram
    }

    function With(b: Bank, bytes: seq<u8>): (m: Mem)
      ensures forall c: Bank :: m.Of(c) == if c == b then bytes else Of(c)
    {
      match b
      case Spm => this.(spm := bytes)
      case Io => this.(io := bytes)
      case Rom => this.(rom := bytes)
      case Spmt => this.(spmt := bytes)
      case Spm2 => this.(spm2 := bytes)
      case Wram => this.(wram := bytes)
    }

    ghost predicate FixedSizes() {
      |spm| == SPM_SIZE && |io| == IO_SIZE && |rom| == ROM_SIZE
    }
  }

  ghost predicate SameSizes(m: Mem, n: Mem) { forall b: Bank :: |m.Of(b)| == |n.Of(b)| }

  lemma SameBanks(m: Mem, n: Mem)
    requires forall b: Bank :: m.Of(b) == n.Of(b)
    ensures m == n
  {
    assert m.Of(Spm) == n.Of(Spm) && m.Of(Io) == n.Of(Io) && m.Of(Rom) == n.Of(Rom);
    assert m.Of(Spmt) == n.Of(Spmt) && m.Of(Spm2) == n.Of(Spm2) && m.Of(Wram) == n.Of(Wram);
  }

  // ---------------------------------------------------------------- mapping

  function SelectBank(addr: u64): Bank {
    if And(addr, WRAM_BEGIN) != 0 then Wram
    else if And(addr, SPM2_BEGIN) != 0 then Spm2
    else if And(addr, SPMT_BEGIN) != 0 then Spmt
    else if And(addr, ROM_BEGIN) != 0 then Rom
    else if And(addr, IO_BEGIN) != 0 then Io
    else Spm
  }

  /** Size minus one as a 64-bit word: an empty bank has the all-ones mask. */
  function MaskOf(size: nat): u64 { (size - 1) % TWO64 }

  function OffsetMask(m: Mem, b: Bank): u64 {
    match b
    case Wram => MaskOf(|m.wram|)
    case Spm2 => MaskOf(|m.spm2|)
    case Spmt => MaskOf(|m.spmt|)
    case Rom => 0xFF_FFFF
    case Io => 0x7_FFFF
    case Spm => 0x3FFF
  }

  function Offset(m: Mem, addr: u64): nat { And(addr, OffsetMask(m, SelectBank(addr))) }

  // ---------------------------------------------------------------- bytes

  function Splice(s: seq<u8>, off: nat, bytes: seq<u8>): (t: seq<u8>)
    requires off + |bytes| <= |s|
    ensures |t| == |s|
    ensures t[off..off + |bytes|] == bytes
    ensures forall i | 0 <= i < |s| :: t[i] == if off <= i < off + |bytes| then bytes[i - off] else s[i]
  {
    s[..off] + bytes + s[off + |bytes|..]
  }

  predicate Holds(m: Mem, addr: u64, n: nat) { Offset(m, addr) + n <= |m.Of(SelectBank(addr))| }

  /** Copying bytes to a mapped address. */
  function WriteMem(m: Mem, addr: u64, bytes: seq<u8>): (r: Result<Mem>)
    ensures r.Ok? <==> Holds(m, addr, |bytes|)
    ensures r.Ok? ==> SameSizes(m, r.value)
    ensures r.Err? ==> r == Err(OutsideBank)
  {
    var b, off := SelectBank(addr), Offset(m, addr);
    if off + |bytes| <= |m.Of(b)| then Ok(m.With(b, Splice(m.Of(b), off, bytes))) else Err(OutsideBank)
  }

  /** Copying n bytes from a mapped address. */
  function ReadMem(m: Mem, addr: u64, n: nat): (r: Result<seq<u8>>)
    ensures r.Ok? <==> Holds(m, addr, n)
    ensures r.Ok? ==> |r.value| == n
    ensures r.Err? ==> r == Err(OutsideBank)
  {
    var b, off := SelectBank(addr), Offset(m, addr);
    if off + n <= |m.Of(b)| then Ok(m.Of(b)[off..off + n]) else Err(OutsideBank)
  }

  /** Little-endian bytes of a word. */
  function ToBytes(v: nat, n: nat): (s: seq<u8>)
    ensures |s| == n
  {
    if n == 0 then [] else [v % 0x100] + ToBytes(v / 0x100, n - 1)
  }

  function FromBytes(s: seq<u8>): nat {
    if |s| == 0 then 0 else s[0] + 0x100 * FromBytes(s[1..])
  }

  lemma {:induction false} FromToBytes(v: nat, n: nat)
    ensures FromBytes(ToBytes(v, n)) == v % Pow2(8 * n)
  {
    if n > 0 {
      FromToBytes(v / 0x100, n - 1);
      assert ToBytes(v, n)[1..] == ToBytes(v / 0x100, n - 1);
      var p := Pow2(8 * (n - 1));
      assert Pow2(8 * n) == 0x100 * p by { Pow2Add(8, 8 * (n - 1)); Pow2Values(); }
      ModSplit(v, 0x100, p);
    }
  }

  /** Byte i of a stored word is its i-th lowest. */
  lemma {:induction false} LittleEndian(v: nat, n: nat, i: nat)
    requires i < n
    ensures ToBytes(v, n)[i] == v / Pow2(8 * i) % 0x100
  {
    if i > 0 {
      LittleEndian(v / 0x100, n - 1, i - 1);
      Pow2Add(8, 8 * (i - 1));
      Pow2Values();
      ModSplit(v, 0x100, Pow2(8 * (i - 1)));
    }
  }

  lemma {:induction false} FromBytesBound(s: seq<u8>)
    ensures FromBytes(s) < Pow2(8 * |s|)
  {
    if |s| > 0 {
      FromBytesBound(s[1..]);
      Pow2Add(8, 8 * (|s| - 1));
      Pow2Values();
    }
  }

  // ---------------------------------------------------------------- what the map means

  lemma BankBit(addr: u64)
    ensures And(addr, WRAM_BEGIN) != 0 <==> addr / 0x8000_0000 % 2 == 1
    ensures And(addr, SPM2_BEGIN) != 0 <==> addr / 0x4000_0000 % 2 == 1
    ensures And(addr, SPMT_BEGIN) != 0 <==> addr / 0x2000_0000 % 2 == 1
    ensures And(addr, ROM_BEGIN) != 0 <==> addr / 0x1000_0000 % 2 == 1
    ensures And(addr, IO_BEGIN) != 0 <==> addr / 0x0800_0000 % 2 == 1
  {
    Pow2Values();
    AndBit(addr, 31);
    AndBit(addr, 30);
    AndBit(addr, 29);
    AndBit(addr, 28);
    AndBit(addr, 27);
  }

  /** The bank is chosen by the range the low 32 address bits fall in. */
  lemma BankByRange(addr: u64)
    ensures var a := addr % TWO32;
      SelectBank(addr) ==
        if a >= 0x8000_0000 then Wram else if a >= 0x4000_0000 then Spm2 else if a >= 0x2000_0000 then Spmt
        else if a >= 0x1000_0000 then Rom else if a >= 0x0800_0000 then Io else Spm
  {
    BankBit(addr);
    ModSplit(addr, 0x8000_0000, 2);
    ModSplit(addr, 0x4000_0000, 2);
    ModSplit(addr, 0x2000_0000, 2);
    ModSplit(addr, 0x1000_0000, 2);
    ModSplit(addr, 0x0800_0000, 2);
  }

  ghost predicate Positive(m: Mem) {
    && m.FixedSizes()
    && 0 < |m.wram| < TWO64 && 0 < |m.spm2| < TWO64 && 0 < |m.spmt| < TWO64
  }

  ghost predicate PowerSizes(m: Mem) {
    && Positive(m)
    && IsPow2(|m.wram|) && IsPow2(|m.spm2|) && IsPow2(|m.spmt|)
  }

  ghost predicate SameByte(m: Mem, a: u64, b: u64) {
    SelectBank(a) == SelectBank(b) && Offset(m, a) == Offset(m, b)
  }

  lemma MaskIsSizeMinusOne(m: Mem, b: Bank)
    requires Positive(m)
    ensures OffsetMask(m, b) == |m.Of(b)| - 1
  {
  }

  /** Every address resolves inside its bank, whatever the (positive) sizes. */
  lemma MapsInside(m: Mem, addr: u64)
    requires Positive(m)
    ensures Offset(m, addr) < |m.Of(SelectBank(addr))|
  {
    MaskIsSizeMinusOne(m, SelectBank(addr));
  }

  lemma OffsetIsModulo(m: Mem, addr: u64)
    requires Positive(m) && IsPow2(|m.Of(SelectBank(addr))|)
    ensures Offset(m, addr) == addr % |m.Of(SelectBank(addr))|
  {
    var b := SelectBank(addr);
    var k: nat :| |m.Of(b)| == Pow2(k);
    MaskIsSizeMinusOne(m, b);
    AndLowMask(addr, k);
  }

  lemma AllPowers(m: Mem, b: Bank)
    requires PowerSizes(m)
    ensures IsPow2(|m.Of(b)|)
  {
    Pow2Values();
    Pow2Add(8, 6);
    assert Pow2(14) == SPM_SIZE && IsPow2(SPM_SIZE);
    Pow2Add(16, 3);
    assert Pow2(19) == IO_SIZE && IsPow2(IO_SIZE);
    assert Pow2(24) == ROM_SIZE && IsPow2(ROM_SIZE);
  }

  /** The banks of fixed size start over every 16 KiB, 512 KiB and 16 MiB. */
  lemma FixedBanks(m: Mem, addr: u64)
    ensures SelectBank(addr) == Spm ==> Offset(m, addr) == addr % 0x4000
    ensures SelectBank(addr) == Io ==> Offset(m, addr) == addr % 0x8_0000
    ensures SelectBank(addr) == Rom ==> Offset(m, addr) == addr % 0x100_0000
  {
    hide SelectBank, Bitwise, Pow2;
    Pow2Values();
    Pow2Add(8, 6);
    Pow2Add(16, 3);
    assert Pow2(6) == 64 && Pow2(3) == 8 by { SmallPowers(); }
    AndLowMask(addr, 14);
    AndLowMask(addr, 19);
    AndLowMask(addr, 24);
  }

  lemma SmallPowers()
    ensures Pow2(3) == 8 && Pow2(6) == 64
  {
  }

  /** Two addresses name the same byte exactly when they select one bank and agree modulo its size. */
  lemma SameByteIff(m: Mem, a: u64, b: u64)
    requires PowerSizes(m)
    ensures SameByte(m, a, b) <==>
      SelectBank(a) == SelectBank(b) && a % |m.Of(SelectBank(a))| == b % |m.Of(SelectBank(a))|
  {
    AllPowers(m, SelectBank(a));
    if SelectBank(a) == SelectBank(b) {
      OffsetIsModulo(m, a);
      OffsetIsModulo(m, b);
    }
  }

  lemma DoublePow2(n: nat)
    requires n % 2 == 0 && IsPow2(n / 2)
    ensures IsPow2(n)
  {
    var k: nat :| n / 2 == Pow2(k);
    assert n == Pow2(k + 1);
  }

  /** Only powers of two divide a power of two. */
  lemma {:induction false} DivisorOfPow2(n: nat, q: nat, k: nat)
    requires n * q == Pow2(k)
    ensures IsPow2(n)
  {
    if k == 0 {
      assert n == 1 == Pow2(0) by { OneFactor(n, q); }
    } else if n % 2 == 0 {
      assert 2 * (n / 2) * q == 2 * Pow2(k - 1);
      assert 2 * (n / 2) * q == 2 * (n / 2 * q);
      DivisorOfPow2(n / 2, q, k - 1);
      DoublePow2(n);
    } else {
      OddFactor(n, q);
      assert n * q == 2 * (n * (q / 2));
      DivisorOfPow2(n, q / 2, k - 1);
    }
  }

  lemma OneFactor(n: nat, q: nat)
    requires n * q == 1
    ensures n == 1
  {
    if n > 1 && q > 0 {
      MulMonotone(n, 1, q);
    }
  }

  lemma OddFactor(n: nat, q: nat)
    requires n % 2 == 1 && (n * q) % 2 == 0
    ensures q == 2 * (q / 2) && n * q == 2 * (n * (q / 2))
  {
    OddProduct(n, q);
    assert n * (2 * (q / 2)) == 2 * (n * (q / 2));
  }

  lemma OddProduct(n: nat, q: nat)
    requires n % 2 == 1
    ensures (n * q) % 2 == q % 2
  {
    var t := n / 2 * q;
    assert n * q == 2 * (n / 2) * q + q;
    assert 2 * (n / 2) * q == 2 * t;
  }

  function BankBegin(b: Bank): u64
    requires b in {Wram, Spm2, Spmt}
  {
    if b == Wram then WRAM_BEGIN else if b == Spm2 then SPM2_BEGIN else SPMT_BEGIN
  }

  ghost predicate Congruent(m: Mem, b: Bank, x: u64, y: u64)
    requires |m.Of(b)| > 0
  {
    x % |m.Of(b)| == y % |m.Of(b)|
  }

  /** Below bit k, a mask sees nothing of bit k. */
  lemma AndAboveMask(a: nat, mask: nat, k: nat)
    requires a < Pow2(k) && mask < Pow2(k)
    ensures And(Pow2(k) + a, mask) == And(a, mask)
  {
    hide Bitwise;
    BitwiseSplit(BitOp.AND, a, 1, mask, 0, k);
    WithZero(1);
  }

  /** 2^63 above its begin, a bank of at most that size starts over. */
  lemma StartsOver(m: Mem, b: Bank)
    requires Positive(m) && b in {Wram, Spm2, Spmt} && |m.Of(b)| <= TWO63
    ensures var x, y := TWO63 + BankBegin(b), BankBegin(b);
      SelectBank(x) == SelectBank(y) == b && SameByte(m, x, y)
  {
    hide Bitwise, SelectBank, Pow2;
    var x, y := TWO63 + BankBegin(b), BankBegin(b);
    BankByRange(x);
    BankByRange(y);
    MaskIsSizeMinusOne(m, b);
    Pow2Values();
    Pow2Double(64);
    AndAboveMask(y, |m.Of(b)| - 1, 63);
  }

  /** Congruent addresses 2^63 apart make the size a power of two. */
  lemma CongruentHalf(n: nat, y: nat)
    requires n > 0 && (TWO63 + y) % n == y % n
    ensures IsPow2(n)
  {
    hide Pow2, IsPow2;
    var a, b := (TWO63 + y) / n, y / n;
    Factor(n, a, b, TWO63);
    Pow2Values();
    Pow2Double(64);
    DivisorOfPow2(n, a - b, 63);
  }

  lemma Factor(n: nat, a: nat, b: nat, d: nat)
    requires n * a == n * b + d && n > 0
    ensures a >= b && n * (a - b) == d
  {
    if a < b {
      MulMonotone(n, a + 1, b);
    }
  }

  /** For a bank of at most 2^63 bytes, the wrap-around is congruence modulo its size exactly when the size is
      a power of two. */
  lemma CongruenceNeedsPowerOfTwo(m: Mem, b: Bank)
    requires Positive(m) && b in {Wram, Spm2, Spmt} && |m.Of(b)| <= TWO63
    ensures IsPow2(|m.Of(b)|) <==>
      forall x: u64, y: u64 | SelectBank(x) == b && SelectBank(y) == b ::
        SameByte(m, x, y) <==> Congruent(m, b, x, y)
  {
    hide SelectBank, Offset, IsPow2;
    if IsPow2(|m.Of(b)|) {
      forall x: u64, y: u64 | SelectBank(x) == b && SelectBank(y) == b
        ensures SameByte(m, x, y) <==> Congruent(m, b, x, y)
      {
        OffsetIsModulo(m, x);
        OffsetIsModulo(m, y);
      }
    } else {
      var x, y := TWO63 + BankBegin(b), BankBegin(b);
      StartsOver(m, b);
      if Congruent(m, b, x, y) {
        CongruentHalf(|m.Of(b)|, y);
      }
    }
  }
}
