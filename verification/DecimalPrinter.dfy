/** The table-driven decimal printer: sixteen digits by repeated division by 100. */
module DecimalPrinter {
  import opened Bits
  import opened Memory
  import opened MemoryUnit

  const LIMIT: nat := 10_000_0000_0000_0000
  const ZERO: nat := 0x30

  /** The two digits of every number below 100, one pair after the other, ten numbers to a row. */
  const ROW0: seq<u8> :=
    [0x30, 0x30, 0x30, 0x31, 0x30, 0x32, 0x30, 0x33, 0x30, 0x34,
     0x30, 0x35, 0x30, 0x36, 0x30, 0x37, 0x30, 0x38, 0x30, 0x39]
  const ROW1: seq<u8> :=
    [0x31, 0x30, 0x31, 0x31, 0x31, 0x32, 0x31, 0x33, 0x31, 0x34,
     0x31, 0x35, 0x31, 0x36, 0x31, 0x37, 0x31, 0x38, 0x31, 0x39]
  const ROW2: seq<u8> :=
    [0x32, 0x30, 0x32, 0x31, 0x32, 0x32, 0x32, 0x33, 0x32, 0x34,
     0x32, 0x35, 0x32, 0x36, 0x32, 0x37, 0x32, 0x38, 0x32, 0x39]
  const ROW3: seq<u8> :=
    [0x33, 0x30, 0x33, 0x31, 0x33, 0x32, 0x33, 0x33, 0x33, 0x34,
     0x33, 0x35, 0x33, 0x36, 0x33, 0x37, 0x33, 0x38, 0x33, 0x39]
  const ROW4: seq<u8> :=
    [0x34, 0x30, 0x34, 0x31, 0x34, 0x32, 0x34, 0x33, 0x34, 0x34,
     0x34, 0x35, 0x34, 0x36, 0x34, 0x37, 0x34, 0x38, 0x34, 0x39]
  const ROW5: seq<u8> :=
    [0x35, 0x30, 0x35, 0x31, 0x35, 0x32, 0x35, 0x33, 0x35, 0x34,
     0x35, 0x35, 0x35, 0x36, 0x35, 0x37, 0x35, 0x38, 0x35, 0x39]
  const ROW6: seq<u8> :=
    [0x36, 0x30, 0x36, 0x31, 0x36, 0x32, 0x36, 0x33, 0x36, 0x34,
     0x36, 0x35, 0x36, 0x36, 0x36, 0x37, 0x36, 0x38, 0x36, 0x39]
  const ROW7: seq<u8> :=
    [0x37, 0x30, 0x37, 0x31, 0x37, 0x32, 0x37, 0x33, 0x37, 0x34,
     0x37, 0x35, 0x37, 0x36, 0x37, 0x37, 0x37, 0x38, 0x37, 0x39]
  const ROW8: seq<u8> :=
    [0x38, 0x30, 0x38, 0x31, 0x38, 0x32, 0x38, 0x33, 0x38, 0x34,
     0x38, 0x35, 0x38, 0x36, 0x38, 0x37, 0x38, 0x38, 0x38, 0x39]
  const ROW9: seq<u8> :=
    [0x39, 0x30, 0x39, 0x31, 0x39, 0x32, 0x39, 0x33, 0x39, 0x34,
     0x39, 0x35, 0x39, 0x36, 0x39, 0x37, 0x39, 0x38, 0x39, 0x39]

  const TABLE: seq<u8> := ROW0 + ROW1 + ROW2 + ROW3 + ROW4 + ROW5 + ROW6 + ROW7 + ROW8 + ROW9

  function Row(tens: u8): (r: seq<u8>)
    ensures |r| == 20
  {
    [tens, 0x30, tens, 0x31, tens, 0x32, tens, 0x33, tens, 0x34,
     tens, 0x35, tens, 0x36, tens, 0x37, tens, 0x38, tens, 0x39]
  }

  lemma RowHolds(tens: u8, i: nat)
    requires i < 10
    ensures |Row(tens)| == 20 && Row(tens)[2 * i] == tens && Row(tens)[2 * i + 1] == ZERO + i
  {
    var r := Row(tens);
    assert r[0] == r[2] == r[4] == r[6] == r[8] == r[10] == r[12] == r[14] == r[16] == r[18] == tens;
    assert r[1] == 0x30 && r[3] == 0x31 && r[5] == 0x32 && r[7] == 0x33 && r[9] == 0x34;
    assert r[11] == 0x35 && r[13] == 0x36 && r[15] == 0x37 && r[17] == 0x38 && r[19] == 0x39;
  }

  lemma TableRows()
    ensures TABLE == Row(0x30) + Row(0x31) + Row(0x32) + Row(0x33) + Row(0x34)
      + Row(0x35) + Row(0x36) + Row(0x37) + Row(0x38) + Row(0x39)
  {
  }

  lemma TableRow(t: nat, k: nat)
    requires t < 10 && k < 20
    ensures |TABLE| == 200 && TABLE[20 * t + k] == Row(ZERO + t)[k]
  {
    hide TABLE, Row;
    TableRows();
  }

  /** Entry i of the table is i in two digits. */
  lemma TableHoldsDigits(i: nat)
    requires i < 100
    ensures |TABLE| == 200
    ensures TABLE[2 * i] == ZERO + i / 10 && TABLE[2 * i + 1] == ZERO + i % 10
  {
    hide TABLE, Row;
    var t, u := i / 10, i % 10;
    TableRow(t, 2 * u);
    TableRow(t, 2 * u + 1);
    RowHolds(ZERO + t, u);
  }

  // ---------------------------------------------------------------- digits

  function Pow10(n: nat): (p: nat)
    ensures p > 0
  {
    if n == 0 then 1 else 10 * Pow10(n - 1)
  }

  /** The last n decimal digits, one at a time. */
  function Digits(x: nat, n: nat): (s: seq<u8>)
    ensures |s| == n
  {
    if n == 0 then [] else Digits(x / 10, n - 1) + [ZERO + x % 10]
  }

  predicate IsDigit(c: u8) { ZERO <= c <= ZERO + 9 }

  /** The positional value of a digit string. */
  function Parse(s: seq<u8>): nat
    requires forall i | 0 <= i < |s| :: IsDigit(s[i])
  {
    if |s| == 0 then 0
    else
      var last: int := s[|s| - 1];
      assert IsDigit(s[|s| - 1]);
      10 * Parse(s[..|s| - 1]) + (last - ZERO)
  }

  lemma {:induction false} ParseUndoesDigits(x: nat, n: nat)
    ensures forall i | 0 <= i < n :: IsDigit(Digits(x, n)[i])
    ensures Parse(Digits(x, n)) == x % Pow10(n)
  {
    if n > 0 {
      ParseUndoesDigits(x / 10, n - 1);
      assert Digits(x, n)[..n - 1] == Digits(x / 10, n - 1);
      ModSplit(x, 10, Pow10(n - 1));
    }
  }

  /** High digits and low digits apart. */
  lemma {:induction false} SplitDigits(x: nat, m: nat, n: nat)
    ensures Digits(x, m + n) == Digits(Quotient(x, Pow10(n)), m) + Digits(Remainder(x, Pow10(n)), n)
  {
    if n == 0 {
      assert x / 1 == x;
    } else {
      var p := Pow10(n - 1);
      SplitDigits(x / 10, m, n - 1);
      ModSplit(x, 10, p);
      LowDigit(x, p);
      assert Digits(Remainder(x, 10 * p), n) == Digits(Remainder(x / 10, p), n - 1) + [ZERO + x % 10];
    }
  }

  lemma LowDigit(x: nat, p: nat)
    requires p > 0
    ensures (x % (10 * p)) / 10 == (x / 10) % p && (x % (10 * p)) % 10 == x % 10
  {
    ModSplit(x, 10, p);
  }

  lemma Powers()
    ensures Pow10(2) == 100 && Pow10(4) == 10000 && Pow10(8) == 10000_0000 && Pow10(16) == LIMIT
  {
  }

  /** A number below 100 is its table entry. */
  function Entry(i: nat): (s: seq<u8>)
    requires i < 100
    ensures |s| == 2
  {
    TableHoldsDigits(i);
    TABLE[2 * i..2 * i + 2]
  }

  lemma EntryIsTwoDigits(i: nat)
    requires i < 100
    ensures Entry(i) == Digits(i, 2)
  {
    hide TABLE;
    TableHoldsDigits(i);
    assert Digits(i / 10, 1) == [ZERO + i / 10] by { assert Digits(i / 10 / 10, 0) == []; }
  }

  lemma FourDigits(x: nat)
    requires x < 10000
    ensures Digits(x, 4) == Entry(x / 100) + Entry(x % 100)
  {
    hide Digits, Entry, Pow10;
    Powers();
    SplitDigits(x, 2, 2);
    EntryIsTwoDigits(x / 100);
    EntryIsTwoDigits(x % 100);
  }

  lemma EightDigits(x: nat)
    requires x < 10000_0000
    ensures Digits(x, 8) == Entry(x / 10000 / 100) + Entry(x / 10000 % 100)
      + (Entry(x % 10000 / 100) + Entry(x % 10000 % 100))
  {
    hide Digits, Entry, Pow10;
    Powers();
    SplitDigits(x, 4, 4);
    FourDigits(x / 10000);
    FourDigits(x % 10000);
  }

  lemma SixteenDigits(x: nat)
    requires x < LIMIT
    ensures Digits(x, 16) == Digits(x / 10000_0000, 8) + Digits(x % 10000_0000, 8)
    ensures x / 10000_0000 < 10000_0000
  {
    hide Digits, Pow10;
    Powers();
    SplitDigits(x, 8, 8);
  }

  // ---------------------------------------------------------------- the printer

  lemma SpliceTwice(s: seq<u8>, at: nat, a: seq<u8>, b: seq<u8>)
    requires at + |a| + |b| <= |s|
    ensures Splice(Splice(s, at, a), at + |a|, b) == Splice(s, at, a + b)
  {
  }

  /** Eight digits by two rounds of division. */
  method CopyEight(out: array<u8>, at: nat, x: nat)
    requires x < 10000_0000 && at + 8 <= out.Length
    modifies out
    ensures out[..] == Splice(old(out[..]), at, Digits(x, 8))
  {
    hide Entry, Digits, Splice;
    ghost var s := out[..];
    var top, bottom := x / 10000, x % 10000;
    var a, b, c, d := Entry(top / 100), Entry(top % 100), Entry(bottom / 100), Entry(bottom % 100);
    EightDigits(x);
    SpliceTwice(s, at, a, b);
    SpliceTwice(s, at, a + b, c);
    SpliceTwice(s, at, a + b + c, d);
    assert a + b + c + d == a + b + (c + d);
    CopyIn(out, at, a);
    CopyIn(out, at + 2, b);
    CopyIn(out, at + 4, c);
    CopyIn(out, at + 6, d);
  }

  /** Sixteen digits, leading zeros included; anything behind them is left alone. */
  method ToStringTreeTable(x: nat, out: array<u8>)
    requires x < LIMIT && out.Length >= 16
    modifies out
    ensures out[..16] == Digits(x, 16) && out[16..] == old(out[16..])
    ensures (forall i | 0 <= i < 16 :: IsDigit(out[..16][i])) && Parse(out[..16]) == x
  {
    hide Digits, Parse, Pow10;
    var top, bottom := x / 10000_0000, x % 10000_0000;
    SixteenDigits(x);
    SpliceTwice(out[..], 0, Digits(top, 8), Digits(bottom, 8));
    CopyEight(out, 0, top);
    CopyEight(out, 8, bottom);
    ParseUndoesDigits(x, 16);
    Powers();
  }
}
