/** The pipeline scoreboard of the first VM: busy counters counted down bundle by bundle. */
module Scoreboard {
  import opened Bits
  import O = Opcode

  type Reg = O.Reg

  const ACCU: nat := 61
  const ALU_CYCLE: nat := 3
  const FPU_CYCLE: nat := 4
  const PQ_CYCLE: nat := 4
  const FLAG_CYCLE: nat := 3

  // ---------------------------------------------------------------- the operand table

  datatype Flags = Flags(write: bool, readA: bool, readB: bool, readC: bool, vr: bool, va: bool, rx: bool, im: bool)

  const NONE := Flags(false, false, false, false, false, false, false, false)

  /** Entry u of the first operand table. */
  function OperandFlags(u: nat): Flags {
    if 1 <= u <= 2 || 45 == u then NONE.(write := true, readB := true)
    else if u == 3 || 9 <= u <= 10 || 13 <= u <= 15 then NONE.(write := true)
    else if 4 <= u <= 8 || u == 41 then NONE.(write := true, readB := true, readC := true)
    else if u == 16 then NONE.(readC := true)
    else if 17 <= u <= 29 then NONE.(write := true, readB := true, im := true)
    else if u == 33 || u == 37 then NONE.(write := true, rx := true)
    else if u == 34 || u == 38 then NONE.(readA := true, rx := true)
    else if u == 35 || u == 39 then NONE.(write := true, va := true, rx := true)
    else if u == 36 || u == 40 then NONE.(readA := true, va := true, rx := true)
    else if u == 42 then NONE.(readA := true, readB := true, readC := true)
    else if u == 43 then NONE.(write := true, va := true, readB := true, readC := true)
    else if u == 44 then NONE.(readA := true, va := true, readB := true, readC := true)
    else if u == 46 || u == 65 then NONE.(readA := true, readB := true)
    else if u == 47 then NONE.(write := true, va := true, readB := true)
    else if u == 48 then NONE.(readA := true, va := true, readB := true)
    else if 67 <= u <= 68 || u == 74 then NONE.(readA := true)
    else if 69 <= u <= 70 then NONE.(vr := true, readA := true, readB := true)
    else if 71 <= u <= 72 then NONE.(vr := true, readA := true)
    else if 97 <= u <= 112 then NONE.(vr := true, write := true, readB := true, readC := true)
    else if 113 <= u <= 114 || 117 <= u <= 128 then NONE.(vr := true, write := true, readB := true)
    else if 115 <= u <= 116 then NONE.(vr := true, write := true)
    else NONE
  }

  predicate IsCompare(op: u32) { 0x40 <= O.Operation(op) <= 0x47 }

  predicate IsBranch(op: u32) { 0x50 <= O.Operation(op) <= 0x5F }

  function FlagsOf(op: u32): Flags { OperandFlags(O.Operation(op)) }

  /** Register A, or one of two base registers in the RX form. */
  function OperandA(op: u32): Reg { if FlagsOf(op).rx then op / 0x08 % 2 else O.RegA(op) }

  predicate RegisterForm(op: u32) { !O.AluHasImm(op) }

  // ---------------------------------------------------------------- the table as the bytes it is written in

  /** The flags of one entry as a byte, from the lowest bit up. */
  function FlagByte(f: Flags): nat {
    (if f.write then 1 else 0) + (if f.readA then 2 else 0) + (if f.readB then 4 else 0)
    + (if f.readC then 8 else 0) + (if f.vr then 0x10 else 0) + (if f.va then 0x20 else 0)
    + (if f.rx then 0x40 else 0) + (if f.im then 0x80 else 0)
  }

  /** The program's bytes, sixteen to a row. */
  function OperandRow(row: nat): seq<nat> {
    match row
    case 0 => [0x00, 0x05, 0x05, 0x01, 0x0d, 0x0d, 0x0d, 0x0d, 0x0d, 0x01, 0x01, 0x00, 0x00, 0x01, 0x01, 0x01]
    case 1 => [0x08, 0x85, 0x85, 0x85, 0x85, 0x85, 0x85, 0x85, 0x85, 0x85, 0x85, 0x85, 0x85, 0x85, 0x00, 0x00]
    case 2 => [0x00, 0x41, 0x42, 0x61, 0x62, 0x41, 0x42, 0x61, 0x62, 0x0d, 0x0e, 0x2d, 0x2e, 0x05, 0x06, 0x25]
    case 3 => [0x26, 0x00, 0x00, 0x00, 0x00, 0x00, 0x00, 0x00, 0x00, 0x00, 0x00, 0x00, 0x00, 0x00, 0x00, 0x00]
    case 4 => [0x00, 0x06, 0x00, 0x02, 0x02, 0x16, 0x16, 0x12, 0x12, 0x00, 0x02, 0x00, 0x00, 0x00, 0x00, 0x00]
    case 5 => [0x00, 0x00, 0x00, 0x00, 0x00, 0x00, 0x00, 0x00, 0x00, 0x00, 0x00, 0x00, 0x00, 0x00, 0x00, 0x00]
    case 6 => [0x00, 0x1d, 0x1d, 0x1d, 0x1d, 0x1d, 0x1d, 0x1d, 0x1d, 0x1d, 0x1d, 0x1d, 0x1d, 0x1d, 0x1d, 0x1d]
    case 7 => [0x1d, 0x15, 0x15, 0x11, 0x11, 0x15, 0x15, 0x15, 0x15, 0x15, 0x15, 0x15, 0x15, 0x15, 0x15, 0x15]
    case _ => [0x15]
  }

  lemma Row0(i: nat)
    requires i < 16
    ensures FlagByte(OperandFlags(0 + i)) == OperandRow(0)[i]
  {
  }

  lemma Row1(i: nat)
    requires i < 16
    ensures FlagByte(OperandFlags(16 + i)) == OperandRow(1)[i]
  {
  }

  lemma Row2(i: nat)
    requires i < 16
    ensures FlagByte(OperandFlags(32 + i)) == OperandRow(2)[i]
  {
  }

  lemma Row3(i: nat)
    requires i < 16
    ensures FlagByte(OperandFlags(48 + i)) == OperandRow(3)[i]
  {
  }

  lemma Row4(i: nat)
    requires i < 16
    ensures FlagByte(OperandFlags(64 + i)) == OperandRow(4)[i]
  {
  }

  lemma Row5(i: nat)
    requires i < 16
    ensures FlagByte(OperandFlags(80 + i)) == OperandRow(5)[i]
  {
  }

  lemma Row6(i: nat)
    requires i < 16
    ensures FlagByte(OperandFlags(96 + i)) == OperandRow(6)[i]
  {
  }

  lemma Row7(i: nat)
    requires i < 16
    ensures FlagByte(OperandFlags(112 + i)) == OperandRow(7)[i]
  {
  }

  lemma EntryIsTable(row: nat, i: nat)
    requires row < 8 && i < 16
    ensures FlagByte(OperandFlags(16 * row + i)) == OperandRow(row)[i]
  {
    hide FlagByte, OperandFlags, OperandRow;
    match row
    case 0 => Row0(i);
    case 1 => Row1(i);
    case 2 => Row2(i);
    case 3 => Row3(i);
    case 4 => Row4(i);
    case 5 => Row5(i);
    case 6 => Row6(i);
    case _ => Row7(i);
  }

  /** The flags of every operation are the bits of its byte; beyond the table there are none. */
  lemma TableIsBytes(u: nat)
    ensures u < 128 ==> FlagByte(OperandFlags(u)) == OperandRow(u / 16)[u % 16]
    ensures u >= 128 ==> FlagByte(OperandFlags(u)) == if u == 128 then OperandRow(8)[0] else 0
  {
    if u < 128 {
      EntryIsTable(u / 16, u % 16);
    }
  }

  // ---------------------------------------------------------------- counters

  datatype Counter = R(r: Reg) | V(v: Reg) | F

  type File = s: seq<nat> | |s| == 64 witness seq(64, _ => 0)

  datatype Board = Board(reg: File, vreg: File, flag: nat)

  function Level(b: Board, c: Counter): nat {
    match c
    case R(r) => b.reg[r]
    case V(v) => b.vreg[v]
    case F => b.flag
  }

  function Down(n: nat): nat { if n > 0 then n - 1 else 0 }

  function TickFile(s: File): (t: File)
    ensures forall i | 0 <= i < 64 :: t[i] == Down(s[i])
  {
    seq<nat>(64, i requires 0 <= i < 64 => Down(s[i]))
  }

  /** One bundle goes by. */
  function Tick(b: Board): Board { Board(TickFile(b.reg), TickFile(b.vreg), Down(b.flag)) }

  // ---------------------------------------------------------------- what a bundle writes

  predicate IsVector(op: u32) { FlagsOf(op).va || FlagsOf(op).vr }

  function ExtraLatency(op: u32): nat {
    if !FlagsOf(op).vr && FlagsOf(op).im && OperandA(op) > ACCU then PQ_CYCLE else 0
  }

  predicate Writes(op: u32, c: Counter) {
    match c
    case R(r) => FlagsOf(op).write && !IsVector(op) && OperandA(op) == r
    case V(v) => FlagsOf(op).write && IsVector(op) && OperandA(op) == v
    case F => IsCompare(op)
  }

  function Latency(op: u32, c: Counter): nat {
    match c
    case R(_) => ALU_CYCLE + ExtraLatency(op)
    case V(_) => FPU_CYCLE + ExtraLatency(op)
    case F => FLAG_CYCLE
  }

  function Charge(b: Board, op: u32): Board {
    var a := OperandA(op);
    var reg := if FlagsOf(op).write && !IsVector(op) then b.reg[a := ALU_CYCLE + ExtraLatency(op)] else b.reg;
    var vreg := if FlagsOf(op).write && IsVector(op) then b.vreg[a := FPU_CYCLE + ExtraLatency(op)] else b.vreg;
    Board(reg, vreg, if IsCompare(op) then FLAG_CYCLE else b.flag)
  }

  function After(b: Board, op: u32): Board { Charge(Tick(b), op) }

  // ---------------------------------------------------------------- what a bundle waits for

  /** The non-accumulator operands the table marks as read, and the flags for the branch unit. */
  predicate Waits(op: u32, c: Counter) {
    var f := FlagsOf(op);
    match c
    case F => IsBranch(op)
    case V(v) =>
      v != ACCU
      && ((f.readA && (f.va || f.vr) && v == OperandA(op))
          || (f.vr && f.readB && v == O.RegB(op)) || (f.vr && f.readC && v == O.RegC(op)))
    case R(r) =>
      r != ACCU && !f.vr
      && ((f.readA && r == OperandA(op)) || (f.readB && r == O.RegB(op)) || (f.readC && r == O.RegC(op))
          || (f.im && RegisterForm(op) && r == O.RegC(op)))
  }

  /** m is the largest level among the counters waited for, 0 when there is none. */
  ghost predicate IsWait(b: Board, op: u32, m: nat) {
    && (forall c: Counter | Waits(op, c) :: Level(b, c) <= m)
    && (m == 0 || exists c: Counter :: Waits(op, c) && Level(b, c) == m)
  }

  function Raise(clear: nat, marked: bool, file: File, r: Reg): nat {
    if marked && file[r] > clear && r != ACCU then file[r] else clear
  }

  function VectorWait(b: Board, op: u32, start: nat): nat {
    var f := FlagsOf(op);
    var c1 := Raise(start, f.readA, b.vreg, OperandA(op));
    var c2 := Raise(c1, f.readB, b.vreg, O.RegB(op));
    Raise(c2, f.readC, b.vreg, O.RegC(op))
  }

  function ScalarWait(b: Board, op: u32, start: nat): nat {
    var f := FlagsOf(op);
    var c1 := Raise(start, f.readA, b.reg, OperandA(op));
    var c2 := Raise(c1, f.readB, b.reg, O.RegB(op));
    var c3 := Raise(c2, f.readC, b.reg, O.RegC(op));
    Raise(c3, f.im && RegisterForm(op), b.reg, O.RegC(op))
  }

  /** The running maximum, operand by operand. */
  function Stall(b: Board, op: u32): nat {
    var f := FlagsOf(op);
    var start := Raise(if IsBranch(op) then b.flag else 0, f.readA && f.va, b.vreg, OperandA(op));
    if f.vr then VectorWait(b, op, start) else ScalarWait(b, op, start)
  }

  lemma StallIsWait(b: Board, op: u32)
    ensures IsWait(b, op, Stall(b, op))
  {
    hide OperandFlags, O.Operation, OperandA, O.RegB, O.RegC, RegisterForm;
    var m := Stall(b, op);
    StallBounds(b, op);
    if m != 0 {
      var c := StallReached(b, op);
      assert Waits(op, c) && Level(b, c) == m;
    }
  }

  lemma StallBounds(b: Board, op: u32)
    ensures forall c: Counter | Waits(op, c) :: Level(b, c) <= Stall(b, op)
  {
    hide OperandFlags, O.Operation, OperandA, O.RegB, O.RegC, RegisterForm;
  }

  lemma StallReached(b: Board, op: u32) returns (c: Counter)
    requires Stall(b, op) != 0
    ensures Waits(op, c) && Level(b, c) == Stall(b, op)
  {
    hide OperandFlags, O.Operation, OperandA, O.RegB, O.RegC, RegisterForm;
    var m, f := Stall(b, op), FlagsOf(op);
    if IsBranch(op) && b.flag == m {
      c := F;
    } else if f.readA && OperandA(op) != ACCU && (f.va || f.vr) && b.vreg[OperandA(op)] == m {
      c := V(OperandA(op));
    } else if f.vr && f.readB && O.RegB(op) != ACCU && b.vreg[O.RegB(op)] == m {
      c := V(O.RegB(op));
    } else if f.vr {
      c := V(O.RegC(op));
    } else if f.readA && OperandA(op) != ACCU && b.reg[OperandA(op)] == m {
      c := R(OperandA(op));
    } else if f.readB && O.RegB(op) != ACCU && b.reg[O.RegB(op)] == m {
      c := R(O.RegB(op));
    } else {
      c := R(O.RegC(op));
    }
  }

  // ---------------------------------------------------------------- runs

  function ZeroFile(): File { seq<nat>(64, _ => 0) }

  function Idle(): Board { Board(ZeroFile(), ZeroFile(), 0) }

  /** The board after a history of bundles, from zeroed counters. */
  function BoardAfter(h: seq<u32>): Board {
    if |h| == 0 then Idle() else After(BoardAfter(h[..|h| - 1]), h[|h| - 1])
  }

  /** The stall charged to the next bundle. */
  function StallAfter(h: seq<u32>, op: u32): nat { Stall(Tick(BoardAfter(h)), op) }

  function TotalStall(h: seq<u32>): nat {
    if |h| == 0 then 0 else TotalStall(h[..|h| - 1]) + StallAfter(h[..|h| - 1], h[|h| - 1])
  }

  /** Bundle j is the last of the history to write the counter. */
  ghost predicate LastWrite(h: seq<u32>, c: Counter, j: nat) {
    j < |h| && Writes(h[j], c) && forall k | j < k < |h| :: !Writes(h[k], c)
  }

  ghost predicate NeverWritten(h: seq<u32>, c: Counter) { forall k | 0 <= k < |h| :: !Writes(h[k], c) }

  /** What the history says a counter should hold some bundles after its last bundle. */
  ghost predicate HistoryLevel(h: seq<u32>, c: Counter, later: nat, n: nat) {
    && (NeverWritten(h, c) ==> n == 0)
    && forall j: nat | LastWrite(h, c, j) :: n == Remaining(Latency(h[j], c), |h| - 1 - j + later)
  }

  function Remaining(latency: nat, age: nat): nat { if latency > age then latency - age else 0 }

  lemma AfterLevel(b: Board, op: u32, c: Counter)
    ensures Level(After(b, op), c) == if Writes(op, c) then Latency(op, c) else Down(Level(b, c))
  {
    hide OperandFlags, O.Operation, OperandA;
  }

  /** Every counter agrees with the history: latency of the last write less the bundles since. */
  lemma {:induction false} AgreesWithHistory(h: seq<u32>, c: Counter)
    ensures HistoryLevel(h, c, 0, Level(BoardAfter(h), c))
  {
    hide Writes, Latency, Level, After;
    if |h| == 0 {
      IdleLevel(c);
    } else {
      var q, op := h[..|h| - 1], h[|h| - 1];
      AgreesWithHistory(q, c);
      AfterLevel(BoardAfter(q), op, c);
      assert Writes(op, c) ==> LastWrite(h, c, |h| - 1);
      if NeverWritten(h, c) {
        assert NeverWritten(q, c);
      }
      forall j: nat | LastWrite(h, c, j)
        ensures Level(BoardAfter(h), c) == Remaining(Latency(h[j], c), |h| - 1 - j)
      {
        if j < |q| {
          assert LastWrite(q, c, j);
        }
      }
    }
  }

  lemma IdleLevel(c: Counter)
    ensures Level(Idle(), c) == 0
  {
  }

  /** The stall charged to a bundle is the largest wait the history implies for its operands. */
  lemma StallAgreesWithHistory(h: seq<u32>, op: u32, c: Counter)
    ensures HistoryLevel(h, c, 1, Level(Tick(BoardAfter(h)), c))
    ensures IsWait(Tick(BoardAfter(h)), op, StallAfter(h, op))
  {
    hide Writes, Latency, Stall, Waits;
    AgreesWithHistory(h, c);
    StallIsWait(Tick(BoardAfter(h)), op);
  }

  // ---------------------------------------------------------------- bounds

  function Ceiling(c: Counter): nat {
    match c
    case R(_) => 7
    case V(_) => 4
    case F => 3
  }

  /** No table entry that writes a vector register has the immediate form. */
  lemma LatencyCeiling(op: u32, c: Counter)
    requires Writes(op, c)
    ensures Latency(op, c) <= Ceiling(c)
  {
    hide O.Operation, OperandA;
  }

  lemma {:induction false} LevelsBounded(h: seq<u32>, c: Counter)
    ensures Level(BoardAfter(h), c) <= Ceiling(c)
  {
    hide Writes, Latency, Level, After;
    if |h| == 0 {
      IdleLevel(c);
    } else {
      LevelsBounded(h[..|h| - 1], c);
      AfterLevel(BoardAfter(h[..|h| - 1]), h[|h| - 1], c);
      if Writes(h[|h| - 1], c) {
        LatencyCeiling(h[|h| - 1], c);
      }
    }
  }

  lemma TickLevel(b: Board, c: Counter)
    ensures Level(Tick(b), c) == Down(Level(b, c))
  {
  }

  /** No bundle is ever charged more than six cycles. */
  lemma StallBounded(h: seq<u32>, op: u32)
    ensures StallAfter(h, op) <= 6
  {
    hide Waits, Stall, Level, Tick;
    var b := Tick(BoardAfter(h));
    StallIsWait(b, op);
    if StallAfter(h, op) != 0 {
      var c: Counter :| Waits(op, c) && Level(b, c) == Stall(b, op);
      LevelsBounded(h, c);
      TickLevel(BoardAfter(h), c);
    }
  }

  /** An immediate add into r62, and one reading r62. */
  const PRODUCER: u32 := 2 * 17 + 0x400_0000 * 62
  const CONSUMER: u32 := 2 * 17 + 0x400 + 0x10_0000 * 62

  lemma ProducerAndConsumer()
    ensures Writes(PRODUCER, R(62)) && Latency(PRODUCER, R(62)) == 7 && Waits(CONSUMER, R(62))
  {
    assert O.Operation(PRODUCER) == 17 && O.Operation(CONSUMER) == 17;
    assert FlagsOf(PRODUCER) == FlagsOf(CONSUMER) == NONE.(write := true, readB := true, im := true);
    assert OperandA(PRODUCER) == 62 && O.RegB(CONSUMER) == 62;
  }

  /** The bound is tight. */
  lemma SixIsReached()
    ensures StallAfter([PRODUCER], CONSUMER) == 6
  {
    hide Writes, Latency, Waits, Stall, Level, After, Tick;
    ProducerAndConsumer();
    StallBounded([PRODUCER], CONSUMER);
    assert [PRODUCER][..0] == [];
    assert BoardAfter([PRODUCER]) == After(BoardAfter([]), PRODUCER);
    AfterLevel(BoardAfter([]), PRODUCER, R(62));
    TickLevel(BoardAfter([PRODUCER]), R(62));
    StallIsWait(Tick(BoardAfter([PRODUCER])), CONSUMER);
  }

  // ---------------------------------------------------------------- what a consumer is charged

  /** What is left of a latency some bundles later. */
  function Left(latency: nat, bundles: nat): nat { if latency > bundles then latency - bundles else 0 }

  /** op waits for the counter that bundle j of the history wrote last, and for no other that was written. */
  ghost predicate Consumes(h: seq<u32>, j: nat, c: Counter, op: u32) {
    && LastWrite(h, c, j) && Waits(op, c)
    && forall d: Counter | Waits(op, d) && d != c :: NeverWritten(h, d)
  }

  lemma ConsumerCharge(h: seq<u32>, j: nat, c: Counter, op: u32)
    requires Consumes(h, j, c, op)
    ensures StallAfter(h, op) == Left(Latency(h[j], c), |h| - j)
  {
    hide Writes, Waits, Latency, Stall, Level, Tick;
    var b := Tick(BoardAfter(h));
    StallIsWait(b, op);
    StallAgreesWithHistory(h, op, c);
    forall d: Counter | Waits(op, d) && d != c ensures Level(b, d) == 0 {
      StallAgreesWithHistory(h, op, d);
    }
  }

  /** The immediate forms that write one of the two pair registers. */
  predicate WritesPair(op: u32) { !FlagsOf(op).vr && FlagsOf(op).im && OperandA(op) >= 62 }

  /** The latencies in cycles. */
  lemma LatencyInCycles(op: u32, c: Counter)
    requires Writes(op, c)
    ensures Latency(op, c) ==
      match c
      case R(_) => if WritesPair(op) then 7 else 3
      case V(_) => 4
      case F => 3
  {
    hide O.Operation, OperandA;
  }

  /** A vector result is ready after 4 bundles: a consumer k bundles behind is charged 4 - k. */
  lemma VectorCharge(h: seq<u32>, j: nat, v: Reg, op: u32)
    requires Consumes(h, j, V(v), op)
    ensures StallAfter(h, op) == Left(4, |h| - j)
  {
    hide Waits, Writes, Latency;
    ConsumerCharge(h, j, V(v), op);
    LatencyInCycles(h[j], V(v));
  }

  /** A scalar result is ready after 3 bundles, in the immediate forms that write r62 or r63 after 7. */
  lemma ScalarCharge(h: seq<u32>, j: nat, r: Reg, op: u32)
    requires Consumes(h, j, R(r), op)
    ensures StallAfter(h, op) == Left(if WritesPair(h[j]) then 7 else 3, |h| - j)
  {
    hide Waits, Writes, Latency, WritesPair;
    ConsumerCharge(h, j, R(r), op);
    LatencyInCycles(h[j], R(r));
  }

  /** The flags are ready after 3 bundles. */
  lemma CompareCharge(h: seq<u32>, j: nat, op: u32)
    requires Consumes(h, j, F, op)
    ensures StallAfter(h, op) == Left(3, |h| - j)
  {
    hide Waits, Writes, Latency;
    ConsumerCharge(h, j, F, op);
    LatencyInCycles(h[j], F);
  }

  /** One producer and n empty words behind it. */
  function Gap(producer: u32, n: nat): seq<u32> { [producer] + seq<u32>(n, _ => 0) }

  lemma EmptyWritesNothing(c: Counter)
    ensures !Writes(0, c)
  {
    assert O.Operation(0) == 0;
  }

  lemma GapConsumes(producer: u32, n: nat, c: Counter, op: u32)
    requires Writes(producer, c) && Waits(op, c)
    requires forall d: Counter | Waits(op, d) && d != c :: !Writes(producer, d)
    ensures Consumes(Gap(producer, n), 0, c, op) && |Gap(producer, n)| == n + 1 && Gap(producer, n)[0] == producer
  {
    hide Writes, Waits;
    var h := Gap(producer, n);
    assert forall k | 0 < k < |h| :: h[k] == 0;
    EmptyWritesNothing(c);
    forall d: Counter | Waits(op, d) && d != c ensures NeverWritten(h, d) {
      EmptyWritesNothing(d);
    }
  }

  /** Operation 97 writing v5, and operation 97 reading it. */
  lemma VectorPair(n: nat)
    ensures StallAfter(Gap(2 * 97 + 0x400_0000 * 5, n), 2 * 97 + 0x400_0000 * 6 + 0x10_0000 * 5) == Left(3, n)
  {
    hide StallAfter;
    var producer: u32, consumer: u32 := 2 * 97 + 0x400_0000 * 5, 2 * 97 + 0x400_0000 * 6 + 0x10_0000 * 5;
    VectorWords(producer, consumer);
    GapConsumes(producer, n, V(5), consumer);
    VectorCharge(Gap(producer, n), 0, 5, consumer);
  }

  lemma VectorWords(producer: u32, consumer: u32)
    requires producer == 2 * 97 + 0x400_0000 * 5 && consumer == 2 * 97 + 0x400_0000 * 6 + 0x10_0000 * 5
    ensures Writes(producer, V(5)) && Waits(consumer, V(5))
    ensures forall d: Counter | Waits(consumer, d) && d != V(5) :: !Writes(producer, d)
  {
    assert O.Operation(producer) == 97 && O.Operation(consumer) == 97;
    assert O.RegA(producer) == 5 && O.RegB(consumer) == 5;
  }

  /** Operation 4 writing r5, and operation 17 in its immediate form reading it. */
  lemma ScalarPair(n: nat)
    ensures StallAfter(Gap(2 * 4 + 0x400_0000 * 5, n), 2 * 17 + 0x400 + 0x10_0000 * 5) == Left(2, n)
  {
    hide StallAfter;
    var producer: u32, consumer: u32 := 2 * 4 + 0x400_0000 * 5, 2 * 17 + 0x400 + 0x10_0000 * 5;
    ScalarWords(producer, consumer);
    GapConsumes(producer, n, R(5), consumer);
    ScalarCharge(Gap(producer, n), 0, 5, consumer);
  }

  lemma ScalarWords(producer: u32, consumer: u32)
    requires producer == 2 * 4 + 0x400_0000 * 5 && consumer == 2 * 17 + 0x400 + 0x10_0000 * 5
    ensures Writes(producer, R(5)) && Waits(consumer, R(5)) && !WritesPair(producer)
    ensures forall d: Counter | Waits(consumer, d) && d != R(5) :: !Writes(producer, d)
  {
    assert O.Operation(producer) == 4 && O.Operation(consumer) == 17;
    assert O.RegA(producer) == 5 && O.RegB(consumer) == 5;
  }

  /** Operation 17 writing r62 or r63, and operation 17 in its immediate form reading it. */
  lemma PairPair(r: Reg, n: nat)
    requires 62 <= r <= 63
    ensures StallAfter(Gap(2 * 17 + 0x400_0000 * r, n), 2 * 17 + 0x400 + 0x10_0000 * r) == Left(6, n)
  {
    hide StallAfter;
    var producer: u32, consumer: u32 := 2 * 17 + 0x400_0000 * r, 2 * 17 + 0x400 + 0x10_0000 * r;
    PairWords(producer, consumer, r);
    GapConsumes(producer, n, R(r), consumer);
    ScalarCharge(Gap(producer, n), 0, r, consumer);
  }

  lemma PairWords(producer: u32, consumer: u32, r: Reg)
    requires 62 <= r <= 63 && producer == 2 * 17 + 0x400_0000 * r && consumer == 2 * 17 + 0x400 + 0x10_0000 * r
    ensures Writes(producer, R(r)) && Waits(consumer, R(r)) && WritesPair(producer)
    ensures forall d: Counter | Waits(consumer, d) && d != R(r) :: !Writes(producer, d)
  {
    assert O.Operation(producer) == 17 && O.Operation(consumer) == 17;
    assert O.RegA(producer) == r && O.RegB(consumer) == r;
  }

  /** Comparison 64, and branch 80. */
  lemma ComparePair(n: nat)
    ensures StallAfter(Gap(2 * 64, n), 2 * 80) == Left(2, n)
  {
    hide StallAfter;
    CompareWords(2 * 64, 2 * 80);
    GapConsumes(2 * 64, n, F, 2 * 80);
    CompareCharge(Gap(2 * 64, n), 0, 2 * 80);
  }

  lemma CompareWords(producer: u32, consumer: u32)
    requires producer == 2 * 64 && consumer == 2 * 80
    ensures Writes(producer, F) && Waits(consumer, F)
    ensures forall d: Counter | Waits(consumer, d) && d != F :: !Writes(producer, d)
  {
    assert O.Operation(producer) == 64 && O.Operation(consumer) == 80;
  }

  /** Operations 64 to 71 set the flags, 80 to 95 wait for them. */
  lemma FlagsByOperation(op: u32)
    ensures Writes(op, F) <==> 64 <= op / 2 % 128 <= 71
    ensures Waits(op, F) <==> 80 <= op / 2 % 128 <= 95
  {
  }

  /** The base-register forms, 33 to 40, name r0 or r1 by a bit of the operation itself. */
  lemma BaseByOperation(op: u32)
    ensures 33 <= O.Operation(op) <= 40 ==> OperandA(op) == if 36 <= O.Operation(op) <= 39 then 1 else 0
    ensures !(33 <= O.Operation(op) <= 40) ==> OperandA(op) == O.RegA(op)
  {
    hide O.RegA;
    var u := O.Operation(op);
    assert op / 0x08 % 2 == u / 4 % 2 by { OperationBit(op); }
    assert FlagsOf(op).rx <==> 33 <= u <= 40;
  }

  lemma OperationBit(op: u32)
    ensures op / 0x08 % 2 == O.Operation(op) / 4 % 2
  {
    var h := op / 2;
    ModSplit(h, 4, 32);
    DivModUnique(h % 128, 4, h / 4 % 32, h % 4);
    ModMod(h / 4, 2, 16);
    assert op / 8 == h / 4;
  }

  /** The accumulator, register 61, is never waited for. */
  lemma AccumulatorIsFree(op: u32)
    ensures !Waits(op, R(61)) && !Waits(op, V(61))
  {
  }

  /** n bundles are charged at most 6n cycles. */
  lemma {:induction false} TotalStallBounded(h: seq<u32>)
    ensures TotalStall(h) <= 6 * |h|
  {
    hide StallAfter;
    if |h| > 0 {
      TotalStallBounded(h[..|h| - 1]);
      StallBounded(h[..|h| - 1], h[|h| - 1]);
    }
  }

  // ---------------------------------------------------------------- the core's counters in place

  class Core {
    const busyReg: array<nat>
    const busyVreg: array<nat>
    var busyFlag: nat
    var cycle: u64
    var opcode1: u32
    var opcode2: u32

    constructor ()
      ensures fresh(busyReg) && fresh(busyVreg) && Valid() && Counters() == Idle() && cycle == 0
    {
      busyReg := new nat[64](_ => 0);
      busyVreg := new nat[64](_ => 0);
      busyFlag, cycle, opcode1, opcode2 := 0, 0, 0, 0;
    }

    ghost predicate Valid() { busyReg.Length == 64 && busyVreg.Length == 64 && busyReg != busyVreg }

    ghost function Counters(): Board
      requires Valid()
      reads this, busyReg, busyVreg
    {
      Board(busyReg[..], busyVreg[..], busyFlag)
    }

    method CountDown(file: array<nat>)
      requires file.Length == 64
      modifies file
      ensures file[..] == TickFile(old(file[..]))
    {
      for i := 0 to 64
        invariant forall k | 0 <= k < 64 :: file[k] == if k < i then Down(old(file[k])) else old(file[k])
      {
        if file[i] > 0 {
          file[i] := file[i] - 1;
        }
      }
    }

    /** Charges opcode1 alone: the loop over the two slots stops after the first. */
    method PipelineStall()
      requires Valid()
      modifies this`busyFlag, this`cycle, busyReg, busyVreg
      ensures Counters() == After(old(Counters()), opcode1)
      ensures cycle == (old(cycle) + Stall(Tick(old(Counters())), opcode1)) % TWO64
    {
      hide OperandFlags, O.Operation, OperandA, O.RegB, O.RegC, RegisterForm;
      CountDown(busyReg);
      CountDown(busyVreg);
      if busyFlag > 0 {
        busyFlag := busyFlag - 1;
      }
      assert Counters() == Tick(old(Counters()));
      var clear := WaitFor(opcode1);
      ChargeOpcode(opcode1);
      cycle := (cycle + clear) % TWO64;
    }

    method WaitFor(opcode: u32) returns (clear: nat)
      requires Valid()
      ensures clear == Stall(Counters(), opcode)
    {
      hide OperandFlags, O.Operation, OperandA, O.RegB, O.RegC, RegisterForm;
      hide VectorWait, ScalarWait;
      var f, a := FlagsOf(opcode), OperandA(opcode);
      clear := 0;
      if IsBranch(opcode) {
        clear := busyFlag;
      }
      if f.readA && f.va && busyVreg[a] > clear && a != ACCU {
        clear := busyVreg[a];
      }
      if f.vr {
        clear := WaitForVector(opcode, clear);
      } else {
        clear := WaitForScalar(opcode, clear);
      }
    }

    method WaitForVector(opcode: u32, start: nat) returns (clear: nat)
      requires Valid()
      ensures clear == VectorWait(Counters(), opcode, start)
    {
      hide OperandFlags, O.Operation, OperandA, O.RegB, O.RegC;
      var f, a, b, c := FlagsOf(opcode), OperandA(opcode), O.RegB(opcode), O.RegC(opcode);
      clear := start;
      if f.readA && busyVreg[a] > clear && a != ACCU {
        clear := busyVreg[a];
      }
      if f.readB && busyVreg[b] > clear && b != ACCU {
        clear := busyVreg[b];
      }
      if f.readC && busyVreg[c] > clear && c != ACCU {
        clear := busyVreg[c];
      }
    }

    method WaitForScalar(opcode: u32, start: nat) returns (clear: nat)
      requires Valid()
      ensures clear == ScalarWait(Counters(), opcode, start)
    {
      hide OperandFlags, O.Operation, OperandA, O.RegB, O.RegC, RegisterForm;
      var f, a, b, c := FlagsOf(opcode), OperandA(opcode), O.RegB(opcode), O.RegC(opcode);
      clear := start;
      if f.readA && busyReg[a] > clear && a != ACCU {
        clear := busyReg[a];
      }
      if f.readB && busyReg[b] > clear && b != ACCU {
        clear := busyReg[b];
      }
      if f.readC && busyReg[c] > clear && c != ACCU {
        clear := busyReg[c];
      }
      if f.im && RegisterForm(opcode) && busyReg[c] > clear && c != ACCU {
        clear := busyReg[c];
      }
    }

    method ChargeOpcode(opcode: u32)
      requires Valid()
      modifies this`busyFlag, busyReg, busyVreg
      ensures Counters() == Charge(old(Counters()), opcode)
    {
      hide OperandFlags, O.Operation, OperandA;
      var f, a := FlagsOf(opcode), OperandA(opcode);
      var pq := if !f.vr && f.im && a > ACCU then PQ_CYCLE else 0;
      if f.write {
        if f.va || f.vr {
          busyVreg[a] := FPU_CYCLE + pq;
        } else {
          busyReg[a] := ALU_CYCLE + pq;
        }
      }
      if IsCompare(opcode) {
        busyFlag := FLAG_CYCLE;
      }
    }
  }
}
