/** The cache model of the first VM: direct-mapped tags, miss counters and memory traffic. */
module CacheModel {
  import opened Bits
  import O = Opcode

  type Registers = s: seq<u64> | |s| == 64 witness seq(64, _ => 0)

  const ICACHE_SETS: nat := 64
  /** The index mask reaches over the three data tables, which lie one after the other. */
  const DCACHE_SETS: nat := 1024
  const ILINE_BYTES: nat := 1024
  const DLINE_BYTES: nat := 128
  const IMISS_CYCLES: nat := 94
  const DMISS_CYCLES: nat := 38

  // ---------------------------------------------------------------- one table of tags

  type Tags = s: seq<u32> | |s| > 0 witness [0]

  function SetOf(line: nat, sets: nat): (k: nat)
    requires sets > 0
    ensures k < sets
  {
    line % sets
  }

  /** A miss replaces the tag of its set; a tag keeps 32 bits of the line number. */
  function Touch(tags: Tags, line: nat): (t: Tags)
    ensures |t| == |tags|
  {
    if Misses(tags, line) then tags[SetOf(line, |tags|) := line % TWO32] else tags
  }

  predicate Misses(tags: Tags, line: nat) { tags[SetOf(line, |tags|)] != line }

  function TouchAll(tags: Tags, lines: seq<nat>): (t: Tags)
    ensures |t| == |tags|
  {
    if |lines| == 0 then tags else Touch(TouchAll(tags, lines[..|lines| - 1]), lines[|lines| - 1])
  }

  function CountMisses(tags: Tags, lines: seq<nat>): nat {
    if |lines| == 0 then 0
    else
      var q, line := lines[..|lines| - 1], lines[|lines| - 1];
      CountMisses(tags, q) + if Misses(TouchAll(tags, q), line) then 1 else 0
  }

  /** Access j is the last one to set k. */
  ghost predicate LastIn(lines: seq<nat>, sets: nat, k: nat, j: nat)
    requires sets > 0
  {
    j < |lines| && SetOf(lines[j], sets) == k && forall i | j < i < |lines| :: SetOf(lines[i], sets) != k
  }

  ghost predicate Unused(lines: seq<nat>, sets: nat, k: nat)
    requires sets > 0
  {
    forall i | 0 <= i < |lines| :: SetOf(lines[i], sets) != k
  }

  /** What the accesses themselves say a set holds: its last line, or the tag it started with. */
  ghost predicate HoldsLast(tags: Tags, lines: seq<nat>, k: nat, tag: u32)
    requires k < |tags|
  {
    && (Unused(lines, |tags|, k) ==> tag == tags[k])
    && forall j: nat | LastIn(lines, |tags|, k, j) :: tag == lines[j] % TWO32
  }

  lemma {:induction false} TagsAreLastLines(tags: Tags, lines: seq<nat>, k: nat)
    requires k < |tags|
    ensures HoldsLast(tags, lines, k, TouchAll(tags, lines)[k])
  {
    hide SetOf;
    if |lines| > 0 {
      var q, line := lines[..|lines| - 1], lines[|lines| - 1];
      TagsAreLastLines(tags, q, k);
      if SetOf(line, |tags|) == k {
        assert LastIn(lines, |tags|, k, |lines| - 1);
      } else {
        assert Unused(lines, |tags|, k) ==> Unused(q, |tags|, k);
        assert forall j: nat | LastIn(lines, |tags|, k, j) :: LastIn(q, |tags|, k, j);
      }
    }
  }

  /** Access i misses exactly when its line is not the one its set saw last. */
  ghost predicate NewToItsSet(tags: Tags, lines: seq<nat>, i: nat)
    requires i < |lines|
  {
    var k := SetOf(lines[i], |tags|);
    && (Unused(lines[..i], |tags|, k) ==> tags[k] != lines[i])
    && forall j: nat | LastIn(lines[..i], |tags|, k, j) :: lines[j] % TWO32 != lines[i]
  }

  ghost function NewLines(tags: Tags, lines: seq<nat>): set<nat> {
    set i: nat | i < |lines| && NewToItsSet(tags, lines, i)
  }

  lemma SomeLast(lines: seq<nat>, sets: nat, k: nat)
    requires sets > 0 && !Unused(lines, sets, k)
    ensures exists j: nat :: LastIn(lines, sets, k, j)
  {
    hide SetOf;
    assert |lines| > 0;
    var q := lines[..|lines| - 1];
    if SetOf(lines[|lines| - 1], sets) == k {
      assert LastIn(lines, sets, k, |lines| - 1);
    } else {
      SomeLast(q, sets, k);
      var j: nat :| LastIn(q, sets, k, j);
      assert LastIn(lines, sets, k, j);
    }
  }

  lemma MissIsNew(tags: Tags, lines: seq<nat>, i: nat)
    requires i < |lines|
    ensures Misses(TouchAll(tags, lines[..i]), lines[i]) <==> NewToItsSet(tags, lines, i)
  {
    hide LastIn, Unused, TouchAll;
    var q, k := lines[..i], SetOf(lines[i], |tags|);
    TagsAreLastLines(tags, q, k);
    if !Unused(q, |tags|, k) {
      SomeLast(q, |tags|, k);
      var j: nat :| LastIn(q, |tags|, k, j);
      LastInside(q, |tags|, k, j);
      assert q[j] == lines[j];
    }
    forall j: nat | LastIn(q, |tags|, k, j) ensures j < i && q[j] == lines[j] {
      LastInside(q, |tags|, k, j);
    }
  }

  /** With line numbers of 32 bits, a miss is a line other than the one its set saw last. */
  lemma {:induction false} MissOfShortLines(tags: Tags, lines: seq<nat>, i: nat, j: nat)
    requires i < |lines| && forall k | 0 <= k < |lines| :: lines[k] < TWO32
    requires LastIn(lines[..i], |tags|, SetOf(lines[i], |tags|), j)
    ensures Misses(TouchAll(tags, lines[..i]), lines[i]) <==> lines[j] != lines[i]
  {
    hide SetOf, TouchAll;
    TagsAreLastLines(tags, lines[..i], SetOf(lines[i], |tags|));
  }

  lemma LastInside(lines: seq<nat>, sets: nat, k: nat, j: nat)
    requires sets > 0 && LastIn(lines, sets, k, j)
    ensures j < |lines|
  {
  }

  lemma NewInPrefix(tags: Tags, lines: seq<nat>, n: nat, i: nat)
    requires i < n <= |lines|
    ensures NewToItsSet(tags, lines[..n], i) <==> NewToItsSet(tags, lines, i)
  {
    hide LastIn, Unused;
    assert lines[..n][..i] == lines[..i];
    forall j: nat | LastIn(lines[..i], |tags|, SetOf(lines[i], |tags|), j)
      ensures j < i && lines[..n][j] == lines[j]
    {
      LastInside(lines[..i], |tags|, SetOf(lines[i], |tags|), j);
    }
  }

  /** The miss count is the number of accesses whose line differs from the previous one in their set. */
  lemma {:induction false} MissesAreNewLines(tags: Tags, lines: seq<nat>)
    ensures CountMisses(tags, lines) == |NewLines(tags, lines)|
  {
    hide NewToItsSet, Misses, TouchAll;
    if |lines| > 0 {
      var n := |lines| - 1;
      var q := lines[..n];
      MissesAreNewLines(tags, q);
      MissIsNew(tags, lines, n);
      forall i: nat | i < n ensures NewToItsSet(tags, q, i) <==> NewToItsSet(tags, lines, i) {
        NewInPrefix(tags, lines, n, i);
      }
      if NewToItsSet(tags, lines, n) {
        assert NewLines(tags, lines) == NewLines(tags, q) + {n};
      } else {
        assert NewLines(tags, lines) == NewLines(tags, q);
      }
    }
  }

  /** Lines share a set exactly when they lie a multiple of the number of sets apart. */
  lemma SameSetIff(x: nat, y: nat, sets: nat)
    requires sets > 0
    ensures SetOf(x, sets) == SetOf(y, sets) <==> (x - y) % sets == 0
  {
    var p, q := x / sets, y / sets;
    if (x - y) % sets == 0 {
      MultipleApart(x, y, (x - y) / sets, sets);
    } else if x % sets == y % sets {
      assert x - y == (p - q) * sets + 0;
      DivModUnique(x - y, sets, p - q, 0);
    }
  }

  lemma WindowSets(base: nat, x: nat, y: nat, sets: nat)
    requires sets > 0 && base <= x < base + sets && base <= y < base + sets && SetOf(x, sets) == SetOf(y, sets)
    ensures x == y
  {
    hide SetOf;
    SameSetIff(x, y, sets);
    var k := (x - y) / sets;
    assert x - y == sets * k;
    if k > 0 {
      MulMonotone(sets, 1, k);
    } else if k < 0 {
      MulMonotone(sets, k, -1);
    }
  }

  /** A working set of as many consecutive lines as there are sets is never evicted: an access misses exactly
      when it is the first one to its line and the starting tag is another. */
  lemma WorkingSetStays(tags: Tags, lines: seq<nat>, base: nat, i: nat)
    requires i < |lines| && forall k | 0 <= k < |lines| :: base <= lines[k] < base + |tags| && lines[k] < TWO32
    ensures Misses(TouchAll(tags, lines[..i]), lines[i]) <==>
      lines[i] !in lines[..i] && tags[SetOf(lines[i], |tags|)] != lines[i]
  {
    hide SetOf, Misses, TouchAll, LastIn, Unused;
    var q, k := lines[..i], SetOf(lines[i], |tags|);
    MissIsNew(tags, lines, i);
    SeenIsUsed(tags, lines, base, i);
    if !Unused(q, |tags|, k) {
      SomeLast(q, |tags|, k);
      var j: nat :| LastIn(q, |tags|, k, j);
    }
    forall j: nat | LastIn(q, |tags|, k, j) ensures j < i && lines[j] == lines[i] {
      LastShares(lines, |tags|, base, i, j);
    }
  }

  lemma LastShares(lines: seq<nat>, sets: nat, base: nat, i: nat, j: nat)
    requires sets > 0 && i < |lines| && LastIn(lines[..i], sets, SetOf(lines[i], sets), j)
    requires forall k | 0 <= k < |lines| :: base <= lines[k] < base + sets
    ensures j < i && lines[j] == lines[i]
  {
    hide SetOf;
    WindowSets(base, lines[j], lines[i], sets);
  }

  lemma SeenIsUsed(tags: Tags, lines: seq<nat>, base: nat, i: nat)
    requires i < |lines| && forall k | 0 <= k < |lines| :: base <= lines[k] < base + |tags|
    ensures Unused(lines[..i], |tags|, SetOf(lines[i], |tags|)) <==> lines[i] !in lines[..i]
  {
    hide SetOf;
    var q := lines[..i];
    forall j | 0 <= j < i ensures SetOf(lines[j], |tags|) == SetOf(lines[i], |tags|) <==> lines[j] == lines[i] {
      if SetOf(lines[j], |tags|) == SetOf(lines[i], |tags|) {
        WindowSets(base, lines[j], lines[i], |tags|);
      }
    }
    assert forall j | 0 <= j < |q| :: q[j] == lines[j];
  }

  // ---------------------------------------------------------------- bundles

  datatype Bundle = Bundle(pc: u32, opcode: u32, ireg: Registers)

  predicate IsLocal(op: u32) { 0x20 <= O.Operation(op) <= 0x27 }

  predicate IsIndexed(op: u32) { 0x28 <= O.Operation(op) <= 0x2B }

  predicate IsOffset(op: u32) { 0x2C <= O.Operation(op) <= 0x2F }

  predicate IsWait(op: u32) { O.Operation(op) == 0x4A }

  function CodeLine(b: Bundle): nat { b.pc / 0x100 }

  /** The data line of a load or store; other bundles touch no data. */
  function DataLines(b: Bundle): seq<nat> {
    var base := b.ireg[O.RegB(b.opcode)];
    if IsLocal(b.opcode) then [Add64(base, O.LsuImm16(b.opcode)) / 0x80]
    else if IsOffset(b.opcode) then [Add64(base, O.LsuImm10(b.opcode)) / 0x80]
    else if IsIndexed(b.opcode) then [Add64(base, b.ireg[O.RegC(b.opcode)]) / 0x80]
    else []
  }

  function WaitTraffic(b: Bundle): nat {
    var units: nat := b.ireg[O.RegC(b.opcode)];
    if IsWait(b.opcode) then 64 * units else 0
  }

  type ITags = s: seq<u32> | |s| == ICACHE_SETS witness seq(ICACHE_SETS, _ => 0)
  type DTags = s: seq<u32> | |s| == DCACHE_SETS witness seq(DCACHE_SETS, _ => 0)

  datatype Counters = Counters(
    icache: ITags, dcache: DTags,
    icachemiss: u64, dcachemiss: u64, icachemissCycle: u64, dcachemissCycle: u64, bandwidth: u64)

  function Code(s: Counters, line: nat): Counters {
    if !Misses(s.icache, line) then s
    else s.(icache := Touch(s.icache, line), bandwidth := Add64(s.bandwidth, ILINE_BYTES),
            icachemiss := Add64(s.icachemiss, 1), icachemissCycle := Add64(s.icachemissCycle, IMISS_CYCLES))
  }

  function Data(s: Counters, line: nat): Counters {
    if !Misses(s.dcache, line) then s
    else s.(dcache := Touch(s.dcache, line), bandwidth := Add64(s.bandwidth, DLINE_BYTES),
            dcachemiss := Add64(s.dcachemiss, 1), dcachemissCycle := Add64(s.dcachemissCycle, DMISS_CYCLES))
  }

  function CacheMiss(s: Counters, b: Bundle): Counters {
    var c, lines := Code(s, CodeLine(b)), DataLines(b);
    var d := if |lines| > 0 then Data(c, lines[0]) else c;
    d.(bandwidth := Add64(d.bandwidth, WaitTraffic(b)))
  }

  function Run(s: Counters, h: seq<Bundle>): Counters {
    if |h| == 0 then s else CacheMiss(Run(s, h[..|h| - 1]), h[|h| - 1])
  }

  /** A code line is 256 instruction words. */
  lemma CodeLineWords(b: Bundle, line: nat)
    ensures CodeLine(b) == line <==> 256 * line <= b.pc < 256 * line + 256
  {
  }

  /** The byte a load or store addresses, by its operation. */
  function DataByte(b: Bundle): u64 {
    var base, u := b.ireg[b.opcode / 0x10_0000 % 64], b.opcode / 2 % 128;
    if u < 40 then (base + b.opcode / 0x400 % 0x1_0000) % TWO64
    else if u < 44 then (base + b.ireg[b.opcode / 0x4000 % 64]) % TWO64
    else (base + b.opcode / 0x400 % 0x400) % TWO64
  }

  /** Operations 32 to 47 touch one data line, of 128 bytes, and no others touch any. */
  lemma DataLineBytes(b: Bundle, line: nat)
    ensures 32 <= b.opcode / 2 % 128 < 48 ==>
      |DataLines(b)| == 1 && (DataLines(b) == [line] <==> 128 * line <= DataByte(b) < 128 * line + 128)
    ensures !(32 <= b.opcode / 2 % 128 < 48) ==> DataLines(b) == []
  {
    hide O.RegB, O.RegC, O.LsuImm10, O.LsuImm16, DataByte;
    DataByteIs(b);
    if 32 <= b.opcode / 2 % 128 < 48 {
      assert DataLines(b)[0] == DataByte(b) / 0x80;
    }
  }

  lemma DataByteIs(b: Bundle)
    ensures 32 <= b.opcode / 2 % 128 < 48 ==> DataLines(b) == [DataByte(b) / 0x80]
  {
  }

  /** Operation 74 adds 64 bytes of traffic for each unit register C counts. */
  lemma WaitBytes(b: Bundle)
    ensures var units: nat := b.ireg[b.opcode / 0x4000 % 64];
      WaitTraffic(b) == if b.opcode / 2 % 128 == 74 then 64 * units else 0
  {
  }

  function CodeHistory(h: seq<Bundle>): seq<nat> {
    if |h| == 0 then [] else CodeHistory(h[..|h| - 1]) + [CodeLine(h[|h| - 1])]
  }

  function DataHistory(h: seq<Bundle>): seq<nat> {
    if |h| == 0 then [] else DataHistory(h[..|h| - 1]) + DataLines(h[|h| - 1])
  }

  function WaitHistory(h: seq<Bundle>): nat {
    if |h| == 0 then 0 else WaitHistory(h[..|h| - 1]) + WaitTraffic(h[|h| - 1])
  }

  /** Every counter and tag as the history of accesses gives it. */
  ghost predicate Accounts(s: Counters, code: seq<nat>, data: seq<nat>, waits: nat, t: Counters) {
    var im, dm := CountMisses(s.icache, code), CountMisses(s.dcache, data);
    && t.icache == TouchAll(s.icache, code) && t.dcache == TouchAll(s.dcache, data)
    && t.icachemiss == Add64(s.icachemiss, im) && t.dcachemiss == Add64(s.dcachemiss, dm)
    && t.icachemissCycle == Add64(s.icachemissCycle, 94 * im)
    && t.dcachemissCycle == Add64(s.dcachemissCycle, 38 * dm)
    && t.bandwidth == Add64(s.bandwidth, 1024 * im + 128 * dm + waits)
  }

  lemma AddTwice(a: nat, b: nat, c: nat)
    ensures Add64(Add64(a, b), c) == Add64(a, b + c)
  {
  }

  lemma AddNothing(a: u64)
    ensures Add64(a, 0) == a
  {
  }

  lemma CodeAccounts(s: Counters, code: seq<nat>, data: seq<nat>, waits: nat, t: Counters, line: nat)
    requires Accounts(s, code, data, waits, t)
    ensures Accounts(s, code + [line], data, waits, Code(t, line))
  {
    hide Misses, Add64;
    var all := code + [line];
    assert all[..|all| - 1] == code;
    var im, dm := CountMisses(s.icache, code), CountMisses(s.dcache, data);
    AddTwice(s.icachemiss, im, 1);
    AddTwice(s.icachemissCycle, 94 * im, IMISS_CYCLES);
    AddTwice(s.bandwidth, 1024 * im + 128 * dm + waits, ILINE_BYTES);
  }

  lemma DataAccounts(s: Counters, code: seq<nat>, data: seq<nat>, waits: nat, t: Counters, line: nat)
    requires Accounts(s, code, data, waits, t)
    ensures Accounts(s, code, data + [line], waits, Data(t, line))
  {
    hide Misses, Add64;
    var all := data + [line];
    assert all[..|all| - 1] == data;
    var im, dm := CountMisses(s.icache, code), CountMisses(s.dcache, data);
    AddTwice(s.dcachemiss, dm, 1);
    AddTwice(s.dcachemissCycle, 38 * dm, DMISS_CYCLES);
    AddTwice(s.bandwidth, 1024 * im + 128 * dm + waits, DLINE_BYTES);
  }

  /** After any run from any counters and tags, everything agrees with the history of accesses. */
  lemma {:induction false} AgreesWithHistory(s: Counters, h: seq<Bundle>)
    ensures Accounts(s, CodeHistory(h), DataHistory(h), WaitHistory(h), Run(s, h))
  {
    hide Code, Data, CodeLine, DataLines, WaitTraffic, Add64;
    if |h| == 0 {
      NothingHappened(s);
    } else {
      var q, b := h[..|h| - 1], h[|h| - 1];
      AgreesWithHistory(s, q);
      OneBundle(s, CodeHistory(q), DataHistory(q), WaitHistory(q), Run(s, q), b);
    }
  }

  lemma NothingHappened(s: Counters)
    ensures Accounts(s, [], [], 0, s)
  {
  }

  lemma OneBundle(s: Counters, code: seq<nat>, data: seq<nat>, waits: nat, t: Counters, b: Bundle)
    requires Accounts(s, code, data, waits, t)
    ensures Accounts(s, code + [CodeLine(b)], data + DataLines(b), waits + WaitTraffic(b), CacheMiss(t, b))
  {
    hide Code, Data, CodeLine, WaitTraffic, Add64, TouchAll, CountMisses;
    var lines := DataLines(b);
    CodeAccounts(s, code, data, waits, t, CodeLine(b));
    var c, code' := Code(t, CodeLine(b)), code + [CodeLine(b)];
    if |lines| > 0 {
      DataAccounts(s, code', data, waits, c, lines[0]);
      assert lines == [lines[0]];
    } else {
      assert data + lines == data;
    }
    AddTwice(s.bandwidth,
             1024 * CountMisses(s.icache, code') + 128 * CountMisses(s.dcache, data + lines) + waits, WaitTraffic(b));
  }

  lemma {:induction false} CodeHistoryAt(h: seq<Bundle>, i: nat)
    requires i < |h|
    ensures |CodeHistory(h)| == |h| && CodeHistory(h)[i] == CodeLine(h[i])
    ensures CodeHistory(h)[..i] == CodeHistory(h[..i])
  {
    hide CodeLine;
    var q := h[..|h| - 1];
    if |q| > 0 {
      CodeHistoryAt(q, if i < |q| then i else 0);
    }
    if i < |q| {
      assert h[..i] == q[..i];
    } else {
      assert CodeHistory(h)[..i] == CodeHistory(q);
    }
  }

  /** A program that stays within 16384 consecutive words, 64 KiB, is fetched once: a bundle misses exactly when
      it is the first one in its 256 words and the starting tag is another. */
  lemma CodeWorkingSet(tags: ITags, h: seq<Bundle>, base: nat, i: nat)
    requires i < |h| && forall k | 0 <= k < |h| :: 256 * base <= h[k].pc < 256 * base + 16384
    ensures Misses(TouchAll(tags, CodeHistory(h[..i])), CodeLine(h[i])) <==>
      && tags[h[i].pc / 256 % 64] != h[i].pc / 256
      && forall k | 0 <= k < i :: h[k].pc / 256 != h[i].pc / 256
  {
    hide Misses, TouchAll, CodeHistory;
    var lines := CodeHistory(h);
    CodeHistoryAt(h, i);
    forall k | 0 <= k < |h| ensures lines[k] == h[k].pc / 256 {
      CodeHistoryAt(h, k);
    }
    WorkingSetStays(tags, lines, base, i);
  }

  function Fresh(icache: ITags, dcache: DTags): Counters { Counters(icache, dcache, 0, 0, 0, 0, 0) }

  /** From zeroed counters the miss cycles and the traffic are fixed multiples of the misses, modulo 2^64. */
  lemma CyclesFollowMisses(icache: ITags, dcache: DTags, h: seq<Bundle>)
    ensures var t := Run(Fresh(icache, dcache), h);
      && t.icachemissCycle == Mul64(94, t.icachemiss) && t.dcachemissCycle == Mul64(38, t.dcachemiss)
      && t.bandwidth == (1024 * t.icachemiss + 128 * t.dcachemiss + WaitHistory(h)) % TWO64
  {
    hide Run, CodeHistory, DataHistory, WaitHistory, TouchAll, CountMisses;
    AgreesWithHistory(Fresh(icache, dcache), h);
    var im, dm := CountMisses(icache, CodeHistory(h)), CountMisses(dcache, DataHistory(h));
    WrappedMultiples(im, dm, WaitHistory(h));
  }

  lemma WrappedMultiples(im: nat, dm: nat, waits: nat)
    ensures (94 * im) % TWO64 == (94 * (im % TWO64)) % TWO64 && (38 * dm) % TWO64 == (38 * (dm % TWO64)) % TWO64
    ensures (1024 * im + 128 * dm + waits) % TWO64
      == (1024 * (im % TWO64) + 128 * (dm % TWO64) + waits) % TWO64
  {
    var p, q := im / TWO64, dm / TWO64;
    ModAddMultiple(94 * (im % TWO64), 94 * p, TWO64);
    ModAddMultiple(38 * (dm % TWO64), 38 * q, TWO64);
    ModAddMultiple(1024 * (im % TWO64) + 128 * (dm % TWO64) + waits, 1024 * p + 128 * q, TWO64);
  }

  // ---------------------------------------------------------------- the core's tables in place

  class Core {
    var pc: u32
    var opcode1: u32
    const ireg: array<u64>
    const icache: array<u32>
    const dcache: array<u32>
    var icachemiss: u64
    var dcachemiss: u64
    var icachemissCycle: u64
    var dcachemissCycle: u64
    var bandwidth: u64

    constructor ()
      ensures fresh(ireg) && fresh(icache) && fresh(dcache) && Valid()
      ensures Snapshot() == Fresh(seq<u32>(ICACHE_SETS, _ => 0), seq<u32>(DCACHE_SETS, _ => 0))
    {
      pc, opcode1 := 0, 0;
      ireg := new u64[64](_ => 0);
      icache := new u32[ICACHE_SETS](_ => 0);
      dcache := new u32[DCACHE_SETS](_ => 0);
      icachemiss, dcachemiss, icachemissCycle, dcachemissCycle, bandwidth := 0, 0, 0, 0, 0;
    }

    ghost predicate Valid() {
      && ireg.Length == 64 && icache.Length == ICACHE_SETS && dcache.Length == DCACHE_SETS
      && icache != dcache && {ireg as object} !! {icache as object, dcache}
    }

    ghost function Snapshot(): Counters
      requires Valid()
      reads this, icache, dcache
    {
      Counters(icache[..], dcache[..], icachemiss, dcachemiss, icachemissCycle, dcachemissCycle, bandwidth)
    }

    ghost function Current(): Bundle
      requires Valid()
      reads this, ireg
    {
      Bundle(pc, opcode1, ireg[..])
    }

    method TouchCode(line: u32)
      requires Valid()
      modifies this`bandwidth, this`icachemiss, this`icachemissCycle, icache
      ensures Snapshot() == Code(old(Snapshot()), line)
    {
      var index := line % 0x40;
      if icache[index] != line {
        icache[index] := line;
        bandwidth := Add64(bandwidth, 1024);
        icachemiss := Add64(icachemiss, 1);
        icachemissCycle := Add64(icachemissCycle, 14 + 5 * 16);
      }
    }

    method TouchData(offset: u64)
      requires Valid()
      modifies this`bandwidth, this`dcachemiss, this`dcachemissCycle, dcache
      ensures Snapshot() == Data(old(Snapshot()), offset / 0x80)
    {
      var line := offset / 0x80;
      var index := line % 0x400;
      if dcache[index] != line {
        dcache[index] := line % TWO32;
        bandwidth := Add64(bandwidth, 128);
        dcachemiss := Add64(dcachemiss, 1);
        dcachemissCycle := Add64(dcachemissCycle, (14 + 5) * 2);
      }
    }

    /** Accounts for the code line at pc and the data line of opcode1. */
    method RecordMisses()
      requires Valid()
      modifies this`bandwidth, this`icachemiss, this`icachemissCycle, this`dcachemiss, this`dcachemissCycle
      modifies icache, dcache
      ensures Snapshot() == CacheMiss(old(Snapshot()), old(Current()))
    {
      hide Code, Data, O.Operation, O.RegB, O.RegC, Add64;
      TouchCode(pc / 0x100);
      var opcode := opcode1;
      var base := ireg[O.RegB(opcode)];
      AddNothing(bandwidth);
      if IsLocal(opcode) {
        TouchData(Add64(base, O.LsuImm16(opcode)));
      } else if IsOffset(opcode) {
        TouchData(Add64(base, O.LsuImm10(opcode)));
      } else if IsIndexed(opcode) {
        TouchData(Add64(base, ireg[O.RegC(opcode)]));
      } else if IsWait(opcode) {
        var units: nat := ireg[O.RegC(opcode)];
        bandwidth := Add64(bandwidth, 64 * units);
      }
      AddNothing(bandwidth);
    }
  }
}
