/** What loading sections leaves in WRAM. */
module Sections {
  import opened Bits
  import opened Results
  import opened Memory
  import opened Machine
  import opened Loader
  import Footprint
  import LoadStore

  /** A power-of-two WRAM of at most 2 GiB: addresses from WRAM_BEGIN on are WRAM offsets. */
  ghost predicate FlatWram(m: Mem) { PowerSizes(m) && |m.wram| <= 0x8000_0000 }

  /** t differs from s in the contents of WRAM alone. */
  ghost predicate OnlyWram(s: State, t: State) {
    |t.mem.wram| == |s.mem.wram| && t == s.(mem := s.mem.(wram := t.mem.wram))
  }

  lemma FlatWrite(m: Mem, d: nat, bytes: Bytes)
    requires FlatWram(m) && d + |bytes| <= |m.wram|
    ensures WriteMem(m, Add64(WRAM_BEGIN, d), bytes) == Ok(m.(wram := Splice(m.wram, d, bytes)))
  {
    hide SelectBank, OffsetMask, Bitwise;
    if d < |m.wram| {
      LoadStore.WramOffset(m, d);
    } else {
      var a := Add64(WRAM_BEGIN, d);
      MapsInside(m, a);
      assert bytes == [] && Splice(m.wram, d, bytes) == m.wram;
      var bank := m.Of(SelectBank(a));
      assert Splice(bank, Offset(m, a), bytes) == bank;
      SameBanks(m.With(SelectBank(a), bank), m);
    }
  }

  lemma FlatRead(m: Mem, d: nat, n: nat)
    requires FlatWram(m) && d + n <= |m.wram| && n > 0
    ensures ReadMem(m, WRAM_BEGIN + d, n) == Ok(m.wram[d..d + n])
  {
    hide SelectBank, OffsetMask, Bitwise;
    LoadStore.WramOffset(m, d);
  }

  // ---------------------------------------------------------------- sections

  predicate Holding(wram: Bytes, d: nat, bytes: Bytes) { d + |bytes| <= |wram| && wram[d..d + |bytes|] == bytes }

  predicate InRange(k: nat, x: Section) { x.addr <= k < x.addr + |x.content| }

  predicate Apart(x: Section, y: Section) {
    x.addr + |x.content| <= y.addr || y.addr + |y.content| <= x.addr || x.content == [] || y.content == []
  }

  predicate NoWrap(sections: seq<Section>) {
    forall i | 0 <= i < |sections| && Allocated(sections[i]) ::
      sections[i].addr + |sections[i].content| < TWO64
  }

  predicate Disjoint(sections: seq<Section>) {
    forall i, j | 0 <= i < j < |sections| && Allocated(sections[i]) && Allocated(sections[j]) ::
      Apart(sections[i], sections[j])
  }

  predicate AllFit(sections: seq<Section>, size: nat) {
    forall i | 0 <= i < |sections| && Allocated(sections[i]) :: sections[i].addr + |sections[i].content| <= size
  }

  predicate SomeCovers(sections: seq<Section>, entry: Symbol) {
    exists i :: 0 <= i < |sections| && Allocated(sections[i]) && Covers(sections[i], entry)
  }

  /** The loader's two checks: the end as the program computes it, and the copy itself. */
  predicate Accepted(m: Mem, x: Section)
    requires |x.content| < TWO64
  {
    Add64(x.addr, |x.content|) <= |m.wram| && Holds(m, Add64(WRAM_BEGIN, x.addr), |x.content|)
  }

  predicate AllAccepted(m: Mem, sections: seq<Section>)
    requires Sized(sections)
  {
    forall i | 0 <= i < |sections| && Allocated(sections[i]) :: Accepted(m, sections[i])
  }

  /** The content ranges of the allocated sections, in order. */
  function AllBounds(sections: seq<Section>): seq<Bounds> {
    if |sections| == 0 then []
    else
      var x := sections[|sections| - 1];
      AllBounds(sections[..|sections| - 1])
      + if Allocated(x) then [Bounds(x.addr, Add64(x.addr, |x.content|))] else []
  }

  ghost predicate SectionsIntact(wram: Bytes, sections: seq<Section>) {
    forall i | 0 <= i < |sections| && Allocated(sections[i]) ::
      Holding(wram, sections[i].addr, sections[i].content)
  }

  /** The byte at offset k once the sections have been copied one over the other. */
  function LastByte(before: u8, sections: seq<Section>, k: nat): u8 {
    if |sections| == 0 then before
    else
      var x := sections[|sections| - 1];
      if Allocated(x) && InRange(k, x) then x.content[k - x.addr]
      else LastByte(before, sections[..|sections| - 1], k)
  }

  /** Below hi, every byte is that of the last section covering it, or what it was before. */
  ghost predicate Overlaid(before: Bytes, after: Bytes, sections: seq<Section>, hi: nat) {
    && hi <= |before| == |after|
    && forall k: nat | k < hi :: after[k] == LastByte(before[k], sections, k)
  }

  /** Wherever the two share an offset they have the same byte for it. */
  predicate Agree(x: Section, y: Section) {
    forall k | x.addr <= k < x.addr + |x.content| && InRange(k, y) :: x.content[k - x.addr] == y.content[k - y.addr]
  }

  predicate AgreeOnOverlap(sections: seq<Section>) {
    forall i, j | 0 <= i < j < |sections| && Allocated(sections[i]) && Allocated(sections[j]) ::
      Agree(sections[i], sections[j])
  }

  // ---------------------------------------------------------------- which sections are accepted

  lemma HoldsSizes(m: Mem, n: Mem, addr: u64, count: nat)
    requires SameSizes(m, n)
    ensures Holds(m, addr, count) == Holds(n, addr, count)
  {
    hide SelectBank, OffsetMask, Bitwise;
    Footprint.OffsetFootprint(m, n, addr);
  }

  lemma AcceptedSizes(m: Mem, n: Mem, x: Section)
    requires SameSizes(m, n) && |x.content| < TWO64
    ensures Accepted(m, x) == Accepted(n, x)
  {
    hide Holds;
    HoldsSizes(m, n, Add64(WRAM_BEGIN, x.addr), |x.content|);
    assert |m.Of(Wram)| == |n.Of(Wram)|;
  }

  /** A section whose end does not wrap around is accepted exactly when it fits. */
  lemma AcceptedFits(m: Mem, x: Section)
    requires FlatWram(m) && x.addr + |x.content| < TWO64
    ensures Accepted(m, x) <==> x.addr + |x.content| <= |m.wram|
  {
    hide FlatWram, Holds, WriteMem, Splice, Bitwise;
    if x.addr + |x.content| <= |m.wram| {
      FlatWrite(m, x.addr, x.content);
    }
  }

  lemma BankAtMostHalf(m: Mem, b: Bank)
    requires PowerSizes(m)
    ensures |m.Of(b)| <= TWO63
  {
    hide Pow2, IsPow2;
    AllPowers(m, b);
    HalfOfWords(|m.Of(b)|);
  }

  lemma HalfOfWords(n: nat)
    requires IsPow2(n) && n < TWO64
    ensures n <= TWO63
  {
    hide Pow2;
    var k: nat :| n == Pow2(k);
    Pow2Values();
    if k >= 64 {
      Pow2Monotone(64, k);
    } else {
      Pow2Double(64);
      Pow2Monotone(k, 63);
    }
  }

  /** An accepted section whose end wraps around lies at the top of the address space and is copied to a bank
      other than WRAM. */
  lemma WrappedElsewhere(m: Mem, x: Section)
    requires FlatWram(m) && |x.content| < TWO64 && Accepted(m, x) && x.addr + |x.content| >= TWO64
    ensures x.addr >= TWO63 && SelectBank(Add64(WRAM_BEGIN, x.addr)) != Wram
  {
    hide SelectBank, Offset, PowerSizes;
    var a := Add64(WRAM_BEGIN, x.addr);
    BankAtMostHalf(m, SelectBank(a));
    BankByRange(a);
  }

  /** Every allocated section fits exactly when all are accepted and none wraps around. */
  lemma FitIff(m: Mem, sections: seq<Section>)
    requires FlatWram(m) && Sized(sections)
    ensures AllFit(sections, |m.wram|) <==> AllAccepted(m, sections) && NoWrap(sections)
  {
    hide FlatWram, Accepted, Allocated;
    FlatSize(m);
    forall i | 0 <= i < |sections| && Allocated(sections[i]) && sections[i].addr + |sections[i].content| < TWO64
      ensures Accepted(m, sections[i]) <==> sections[i].addr + |sections[i].content| <= |m.wram|
    {
      AcceptedFits(m, sections[i]);
    }
  }

  lemma FlatSize(m: Mem)
    requires FlatWram(m)
    ensures |m.wram| <= 0x8000_0000
  {
  }

  /** Sections that are all in place do not wrap around. */
  lemma IntactNoWrap(wram: Bytes, sections: seq<Section>)
    requires SectionsIntact(wram, sections) && |wram| < TWO64
    ensures NoWrap(sections)
  {
    hide Allocated;
    forall i | 0 <= i < |sections| && Allocated(sections[i]) ensures sections[i].addr + |sections[i].content| < TWO64 {
      assert Holding(wram, sections[i].addr, sections[i].content);
    }
  }

  lemma SpliceKeeps(wram: Bytes, off: nat, bytes: Bytes, d: nat, held: Bytes)
    requires off + |bytes| <= |wram| && Holding(wram, d, held)
    requires off + |bytes| <= d || d + |held| <= off || bytes == [] || held == []
    ensures Holding(Splice(wram, off, bytes), d, held)
  {
    var t := Splice(wram, off, bytes);
    assert forall i | d <= i < d + |held| :: t[i] == wram[i];
    assert t[d..d + |held|] == wram[d..d + |held|];
  }

  // ---------------------------------------------------------------- one section over the other

  lemma LastByteOf(before: u8, q: seq<Section>, x: Section, k: nat)
    ensures LastByte(before, q + [x], k) ==
      if Allocated(x) && InRange(k, x) then x.content[k - x.addr] else LastByte(before, q, k)
  {
    hide Allocated, InRange;
    assert (q + [x])[..|q|] == q;
  }

  lemma OverlayOne(before: Bytes, wram: Bytes, q: seq<Section>, x: Section)
    requires Overlaid(before, wram, q, |wram|) && Allocated(x) && x.addr + |x.content| <= |wram|
    ensures Overlaid(before, Splice(wram, x.addr, x.content), q + [x], |wram|)
  {
    hide Allocated, Splice, LastByte;
    var t := Splice(wram, x.addr, x.content);
    forall k: nat | k < |wram| ensures t[k] == LastByte(before[k], q + [x], k) {
      LastByteOf(before[k], q, x, k);
    }
  }

  lemma OverlaySkips(before: Bytes, wram: Bytes, q: seq<Section>, x: Section)
    requires Overlaid(before, wram, q, |wram|) && (!Allocated(x) || |wram| <= x.addr)
    ensures Overlaid(before, wram, q + [x], |wram|)
  {
    hide Allocated, LastByte;
    forall k: nat | k < |wram| ensures wram[k] == LastByte(before[k], q + [x], k) {
      LastByteOf(before[k], q, x, k);
    }
  }

  /** Section i is the last allocated one that covers offset k. */
  predicate LastCovering(sections: seq<Section>, k: nat, i: nat) {
    && i < |sections| && Allocated(sections[i]) && InRange(k, sections[i])
    && forall j | i < j < |sections| && Allocated(sections[j]) :: !InRange(k, sections[j])
  }

  predicate Uncovered(sections: seq<Section>, k: nat) {
    forall j | 0 <= j < |sections| && Allocated(sections[j]) :: !InRange(k, sections[j])
  }

  /** A byte ends as the last section covering it says. */
  lemma {:induction false} LastWriter(before: u8, sections: seq<Section>, k: nat, i: nat)
    requires LastCovering(sections, k, i)
    ensures LastByte(before, sections, k) == sections[i].content[k - sections[i].addr]
  {
    hide Allocated, InRange;
    var last := |sections| - 1;
    if i < last {
      var q := sections[..last];
      assert forall j | 0 <= j < |q| :: q[j] == sections[j];
      LastWriter(before, q, k, i);
    }
  }

  /** A byte no section covers stays what it was. */
  lemma {:induction false} NoWriter(before: u8, sections: seq<Section>, k: nat)
    requires Uncovered(sections, k)
    ensures LastByte(before, sections, k) == before
  {
    hide Allocated, InRange;
    if |sections| > 0 {
      var q := sections[..|sections| - 1];
      assert forall j | 0 <= j < |q| :: q[j] == sections[j];
      NoWriter(before, q, k);
    }
  }

  /** When overlaps agree, a byte is what any section covering it says. */
  lemma {:induction false} AgreedByte(before: u8, sections: seq<Section>, i: nat, k: nat)
    requires AgreeOnOverlap(sections)
    requires i < |sections| && Allocated(sections[i]) && InRange(k, sections[i])
    ensures LastByte(before, sections, k) == sections[i].content[k - sections[i].addr]
  {
    hide Allocated;
    var q, last := sections[..|sections| - 1], |sections| - 1;
    if Allocated(sections[last]) && InRange(k, sections[last]) {
      assert i < last ==> Agree(sections[i], sections[last]);
    } else {
      AgreePrefix(sections);
      assert q[i] == sections[i];
      AgreedByte(before, q, i, k);
    }
  }

  lemma AgreePrefix(sections: seq<Section>)
    requires |sections| > 0 && AgreeOnOverlap(sections)
    ensures AgreeOnOverlap(sections[..|sections| - 1])
  {
    hide Allocated, Agree;
    var q := sections[..|sections| - 1];
    assert forall i | 0 <= i < |q| :: q[i] == sections[i];
  }

  lemma HeldByte(wram: Bytes, d: nat, bytes: Bytes, k: nat)
    requires Holding(wram, d, bytes) && d <= k < d + |bytes|
    ensures wram[k] == bytes[k - d]
  {
    assert wram[d..d + |bytes|][k - d] == bytes[k - d];
  }

  lemma HeldAgree(wram: Bytes, x: Section, y: Section)
    requires Holding(wram, x.addr, x.content) && Holding(wram, y.addr, y.content)
    ensures Agree(x, y)
  {
    hide Holding;
    forall k | x.addr <= k < x.addr + |x.content| && InRange(k, y)
      ensures x.content[k - x.addr] == y.content[k - y.addr]
    {
      HeldByte(wram, x.addr, x.content, k);
      HeldByte(wram, y.addr, y.content, k);
    }
  }

  /** Copied one over the other, all sections are intact exactly when they agree wherever they overlap. */
  lemma IntactIff(before: Bytes, wram: Bytes, sections: seq<Section>, hi: nat)
    requires Overlaid(before, wram, sections, hi) && AllFit(sections, hi)
    ensures SectionsIntact(wram, sections) <==> AgreeOnOverlap(sections)
  {
    hide Allocated, LastByte, Holding, Agree;
    if AgreeOnOverlap(sections) {
      forall i | 0 <= i < |sections| && Allocated(sections[i])
        ensures Holding(wram, sections[i].addr, sections[i].content)
      {
        AgreedSection(before, wram, sections, hi, i);
      }
    }
    if SectionsIntact(wram, sections) {
      forall i, j | 0 <= i < j < |sections| && Allocated(sections[i]) && Allocated(sections[j])
        ensures Agree(sections[i], sections[j])
      {
        HeldAgree(wram, sections[i], sections[j]);
      }
    }
  }

  lemma AgreedSection(before: Bytes, wram: Bytes, sections: seq<Section>, hi: nat, i: nat)
    requires Overlaid(before, wram, sections, hi) && AllFit(sections, hi) && AgreeOnOverlap(sections)
    requires i < |sections| && Allocated(sections[i])
    ensures Holding(wram, sections[i].addr, sections[i].content)
  {
    hide Allocated, LastByte, AgreeOnOverlap;
    var x := sections[i];
    forall k: nat | x.addr <= k < x.addr + |x.content| ensures wram[k] == x.content[k - x.addr] {
      AgreedByte(before[k], sections, i, k);
    }
    assert wram[x.addr..x.addr + |x.content|] == x.content;
  }

  /** Sections that do not overlap agree. */
  lemma DisjointAgree(sections: seq<Section>)
    requires Disjoint(sections)
    ensures AgreeOnOverlap(sections)
  {
    hide Allocated;
    forall i, j | 0 <= i < j < |sections| && Allocated(sections[i]) && Allocated(sections[j])
      ensures Agree(sections[i], sections[j])
    {
      assert Apart(sections[i], sections[j]);
    }
  }

  lemma AllocatedFlag()
    ensures And(SHF_ALLOC, SHF_ALLOC) != 0
  {
    AndBit(2, 1);
    assert Pow2(1) == 2;
  }

  lemma OverlaidOthers(before: Bytes, after: Bytes, sections: seq<Section>)
    requires Overlaid(before, after, sections, |after|)
    ensures forall k: nat | k < |before| && Uncovered(sections, k) :: after[k] == before[k]
  {
    hide Allocated, InRange, LastByte;
    forall k: nat | k < |before| && Uncovered(sections, k) ensures after[k] == before[k] {
      NoWriter(before[k], sections, k);
    }
  }

  // ---------------------------------------------------------------- any list of sections

  /** What loading leaves besides the contents of memory. */
  ghost predicate LoadedFrom(s: State, sections: seq<Section>, entry: Symbol, l: Loaded) {
    && SameSizes(s.mem, l.state.mem) && l.state == s.(mem := l.state.mem)
    && l.bounds == AllBounds(sections)
    && (l.covered <==> SomeCovers(sections, entry))
  }

  lemma AllAcceptedPrefix(m: Mem, sections: seq<Section>)
    requires |sections| > 0 && Sized(sections)
    ensures var q, x := sections[..|sections| - 1], sections[|sections| - 1];
      Sized(q) && (AllAccepted(m, sections) <==> AllAccepted(m, q) && (Allocated(x) ==> Accepted(m, x)))
  {
    hide Allocated, Accepted;
    var q := sections[..|sections| - 1];
    assert forall i | 0 <= i < |q| :: q[i] == sections[i];
  }

  lemma SomeCoversPrefix(sections: seq<Section>, entry: Symbol)
    requires |sections| > 0
    ensures var q, x := sections[..|sections| - 1], sections[|sections| - 1];
      SomeCovers(sections, entry) <==> SomeCovers(q, entry) || (Allocated(x) && Covers(x, entry))
  {
    hide Allocated, Covers;
    var q := sections[..|sections| - 1];
    assert forall i | 0 <= i < |q| :: q[i] == sections[i];
  }

  lemma BoundsOf(q: seq<Section>, x: Section)
    ensures AllBounds(q + [x]) ==
      AllBounds(q) + if Allocated(x) then [Bounds(x.addr, Add64(x.addr, |x.content|))] else []
  {
    hide Allocated;
    assert (q + [x])[..|q|] == q;
  }

  lemma LastSection(s: State, q: seq<Section>, x: Section, entry: Symbol, l: Loaded)
    requires LoadedFrom(s, q, entry, l) && |x.content| < TWO64
    ensures var r := LoadOne(l, x, entry);
      && (r.Ok? <==> (Allocated(x) ==> Accepted(s.mem, x)))
      && (r.Ok? ==> LoadedFrom(s, q + [x], entry, r.value))
  {
    hide Allocated, Covers, SomeCovers, WriteMem, Holds, AllBounds;
    AcceptedSizes(s.mem, l.state.mem, x);
    BoundsOf(q, x);
    var all := q + [x];
    assert all[..|all| - 1] == q && all[|all| - 1] == x;
    SomeCoversPrefix(all, entry);
  }

  /** In any memory, loading gets through exactly the lists whose allocated sections are all accepted. */
  lemma {:induction false} LoadEachIff(s: State, sections: seq<Section>, entry: Symbol)
    requires Sized(sections)
    ensures LoadEach(s, sections, entry).Ok? <==> AllAccepted(s.mem, sections)
    ensures LoadEach(s, sections, entry).Ok? ==> LoadedFrom(s, sections, entry, LoadEach(s, sections, entry).value)
  {
    hide LoadOne, LoadedFrom, AllAccepted, Allocated, Accepted;
    if |sections| == 0 {
      EmptyLoad(s, entry);
    } else {
      var q, x := sections[..|sections| - 1], sections[|sections| - 1];
      assert q + [x] == sections;
      AllAcceptedPrefix(s.mem, sections);
      LoadEachIff(s, q, entry);
      if LoadEach(s, q, entry).Ok? {
        LastSection(s, q, x, entry, LoadEach(s, q, entry).value);
      }
    }
  }

  lemma EmptyLoad(s: State, entry: Symbol)
    ensures LoadEach(s, [], entry) == Ok(Loaded(s, [], false))
    ensures AllAccepted(s.mem, []) && LoadedFrom(s, [], entry, Loaded(s, [], false))
  {
  }

  /** Section i is the first allocated one that is not accepted. */
  predicate FirstRefused(m: Mem, sections: seq<Section>, i: nat)
    requires Sized(sections)
  {
    && i < |sections| && Allocated(sections[i]) && !Accepted(m, sections[i])
    && forall j | 0 <= j < i && Allocated(sections[j]) :: Accepted(m, sections[j])
  }

  /** The first refused section decides the error: too little memory by the computed end, or a copy that leaves
      its bank. */
  lemma {:induction false} LoadEachError(s: State, sections: seq<Section>, entry: Symbol, i: nat)
    requires Sized(sections) && FirstRefused(s.mem, sections, i)
    ensures LoadEach(s, sections, entry) ==
      Err(if Add64(sections[i].addr, |sections[i].content|) > |s.mem.wram| then NotEnoughMemory else OutsideBank)
  {
    hide LoadOne, Allocated, Accepted, Add64, AllBounds, SomeCovers;
    var last := |sections| - 1;
    var q := sections[..last];
    assert forall j | 0 <= j < |q| :: q[j] == sections[j];
    if i < last {
      LoadEachError(s, q, entry, i);
    } else {
      LoadEachIff(s, q, entry);
      RefusedError(s, LoadEach(s, q, entry).value, sections[i], entry);
    }
  }

  lemma RefusedError(s: State, l: Loaded, x: Section, entry: Symbol)
    requires SameSizes(s.mem, l.state.mem) && |x.content| < TWO64 && Allocated(x) && !Accepted(s.mem, x)
    ensures LoadOne(l, x, entry) ==
      Err(if Add64(x.addr, |x.content|) > |s.mem.wram| then NotEnoughMemory else OutsideBank)
  {
    hide Allocated, Covers, Holds, WriteMem;
    assert |s.mem.Of(Wram)| == |l.state.mem.Of(Wram)|;
    HoldsSizes(s.mem, l.state.mem, Add64(WRAM_BEGIN, x.addr), |x.content|);
  }

  /** The symbol's range lies inside the section's, as integers. */
  predicate Contains(x: Section, entry: Symbol) {
    x.addr <= entry.value && entry.value + entry.size <= x.addr + x.size
  }

  /** Contains, decided by the program's wrapping sums: when only the section's end wraps around the answer is
      no, and when only the symbol's does its end counts from 0. */
  predicate ContainsWrapped(x: Section, entry: Symbol) {
    if x.addr + x.size < TWO64 <==> entry.value + entry.size < TWO64 then Contains(x, entry)
    else x.addr + x.size < TWO64 && x.addr <= entry.value && entry.value + entry.size - TWO64 <= x.addr + x.size
  }

  lemma CoversExactly(x: Section, entry: Symbol)
    ensures Covers(x, entry) <==> ContainsWrapped(x, entry)
  {
  }

  /** The program's test is containment exactly when the ends wrap around both or not at all, or it fails on the
      begin, or only the symbol's end wraps around and still lies too far. */
  lemma CoversMeansContains(x: Section, entry: Symbol)
    ensures (Covers(x, entry) <==> Contains(x, entry)) <==>
      || (x.addr + x.size < TWO64 <==> entry.value + entry.size < TWO64)
      || entry.value < x.addr
      || (x.addr + x.size < TWO64 && x.addr + x.size < entry.value + entry.size - TWO64)
  {
    CoversExactly(x, entry);
  }

  /** For a symbol that is not empty, containment means that each of its bytes is one of the section's. */
  lemma ContainsBytes(x: Section, entry: Symbol)
    requires entry.size > 0
    ensures Contains(x, entry) <==>
      forall k | entry.value <= k < entry.value + entry.size :: ByteOf(x, k)
  {
    if forall k | entry.value <= k < entry.value + entry.size :: ByteOf(x, k) {
      assert ByteOf(x, entry.value) && ByteOf(x, entry.value + entry.size - 1);
    }
  }

  predicate ByteOf(x: Section, k: int) { x.addr <= k < x.addr + x.size }

  ghost predicate SomeContains(sections: seq<Section>, entry: Symbol) {
    exists i :: 0 <= i < |sections| && Allocated(sections[i]) && ContainsWrapped(sections[i], entry)
  }

  lemma SomeCoversIsContains(sections: seq<Section>, entry: Symbol)
    ensures SomeCovers(sections, entry) <==> SomeContains(sections, entry)
  {
    hide Allocated, Covers, ContainsWrapped;
    forall i | 0 <= i < |sections| ensures Covers(sections[i], entry) <==> ContainsWrapped(sections[i], entry) {
      CoversExactly(sections[i], entry);
    }
  }

  /** No sum of a section's or the symbol's begin and size wraps around. */
  predicate PlainRanges(sections: seq<Section>, entry: Symbol) {
    && entry.value + entry.size < TWO64
    && forall i | 0 <= i < |sections| && Allocated(sections[i]) :: sections[i].addr + sections[i].size < TWO64
  }

  /** Loading succeeds exactly when all sections are accepted and some allocated one contains the entry symbol:
      plainly where no sum wraps around, and by ContainsWrapped in general. */
  lemma LoadSectionsContains(s: State, sections: seq<Section>, entry: Symbol)
    requires Sized(sections)
    ensures LoadSections(s, sections, entry).Ok? <==> AllAccepted(s.mem, sections) && SomeContains(sections, entry)
    ensures PlainRanges(sections, entry) ==>
      (SomeContains(sections, entry) <==>
         exists i :: 0 <= i < |sections| && Allocated(sections[i]) && Contains(sections[i], entry))
  {
    hide Allocated, AllAccepted, SomeCovers, LoadEach;
    LoadEachIff(s, sections, entry);
    SomeCoversIsContains(sections, entry);
  }

  /** SHF_ALLOC is bit 1 of the flags. */
  lemma AllocatedIff(x: Section)
    ensures Allocated(x) <==> x.flags / 2 % 2 == 1
  {
    hide Bitwise;
    AndBit(x.flags, 1);
    assert Pow2(1) == 2;
  }

  /** Success means that all sections fit, exactly for the lists that are refused or do not wrap around. */
  lemma SuccessMeansFit(s: State, sections: seq<Section>, entry: Symbol)
    requires FlatWram(s.mem) && Sized(sections)
    ensures (LoadEach(s, sections, entry).Ok? <==> AllFit(sections, |s.mem.wram|))
      <==> (AllAccepted(s.mem, sections) ==> NoWrap(sections))
  {
    hide FlatWram, AllFit, AllAccepted, NoWrap, LoadEach;
    LoadEachIff(s, sections, entry);
    FitIff(s.mem, sections);
  }

  // ---------------------------------------------------------------- what is in WRAM afterwards

  /** One more section leaves its bytes in WRAM, or none if it wraps around. */
  lemma SectionOverlaid(s: State, q: seq<Section>, x: Section, entry: Symbol, l: Loaded)
    requires FlatWram(s.mem) && LoadedFrom(s, q, entry, l) && |x.content| < TWO64
    requires Overlaid(s.mem.wram, l.state.mem.wram, q, |s.mem.wram|) && LoadOne(l, x, entry).Ok?
    ensures
      var wram := LoadOne(l, x, entry).value.state.mem.wram;
      |wram| == |s.mem.wram| && Overlaid(s.mem.wram, wram, q + [x], |s.mem.wram|)
  {
    hide Allocated, Covers, SomeCovers, WriteMem, Holds, AllBounds, Splice, Overlaid, FlatWram, Bitwise;
    var m := l.state.mem;
    FlatSizes(s.mem, m);
    if !Allocated(x) {
      OverlaySkips(s.mem.wram, m.wram, q, x);
    } else if x.addr + |x.content| < TWO64 {
      AcceptedFits(m, x);
      FlatWrite(m, x.addr, x.content);
      OverlayOne(s.mem.wram, m.wram, q, x);
    } else {
      WrappedElsewhere(m, x);
      LoadStore.OtherBank(m, Add64(WRAM_BEGIN, x.addr), x.content);
      OverlaySkips(s.mem.wram, m.wram, q, x);
    }
  }

  lemma FlatSizes(m: Mem, n: Mem)
    requires FlatWram(m) && SameSizes(m, n)
    ensures FlatWram(n) && |n.wram| == |m.wram| <= 0x8000_0000
  {
    assert |m.Of(Wram)| == |n.Of(Wram)| && |m.Of(Spm2)| == |n.Of(Spm2)| && |m.Of(Spmt)| == |n.Of(Spmt)|;
    assert |m.Of(Spm)| == |n.Of(Spm)| && |m.Of(Io)| == |n.Of(Io)| && |m.Of(Rom)| == |n.Of(Rom)|;
  }

  lemma {:induction false} LoadEachOverlaid(s: State, sections: seq<Section>, entry: Symbol)
    requires FlatWram(s.mem) && Sized(sections) && LoadEach(s, sections, entry).Ok?
    ensures
      var wram := LoadEach(s, sections, entry).value.state.mem.wram;
      |wram| == |s.mem.wram| && Overlaid(s.mem.wram, wram, sections, |s.mem.wram|)
  {
    hide LoadOne, LoadedFrom, Allocated, Overlaid, FlatWram;
    if |sections| == 0 {
      NothingOverlaid(s.mem.wram);
    } else {
      var q, x := sections[..|sections| - 1], sections[|sections| - 1];
      assert q + [x] == sections;
      LoadEachOverlaid(s, q, entry);
      LoadEachIff(s, q, entry);
      SectionOverlaid(s, q, x, entry, LoadEach(s, q, entry).value);
    }
  }

  lemma NothingOverlaid(wram: Bytes)
    ensures Overlaid(wram, wram, [], |wram|)
  {
  }

  lemma FlatStays(s: State, t: State)
    requires FlatWram(s.mem) && OnlyWram(s, t)
    ensures FlatWram(t.mem)
  {
  }

  /** For any sections, wrapping around or not: loading succeeds exactly when all are accepted and one covers
      the entry symbol; then pc is at the entry, every byte of WRAM is that of the last section covering it or
      what it was, and all sections are in place exactly when none wraps around and they agree wherever they
      overlap. */
  lemma LoadSectionsSpec(s: State, sections: seq<Section>, entry: Symbol)
    requires FlatWram(s.mem) && Sized(sections)
    ensures var r := LoadSections(s, sections, entry);
      && (r.Ok? <==> AllAccepted(s.mem, sections) && SomeCovers(sections, entry))
      && (r.Ok? ==>
            var (t, bounds) := r.value;
            && bounds == AllBounds(sections)
            && SameSizes(s.mem, t.mem) && t == s.(pc := entry.value / 4 % TWO32, mem := t.mem)
            && |t.mem.wram| == |s.mem.wram| && Overlaid(s.mem.wram, t.mem.wram, sections, |s.mem.wram|)
            && (SectionsIntact(t.mem.wram, sections) <==> NoWrap(sections) && AgreeOnOverlap(sections)))
  {
    hide AllAccepted, SomeCovers, SectionsIntact, Overlaid, NoWrap, AgreeOnOverlap, LoadEach, FlatWram;
    LoadEachIff(s, sections, entry);
    if LoadEach(s, sections, entry).Ok? {
      LoadEachOverlaid(s, sections, entry);
      LoadedIntact(s.mem, LoadEach(s, sections, entry).value.state.mem.wram, sections);
    }
  }

  lemma LoadedIntact(m: Mem, wram: Bytes, sections: seq<Section>)
    requires FlatWram(m) && Sized(sections) && AllAccepted(m, sections)
    requires |wram| == |m.wram| && Overlaid(m.wram, wram, sections, |m.wram|)
    ensures SectionsIntact(wram, sections) <==> NoWrap(sections) && AgreeOnOverlap(sections)
  {
    hide AllAccepted, SectionsIntact, Overlaid, NoWrap, AgreeOnOverlap, FlatWram, AllFit;
    FlatSize(m);
    FitIff(m, sections);
    if SectionsIntact(wram, sections) {
      IntactNoWrap(wram, sections);
    }
    if NoWrap(sections) {
      IntactIff(m.wram, wram, sections, |m.wram|);
    }
  }

  // ---------------------------------------------------------------- the ordinary case and the failing ones

  /** Without wrapping, only WRAM changes. */
  lemma {:induction false} LoadEachOnlyWram(s: State, sections: seq<Section>, entry: Symbol)
    requires FlatWram(s.mem) && Sized(sections) && NoWrap(sections) && LoadEach(s, sections, entry).Ok?
    ensures OnlyWram(s, LoadEach(s, sections, entry).value.state)
  {
    hide LoadOne, LoadedFrom, Allocated, FlatWram;
    if |sections| > 0 {
      var q, x := sections[..|sections| - 1], sections[|sections| - 1];
      assert forall i | 0 <= i < |q| :: q[i] == sections[i];
      LoadEachOnlyWram(s, q, entry);
      FlatStays(s, LoadEach(s, q, entry).value.state);
      LoadOneOnlyWram(LoadEach(s, q, entry).value, x, entry);
    }
  }

  lemma LoadOneOnlyWram(l: Loaded, x: Section, entry: Symbol)
    requires FlatWram(l.state.mem) && |x.content| < TWO64 && LoadOne(l, x, entry).Ok?
    requires Allocated(x) ==> x.addr + |x.content| < TWO64
    ensures OnlyWram(l.state, LoadOne(l, x, entry).value.state)
  {
    hide WriteMem, Bitwise, Covers, Allocated, Splice, FlatWram, Holds;
    if Allocated(x) {
      AcceptedFits(l.state.mem, x);
      FlatWrite(l.state.mem, x.addr, x.content);
    }
  }

  /** Sections that fit and do not overlap are all in place after loading, and nothing else has moved. */
  lemma DisjointSectionsLoad(s: State, sections: seq<Section>, entry: Symbol)
    requires FlatWram(s.mem) && Sized(sections) && Disjoint(sections)
    requires AllFit(sections, |s.mem.wram|) && SomeCovers(sections, entry)
    ensures var r := LoadSections(s, sections, entry);
      && r.Ok? && SectionsIntact(r.value.0.mem.wram, sections)
      && OnlyWram(s.(pc := entry.value / 4 % TWO32), r.value.0)
      && forall k: nat | k < |s.mem.wram| && Uncovered(sections, k) :: r.value.0.mem.wram[k] == s.mem.wram[k]
  {
    hide AllFit, SomeCovers, SectionsIntact, NoWrap, AgreeOnOverlap, LoadEach, Uncovered, LastByte, AllAccepted;
    hide FlatWram, Disjoint;
    FitIff(s.mem, sections);
    LoadSectionsSpec(s, sections, entry);
    LoadEachOnlyWram(s, sections, entry);
    DisjointAgree(sections);
    OverlaidOthers(s.mem.wram, LoadSections(s, sections, entry).value.0.mem.wram, sections);
  }

  /** Two sections that claim the same byte: loading succeeds and one of them is gone. */
  lemma OverlapDamages(s: State)
    requires FlatWram(s.mem)
    ensures
      var sections := [Section(SHF_ALLOC, 0, 1, [1]), Section(SHF_ALLOC, 0, 1, [2])];
      var r := LoadSections(s, sections, Symbol("main", 0, 1, STT_FUNC));
      r.Ok? && !SectionsIntact(r.value.0.mem.wram, sections)
  {
    hide FlatWram, AllAccepted, SomeCovers, LoadSections, Overlaid, SectionsIntact, AgreeOnOverlap, Allocated;
    var x, y, entry := Section(SHF_ALLOC, 0, 1, [1]), Section(SHF_ALLOC, 0, 1, [2]), Symbol("main", 0, 1, STT_FUNC);
    var sections := [x, y];
    SmallSection(s.mem, x);
    SmallSection(s.mem, y);
    TwoSections(s.mem, x, y, entry);
    LoadSectionsSpec(s, sections, entry);
  }

  lemma SmallSection(m: Mem, x: Section)
    requires FlatWram(m) && x.flags == SHF_ALLOC && x.addr == 0 && |x.content| == 1
    ensures Allocated(x) && Accepted(m, x)
  {
    hide Accepted, Bitwise;
    AllocatedFlag();
    AcceptedFits(m, x);
  }

  lemma TwoSections(m: Mem, x: Section, y: Section, entry: Symbol)
    requires |x.content| == |y.content| == 1 && x.content[0] != y.content[0] && x.addr == y.addr == 0
    requires Allocated(x) && Allocated(y) && Accepted(m, x) && Accepted(m, y) && Covers(x, entry)
    ensures Sized([x, y]) && AllAccepted(m, [x, y]) && SomeCovers([x, y], entry) && !AgreeOnOverlap([x, y])
  {
    hide Allocated, Accepted, Covers, Agree;
    var all := [x, y];
    assert all[0] == x && all[1] == y;
    DisagreeAtZero(all[0], all[1]);
  }

  lemma DisagreeAtZero(x: Section, y: Section)
    requires x.addr == y.addr == 0 && |x.content| > 0 && |y.content| > 0 && x.content[0] != y.content[0]
    ensures !Agree(x, y)
  {
    assert InRange(0, y);
  }

  /** A section at the last address passes the size check, is copied to another bank and not to WRAM. */
  lemma WrappedSectionMisplaced(s: State, b: u8)
    requires FlatWram(s.mem)
    ensures
      var sections := [Section(SHF_ALLOC, TWO64 - 1, 1, [b])];
      var r := LoadSections(s, sections, Symbol("main", TWO64 - 1, 1, STT_FUNC));
      r.Ok? && r.value.0.mem.wram == s.mem.wram && !SectionsIntact(r.value.0.mem.wram, sections)
  {
    hide AllAccepted, SomeCovers, LoadSections, SectionsIntact, AgreeOnOverlap, Allocated, FlatWram, Overlaid;
    var x, entry := Section(SHF_ALLOC, TWO64 - 1, 1, [b]), Symbol("main", TWO64 - 1, 1, STT_FUNC);
    LastAddress(s.mem, x);
    OneSection(s.mem, x, entry);
    LoadSectionsSpec(s, [x], entry);
    var wram := LoadSections(s, [x], entry).value.0.mem.wram;
    FlatSize(s.mem);
    NothingCovered(s.mem.wram, wram, x);
  }

  lemma LastAddress(m: Mem, x: Section)
    requires FlatWram(m) && x.flags == SHF_ALLOC && x.addr == TWO64 - 1 && |x.content| == 1
    ensures Allocated(x) && Accepted(m, x)
  {
    hide SelectBank, Offset, Bitwise;
    AllocatedFlag();
    MapsInside(m, 0x7FFF_FFFF);
  }

  lemma OneSection(m: Mem, x: Section, entry: Symbol)
    requires Allocated(x) && |x.content| < TWO64 && Accepted(m, x) && Covers(x, entry)
    ensures Sized([x]) && AllAccepted(m, [x]) && SomeCovers([x], entry)
    ensures NoWrap([x]) ==> x.addr + |x.content| < TWO64
    ensures AllBounds([x]) == [Bounds(x.addr, Add64(x.addr, |x.content|))]
  {
    hide Allocated, Accepted, Covers;
    assert [x][0] == x && [x][..0] == [];
  }

  lemma NothingCovered(before: Bytes, after: Bytes, x: Section)
    requires Overlaid(before, after, [x], |before|) && |before| <= x.addr
    ensures after == before
  {
    hide Allocated, LastByte;
    forall k: nat | k < |before| ensures after[k] == before[k] {
      NoWriter(before[k], [x], k);
    }
  }

  /** Every loaded byte lies below the end the stack is placed after. */
  lemma {:induction false} SectionsEndBelow(sections: seq<Section>, i: nat)
    requires i < |sections| && Allocated(sections[i])
    requires sections[i].addr + |sections[i].content| < TWO64
    ensures sections[i].addr + |sections[i].content| <= TotalEnd(AllBounds(sections))
  {
    hide Allocated;
    var q, x := sections[..|sections| - 1], sections[|sections| - 1];
    var b := AllBounds(sections);
    assert forall j | 0 <= j < |q| :: q[j] == sections[j];
    if Allocated(x) {
      assert b[..|b| - 1] == AllBounds(q);
    } else {
      assert b == AllBounds(q);
    }
    if i < |q| {
      SectionsEndBelow(q, i);
    }
  }
}
