/** What a store leaves behind for later loads and fetches. */
module LoadStore {
  import opened Bits
  import opened Results
  import opened Memory
  import opened Machine
  import opened Instructions
  import opened Footprint
  import opened Opcode

  // ---------------------------------------------------------------- copies

  ghost predicate Overlap(m: Mem, a: u64, n: nat, b: u64, k: nat) {
    SelectBank(a) == SelectBank(b)
    && Offset(m, a) < Offset(m, b) + k && Offset(m, b) < Offset(m, a) + n
  }

  lemma ReadOwnWrite(m: Mem, a: u64, bytes: seq<u8>)
    requires Holds(m, a, |bytes|)
    ensures ReadMem(WriteMem(m, a, bytes).value, a, |bytes|) == Ok(bytes)
  {
    hide SelectBank, OffsetMask, Bitwise;
    OffsetFootprint(m, WriteMem(m, a, bytes).value, a);
  }

  lemma ReadOtherWrite(m: Mem, a: u64, bytes: seq<u8>, b: u64, n: nat)
    requires Holds(m, a, |bytes|) && !Overlap(m, a, |bytes|, b, n)
    ensures ReadMem(WriteMem(m, a, bytes).value, b, n) == ReadMem(m, b, n)
  {
    hide SelectBank, OffsetMask, Bitwise;
    var t := WriteMem(m, a, bytes).value;
    OffsetFootprint(m, t, a);
    OffsetFootprint(m, t, b);
    var k, off := SelectBank(b), Offset(m, b);
    if k == SelectBank(a) && off + n <= |m.Of(k)| {
      assert t.Of(k)[off..off + n] == m.Of(k)[off..off + n];
    }
  }

  // ---------------------------------------------------------------- WRAM as the guest addresses it

  /** WRAM of a power-of-two size up to 2 GiB appears in order from WRAM_BEGIN on. */
  lemma WramOffset(m: Mem, d: nat)
    requires PowerSizes(m) && |m.wram| <= 0x8000_0000 && d < |m.wram|
    ensures SelectBank(WRAM_BEGIN + d) == Wram && Offset(m, WRAM_BEGIN + d) == d
  {
    hide SelectBank, OffsetMask, Bitwise;
    BankByRange(WRAM_BEGIN + d);
    MaskIsSizeMinusOne(m, Wram);
    Pow2Values();
    AndAboveMask(d, |m.wram| - 1, 31);
    var k: nat :| |m.wram| == Pow2(k);
    AndLowMask(d, k);
    RemainderOfSmaller(d, |m.wram|);
  }

  /** Within WRAM, as long as bit 31 of the address is set, addresses count on from WRAM_BEGIN. */
  lemma WramFrom(m: Mem, d: nat)
    requires PowerSizes(m) && d % TWO32 < 0x8000_0000 && FetchBase(m) + d < |m.wram| && WRAM_BEGIN + d < TWO64
    ensures SelectBank(WRAM_BEGIN + d) == Wram && Offset(m, WRAM_BEGIN + d) == FetchBase(m) + d
  {
    hide SelectBank, Offset, Bitwise, IsPow2;
    var n := |m.wram|;
    BankByRange(WRAM_BEGIN + d);
    BankByRange(WRAM_BEGIN);
    OffsetIsModulo(m, WRAM_BEGIN + d);
    OffsetIsModulo(m, WRAM_BEGIN);
    var q := WRAM_BEGIN / n;
    DivModUnique(WRAM_BEGIN + d, n, q, WRAM_BEGIN % n + d);
  }

  /** The instruction word at this pc is the 32-bit load at WRAM_BEGIN + 4 * pc. */
  ghost predicate FetchIsLoad(m: Mem, pc: nat)
    requires WRAM_BEGIN + 4 * pc < TWO64
  {
    var r := ReadMem(m, WRAM_BEGIN + 4 * pc, 4);
    r.Ok? && FetchWord(m, pc) == Ok(FromBytes(r.value))
  }

  lemma FetchFindsLoad(m: Mem, pc: nat)
    requires PowerSizes(m) && 4 * pc % TWO32 < 0x8000_0000 && FetchBase(m) + 4 * pc + 4 <= |m.wram|
    requires WRAM_BEGIN + 4 * pc < TWO64
    ensures FetchIsLoad(m, pc)
  {
    hide SelectBank, Offset, FromBytes, FetchBase;
    WramFrom(m, 4 * pc);
  }

  lemma WordOf(b: u8)
    ensures FromBytes([b, 0, 0, 0]) == b
  {
    assert [b, 0, 0, 0][1..] == [0, 0, 0] && [0, 0, 0][1..] == [0, 0] && [0, 0][1..] == [0] && [0][1..] == [];
  }

  lemma ZeroedAt(m: Mem, pc: nat) returns (n: Mem)
    requires PowerSizes(m) && FetchBase(m) + 4 * pc + 4 <= |m.wram|
    ensures SameSizes(m, n) && PowerSizes(n) && FetchBase(n) == FetchBase(m) && |n.wram| == |m.wram|
    ensures n.wram[FetchBase(m) + 4 * pc..FetchBase(m) + 4 * pc + 4] == [0, 0, 0, 0]
    ensures FetchWord(n, pc) == Ok(0)
  {
    hide FetchBase, FetchWord, PowerSizes;
    n := m.With(Wram, Splice(m.wram, FetchBase(m) + 4 * pc, [0, 0, 0, 0]));
    SizesDecide(m, n);
    WordAt(n, pc, 0);
  }

  lemma OneElsewhere(m: Mem, pc: nat) returns (n: Mem)
    requires PowerSizes(m) && FetchBase(m) + 4 * pc + 4 <= |m.wram| && WRAM_BEGIN + 4 * pc < TWO64
    requires m.wram[FetchBase(m) + 4 * pc..FetchBase(m) + 4 * pc + 4] == [0, 0, 0, 0]
    requires SelectBank(WRAM_BEGIN + 4 * pc) != Wram && Holds(m, WRAM_BEGIN + 4 * pc, 4)
    ensures SameSizes(m, n)
    ensures FetchWord(n, pc) == Ok(0) && ReadMem(n, WRAM_BEGIN + 4 * pc, 4) == Ok([1, 0, 0, 0])
  {
    hide SelectBank, Offset, FetchBase, FetchWord, ReadMem, PowerSizes, WriteMem;
    var a := WRAM_BEGIN + 4 * pc;
    n := WriteMem(m, a, [1, 0, 0, 0]).value;
    SizesDecide(m, n);
    OtherBank(m, a, [1, 0, 0, 0]);
    WordAt(n, pc, 0);
    ReadOwnWrite(m, a, [1, 0, 0, 0]);
  }

  lemma TellsApart(n: Mem, pc: nat)
    requires WRAM_BEGIN + 4 * pc < TWO64 && FetchWord(n, pc) == Ok(0)
    requires var r := ReadMem(n, WRAM_BEGIN + 4 * pc, 4); r.Ok? ==> r == Ok([1, 0, 0, 0])
    ensures !FetchIsLoad(n, pc)
  {
    hide FetchWord, ReadMem;
    WordOf(1);
  }

  /** Where the load selects another bank, contents can be chosen that tell the two apart. */
  lemma FetchMissesLoad(m: Mem, pc: nat) returns (n: Mem)
    requires PowerSizes(m) && 4 * pc % TWO32 >= 0x8000_0000 && FetchBase(m) + 4 * pc + 4 <= |m.wram|
    requires WRAM_BEGIN + 4 * pc < TWO64
    ensures SameSizes(m, n) && !FetchIsLoad(n, pc)
  {
    hide SelectBank, Offset, FetchBase, FetchWord, ReadMem, Splice, PowerSizes, Holds, FetchIsLoad, SameSizes;
    var a := WRAM_BEGIN + 4 * pc;
    BankByRange(a);
    n := ZeroedAt(m, pc);
    if Holds(n, a, 4) {
      var zeroed := n;
      n := OneElsewhere(zeroed, pc);
      SizesChain(m, zeroed, n);
    }
    TellsApart(n, pc);
  }

  lemma SizesChain(m: Mem, n: Mem, o: Mem)
    requires SameSizes(m, n) && SameSizes(n, o)
    ensures SameSizes(m, o)
  {
    assert forall b: Bank :: |m.Of(b)| == |n.Of(b)|;
  }

  lemma WordAt(m: Mem, pc: nat, b: u8)
    requires FetchBase(m) + 4 * pc + 4 <= |m.wram|
    requires m.wram[FetchBase(m) + 4 * pc..FetchBase(m) + 4 * pc + 4] == [b, 0, 0, 0]
    ensures FetchWord(m, pc) == Ok(b)
  {
    hide FetchBase, FromBytes, Pow2;
    WordOf(b);
  }

  lemma OtherBank(m: Mem, a: u64, bytes: seq<u8>)
    requires Holds(m, a, |bytes|) && SelectBank(a) != Wram
    ensures WriteMem(m, a, bytes).value.wram == m.wram
  {
    hide SelectBank, Offset, Splice;
    assert WriteMem(m, a, bytes).value.Of(Wram) == m.Of(Wram);
  }

  /** For any WRAM size and any in-range pc, fetch and data load agree on all contents exactly when bit 31 of
      the load's address is set. */
  lemma FetchAgreesWithLoad(m: Mem, pc: nat)
    requires PowerSizes(m) && FetchBase(m) + 4 * pc + 4 <= |m.wram| && WRAM_BEGIN + 4 * pc < TWO64
    ensures 4 * pc % TWO32 < 0x8000_0000 <==> forall n: Mem | SameSizes(m, n) :: FetchIsLoad(n, pc)
  {
    hide FetchIsLoad, FetchBase, PowerSizes;
    if 4 * pc % TWO32 < 0x8000_0000 {
      forall n: Mem | SameSizes(m, n) ensures FetchIsLoad(n, pc) {
        SizesDecide(m, n);
        FetchFindsLoad(n, pc);
      }
    } else {
      var n := FetchMissesLoad(m, pc);
    }
  }

  lemma SizesDecide(m: Mem, n: Mem)
    requires SameSizes(m, n) && PowerSizes(m)
    ensures PowerSizes(n) && FetchBase(n) == FetchBase(m) && |n.wram| == |m.wram|
  {
    hide SelectBank, OffsetMask, Bitwise, IsPow2;
    OffsetFootprint(m, n, WRAM_BEGIN);
    assert |m.Of(Wram)| == |n.Of(Wram)| && |m.Of(Spm2)| == |n.Of(Spm2)| && |m.Of(Spmt)| == |n.Of(Spmt)|;
    assert |m.Of(Spm)| == |n.Of(Spm)| && |m.Of(Io)| == |n.Of(Io)| && |m.Of(Rom)| == |n.Of(Rom)|;
  }

  // ---------------------------------------------------------------- stores and loads of the core

  lemma CommitBytes(s: State, b: Bank, off: nat, bytes: seq<u8>)
    requires off + |bytes| <= |s.mem.Of(b)|
    ensures Commit(s, ByteWrites(b, off, bytes)) == s.(mem := s.mem.With(b, Splice(s.mem.Of(b), off, bytes)))
  {
    hide Commit;
    var w := ByteWrites(b, off, bytes);
    var t := s.(mem := s.mem.With(b, Splice(s.mem.Of(b), off, bytes)));
    CommitKeepsSizes(s, w);
    forall l: Loc | Exists(s, l) ensures Get(Commit(s, w), l) == Get(t, l) {
      GetCommit(s, w, l);
      if l in w {
        assert w[l] == bytes[l.off - off] < 0x100;
      }
    }
    SameState(Commit(s, w), t);
  }

  datatype UnitCall = UnitCall(word: u32, slot: nat, imm24: nat)

  function RunCalls(s: State, p: seq<UnitCall>): Result<State> {
    if |p| == 0 then Ok(s)
    else
      var t :- RunCalls(s, p[..|p| - 1]);
      ExecuteUnit(t, p[|p| - 1].word, p[|p| - 1].slot, p[|p| - 1].imm24)
  }

  /** No unit of the run writes one of these locations. */
  ghost predicate Untouched(s: State, p: seq<UnitCall>, locs: set<Loc>) {
    |p| > 0 ==>
      var q, c := p[..|p| - 1], p[|p| - 1];
      Untouched(s, q, locs)
      && (RunCalls(s, q).Ok? ==>
            WritesOf(UnitEffect(ClearZero(RunCalls(s, q).value), c.word, c.slot, c.imm24)) !! locs)
  }

  lemma UnitKeeps(s: State, c: UnitCall, locs: set<Loc>)
    requires ExecuteUnit(s, c.word, c.slot, c.imm24).Ok?
    requires WritesOf(UnitEffect(ClearZero(s), c.word, c.slot, c.imm24)) !! locs && locs !! ZEROS
    ensures Agree(s, ExecuteUnit(s, c.word, c.slot, c.imm24).value, locs)
  {
    hide UnitEffect, Commit;
    var w := UnitEffect(ClearZero(s), c.word, c.slot, c.imm24).value;
    CommitKeepsSizes(ClearZero(s), w);
    forall l: Loc | l in locs && Exists(s, l)
      ensures Get(s, l) == Get(ExecuteUnit(s, c.word, c.slot, c.imm24).value, l)
    {
      GetClearZero(s, l);
      GetCommit(ClearZero(s), w, l);
    }
  }

  lemma {:induction false} RunKeeps(s: State, p: seq<UnitCall>, locs: set<Loc>)
    requires RunCalls(s, p).Ok? && Untouched(s, p, locs) && locs !! ZEROS
    ensures Agree(s, RunCalls(s, p).value, locs)
  {
    hide ExecuteUnit, UnitEffect, Get, Exists;
    if |p| > 0 {
      var q := p[..|p| - 1];
      RunKeeps(s, q, locs);
      UnitKeeps(RunCalls(s, q).value, p[|p| - 1], locs);
      AgreeTransitive(s, RunCalls(s, q).value, RunCalls(s, p).value, locs);
    }
  }

  lemma AgreeTransitive(a: State, b: State, c: State, locs: set<Loc>)
    requires Agree(a, b, locs) && Agree(b, c, locs)
    ensures Agree(a, c, locs)
  {
    forall l: Loc | l in locs && Exists(a, l) ensures Get(a, l) == Get(c, l) {
      assert Exists(b, l);
    }
  }

  /** The register a load or store names. */
  function DataLoc(w: u32): (l: Loc)
    ensures l.Gpi? || l.Gpf?
  {
    RegLoc(IsFloatAccess(Operation(w)), RegA(w))
  }

  /** The bytes a load finds. */
  function LoadedBytes(s: State, w: u32, imm24: nat): Result<seq<u8>> {
    ReadMem(s.mem, LsuAddress(s.gpi, w, imm24), ByteCount(w))
  }

  lemma StoreLeaves(s: State, w: u32, slot: nat, imm24: nat)
    requires IsStore(Operation(w)) && ExecuteUnit(s, w, slot, imm24).Ok?
    ensures var c := ClearZero(s);
      ReadMem(ExecuteUnit(s, w, slot, imm24).value.mem, LsuAddress(c.gpi, w, imm24), ByteCount(w))
        == Ok(ToBytes(Get(c, DataLoc(w)), ByteCount(w)))
  {
    hide LsuAddress, Operation, RegA, ByteCount, SelectBank, Offset, ToBytes, Commit, Unit, IsFloatAccess, ReadMem;
    UnitOfOperation(w);
    var c := ClearZero(s);
    var a, bytes := LsuAddress(c.gpi, w, imm24), ToBytes(Get(c, DataLoc(w)), ByteCount(w));
    CommitBytes(c, SelectBank(a), Offset(c.mem, a), bytes);
    ReadOwnWrite(c.mem, a, bytes);
  }

  lemma LoadBrings(s: State, w: u32, slot: nat, imm24: nat)
    requires IsLoad(Operation(w)) && LoadedBytes(ClearZero(s), w, imm24).Ok?
    ensures var c, r := ClearZero(s), ExecuteUnit(s, w, slot, imm24);
      r.Ok? && Get(r.value, DataLoc(w)) == Merge(Get(c, DataLoc(w)), LoadedBytes(c, w, imm24).value) % TWO64
  {
    hide LsuAddress, Operation, RegA, ByteCount, SelectBank, Offset, Commit, Unit, IsFloatAccess, Merge;
    UnitOfOperation(w);
    var c := ClearZero(s);
    var v := Merge(Get(c, DataLoc(w)), LoadedBytes(c, w, imm24).value);
    GetCommit(c, map[DataLoc(w) := v], DataLoc(w));
  }

  lemma LowPartFits(old_: u64, x: nat, n: nat)
    requires n in {1, 2, 4, 8} && x < Pow2(8 * n)
    ensures RoundDown(old_, Pow2(8 * n)) + x < TWO64
  {
    hide Pow2;
    Pow2Values();
  }

  /** A load replaces exactly the low bytes. */
  lemma MergeParts(old_: u64, v: u64, n: nat)
    requires n in {1, 2, 4, 8}
    ensures var r := Merge(old_, ToBytes(v, n)) % TWO64;
      r % Pow2(8 * n) == v % Pow2(8 * n) && r / Pow2(8 * n) == old_ / Pow2(8 * n)
  {
    hide Pow2, ToBytes, FromBytes, RoundDown;
    var p := Pow2(8 * n);
    FromToBytes(v, n);
    LowPartFits(old_, v % p, n);
    DivModUnique(RoundDown(old_, p) + v % p, p, old_ / p, v % p);
  }

  /** Aliases of a mapped byte read the same bytes. */
  lemma ReadAlias(m: Mem, n: Mem, a: u64, b: u64, count: nat)
    requires SameSizes(m, n) && SameByte(m, b, a)
    ensures ReadMem(n, b, count) == ReadMem(n, a, count)
  {
    hide SelectBank, OffsetMask, Bitwise;
    OffsetFootprint(m, n, a);
    OffsetFootprint(m, n, b);
  }

  /** Store, any units that leave those bytes alone, load of the same size through any address of that place:
      the low bytes stored come back and the destination keeps its upper bytes. */
  lemma LoadUndoesStore(s: State, st: UnitCall, p: seq<UnitCall>, ld: UnitCall)
    requires IsStore(Operation(st.word)) && IsLoad(Operation(ld.word)) && ByteCount(st.word) == ByteCount(ld.word)
    requires ExecuteUnit(s, st.word, st.slot, st.imm24).Ok?
    requires var t := ExecuteUnit(s, st.word, st.slot, st.imm24).value;
      var a := LsuAddress(ClearZero(s).gpi, st.word, st.imm24);
      && RunCalls(t, p).Ok?
      && Untouched(t, p, ByteRange(SelectBank(a), Offset(s.mem, a), ByteCount(st.word)))
      && SameByte(s.mem, LsuAddress(ClearZero(RunCalls(t, p).value).gpi, ld.word, ld.imm24), a)
    ensures
      var t := ExecuteUnit(s, st.word, st.slot, st.imm24).value;
      var u := RunCalls(t, p).value;
      var r := ExecuteUnit(u, ld.word, ld.slot, ld.imm24);
      var v := Get(ClearZero(s), DataLoc(st.word));
      var high := Pow2(8 * ByteCount(st.word));
      && r.Ok?
      && Get(r.value, DataLoc(ld.word)) % high == v % high
      && Get(r.value, DataLoc(ld.word)) / high == Get(ClearZero(u), DataLoc(ld.word)) / high
  {
    hide ExecuteUnit, LsuAddress, Operation, RegA, ByteCount, SelectBank, OffsetMask, Bitwise, RunCalls, Untouched;
    hide ReadMem, Merge, ToBytes, Pow2, Get, ByteRange, IsFloatAccess;
    var t := ExecuteUnit(s, st.word, st.slot, st.imm24).value;
    var a, n := LsuAddress(ClearZero(s).gpi, st.word, st.imm24), ByteCount(st.word);
    StoreLeaves(s, st.word, st.slot, st.imm24);
    UnitKeepsSizes(s, st);
    OffsetFootprint(s.mem, t.mem, a);
    var u := RunCalls(t, p).value;
    RunKeeps(t, p, ByteRange(SelectBank(a), Offset(s.mem, a), n));
    BytesFootprint(t, u, a, n);
    ReadAlias(s.mem, u.mem, a, LsuAddress(ClearZero(u).gpi, ld.word, ld.imm24), n);
    LoadBrings(u, ld.word, ld.slot, ld.imm24);
    GetFits(ClearZero(s), DataLoc(st.word));
    GetFits(ClearZero(u), DataLoc(ld.word));
    MergeParts(Get(ClearZero(u), DataLoc(ld.word)), Get(ClearZero(s), DataLoc(st.word)), n);
  }

  lemma UnitKeepsSizes(s: State, c: UnitCall)
    requires ExecuteUnit(s, c.word, c.slot, c.imm24).Ok?
    ensures SameSizes(s.mem, ExecuteUnit(s, c.word, c.slot, c.imm24).value.mem)
  {
    hide UnitEffect, Commit;
    CommitKeepsSizes(ClearZero(s), UnitEffect(ClearZero(s), c.word, c.slot, c.imm24).value);
  }
}
