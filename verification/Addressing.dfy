/** Where loads and stores go, in numbers, and what that means for arrays. */
module Addressing {
  import opened Bits
  import opened Results
  import opened Memory
  import opened Machine
  import opened Instructions
  import opened Footprint
  import opened LoadStore
  import opened Opcode
  import opened Semantics
  import Immediates
  import Conflicts

  /** Operations 32 to 43: four with an index register, four with an immediate, four relative to r0. */
  predicate IsAccess(w: u32) { 32 <= Operation(w) <= 43 }

  /** Base plus shifted index, base plus signed 34-bit immediate, or r0 plus 40-bit offset. */
  function Address(s: State, w: u32, imm24: nat): u64 {
    if Operation(w) < 36 then (Operand(s, RegB(w)) + Operand(s, RegC(w)) * Pow2(LsuShift(w))) % TWO64
    else if Operation(w) < 40 then (Operand(s, RegB(w)) + SignedField(LsuImm10(w), imm24, 0x200)) % TWO64
    else (Operand(s, 0) + LsuImm16(w) + 0x1_0000 * imm24) % TWO64
  }

  /** Bytes moved: 1, 2, 4 or 8. */
  function Count(w: u32): (n: nat)
    ensures n in {1, 2, 4, 8}
  {
    CountValues(w);
    Pow2(Size(w))
  }

  lemma CountValues(w: u32)
    ensures Pow2(Size(w)) == ByteCount(w)
  {
    hide Size;
    assert Pow2(0) == 1 && Pow2(1) == 2 && Pow2(2) == 4 && Pow2(3) == 8;
  }

  /** Every fourth pair of operations works on the floating-point registers. */
  predicate OnFloats(w: u32) { Operation(w) in {34, 35, 38, 39, 42, 43} }

  function Data(s: State, w: u32): u64 {
    if OnFloats(w) then FloatOperand(s, RegA(w)) else Operand(s, RegA(w))
  }

  lemma FieldsFit(w: u32)
    ensures LsuImm10(w) < 0x400 && LsuImm16(w) < 0x1_0000
  {
  }

  lemma AddressIs(s: State, w: u32, imm24: nat)
    requires IsAccess(w) && imm24 < 0x100_0000
    ensures LsuAddress(ClearZero(s).gpi, w, imm24) == Address(s, w, imm24)
  {
    hide Operation, RegB, RegC, LsuShift, LsuImm10, LsuImm16, ExtendedImm10, ExtendedImm16, Pow2, Shl64;
    FieldsFit(w);
    var base, index := Operand(s, RegB(w)), Operand(s, RegC(w));
    Indexed(base, index, LsuShift(w));
    Immediates.Imm10Value(LsuImm10(w), imm24);
    WithImmediate(base, SignedField(LsuImm10(w), imm24, 0x200));
    Immediates.Imm16Value(LsuImm16(w), imm24);
  }

  lemma Indexed(base: u64, index: u64, k: nat)
    ensures Add64(base, Shl64(index, k)) == (base + index * Pow2(k)) % TWO64
  {
    hide Pow2;
    var d := index * Pow2(k);
    MultipleApart(base + d % TWO64, base + d, -(d / TWO64), TWO64);
  }

  lemma WithImmediate(base: u64, v: int)
    requires 0 <= v + TWO64 && v < TWO64
    ensures Add64(base, if v >= 0 then v else TWO64 + v) == (base + v) % TWO64
  {
  }

  lemma AccessUnit(w: u32)
    requires IsAccess(w)
    ensures Unit(w) == 2 && (IsLoad(Operation(w)) <==> Operation(w) % 2 == 0)
    ensures IsStore(Operation(w)) <==> Operation(w) % 2 == 1
    ensures IsFloatAccess(Operation(w)) <==> OnFloats(w)
  {
    hide Operation, Unit;
    UnitOfOperation(w);
  }

  lemma StoreEffect(s: State, w: u32, slot: nat, imm24: nat, a: u64, bytes: seq<u8>)
    requires IsAccess(w) && Operation(w) % 2 == 1 && LsuAddress(ClearZero(s).gpi, w, imm24) == a
    requires bytes == ToBytes(Data(s, w), ByteCount(w))
    ensures UnitEffect(ClearZero(s), w, slot, imm24) ==
      if Holds(s.mem, a, |bytes|) then Ok(ByteWrites(SelectBank(a), Offset(s.mem, a), bytes)) else Err(OutsideBank)
  {
    hide LsuAddress, Operation, RegA, ByteCount, SelectBank, Offset, ToBytes, Unit, ByteWrites, IsLoad, IsStore;
    AccessUnit(w);
  }

  lemma WritesBytes(s: State, w: u32, slot: nat, imm24: nat, a: u64, bytes: seq<u8>)
    requires Holds(s.mem, a, |bytes|)
    requires UnitEffect(ClearZero(s), w, slot, imm24) == Ok(ByteWrites(SelectBank(a), Offset(s.mem, a), bytes))
    ensures ExecuteUnit(s, w, slot, imm24) == Ok(Passed(s).(mem := WriteMem(s.mem, a, bytes).value))
  {
    hide UnitEffect, Commit, SelectBank, Offset, ByteWrites, Splice;
    CommitBytes(ClearZero(s), SelectBank(a), Offset(s.mem, a), bytes);
  }

  /** A store puts the low bytes of its register at its address, and changes nothing else. */
  lemma StoreRuns(s: State, w: u32, slot: nat, imm24: nat)
    requires IsAccess(w) && Operation(w) % 2 == 1 && imm24 < 0x100_0000
    ensures
      var m := WriteMem(s.mem, Address(s, w, imm24), ToBytes(Data(s, w), Count(w)));
      ExecuteUnit(s, w, slot, imm24) == if m.Ok? then Ok(Passed(s).(mem := m.value)) else Err(OutsideBank)
  {
    hide LsuAddress, Address, Operation, ByteCount, Count, ToBytes, ExecuteUnit, Data, Holds, WriteMem;
    hide UnitEffect, ByteWrites, SelectBank, Offset, IsAccess;
    AddressIs(s, w, imm24);
    CountIs(w);
    var a, bytes := Address(s, w, imm24), ToBytes(Data(s, w), Count(w));
    StoreEffect(s, w, slot, imm24, a, bytes);
    if Holds(s.mem, a, |bytes|) {
      WritesBytes(s, w, slot, imm24, a, bytes);
    } else {
      AccessFails(s, w, slot, imm24);
    }
  }

  lemma CountIs(w: u32)
    ensures Count(w) == ByteCount(w)
  {
    CountValues(w);
  }

  lemma LoadEffect(s: State, w: u32, slot: nat, imm24: nat, r: Result<seq<u8>>)
    requires IsAccess(w) && Operation(w) % 2 == 0
    requires r == ReadMem(s.mem, LsuAddress(ClearZero(s).gpi, w, imm24), ByteCount(w))
    ensures UnitEffect(ClearZero(s), w, slot, imm24) ==
      if r.Err? then Err(OutsideBank) else Ok(map[RegLoc(OnFloats(w), RegA(w)) := Merge(Data(s, w), r.value)])
  {
    hide LsuAddress, Operation, RegA, ByteCount, ReadMem, Unit, Merge, IsLoad, IsStore;
    AccessUnit(w);
  }

  /** A load brings the bytes at its address into the low part of its register, which keeps the rest. */
  lemma LoadRuns(s: State, w: u32, slot: nat, imm24: nat) returns (v: u64)
    requires IsAccess(w) && Operation(w) % 2 == 0 && imm24 < 0x100_0000
    ensures
      var r, high := ReadMem(s.mem, Address(s, w, imm24), Count(w)), Pow2(8 * Count(w));
      if r.Err? then ExecuteUnit(s, w, slot, imm24) == Err(OutsideBank)
      else
        && v % high == FromBytes(r.value) && v / high == Data(s, w) / high
        && ExecuteUnit(s, w, slot, imm24) ==
             Ok(if OnFloats(w) then FloatWritten(s, RegA(w), v) else Written(s, RegA(w), v))
  {
    hide LsuAddress, Address, Operation, RegA, ByteCount, Count, ReadMem, Merge, ExecuteUnit, FromBytes, Data;
    hide Pow2, UnitEffect, IsAccess, OnFloats;
    AddressIs(s, w, imm24);
    CountIs(w);
    var r := ReadMem(s.mem, Address(s, w, imm24), Count(w));
    LoadEffect(s, w, slot, imm24, r);
    v := 0;
    if r.Ok? {
      MergedParts(Data(s, w), r.value);
      v := Merge(Data(s, w), r.value);
      if OnFloats(w) {
        WritesFloatRegister(s, w, slot, imm24, RegA(w), v);
      } else {
        WritesRegister(s, w, slot, imm24, RegA(w), v);
      }
    } else {
      AccessFails(s, w, slot, imm24);
    }
  }

  lemma AccessFails(s: State, w: u32, slot: nat, imm24: nat)
    requires UnitEffect(ClearZero(s), w, slot, imm24) == Err(OutsideBank)
    ensures ExecuteUnit(s, w, slot, imm24) == Err(OutsideBank)
  {
    hide UnitEffect;
  }

  /** A load replaces the low bytes and keeps the others, and the result is still a word. */
  lemma MergedParts(old_: u64, bytes: seq<u8>)
    requires |bytes| in {1, 2, 4, 8}
    ensures var high := Pow2(8 * |bytes|);
      && Merge(old_, bytes) < TWO64
      && Merge(old_, bytes) % high == FromBytes(bytes) && Merge(old_, bytes) / high == old_ / high
  {
    hide Pow2, FromBytes, RoundDown;
    FromBytesBound(bytes);
    var p, x := Pow2(8 * |bytes|), FromBytes(bytes);
    LowPartFits(old_, x, |bytes|);
    DivModUnique(RoundDown(old_, p) + x, p, old_ / p, x);
  }

  /** Operations 44 to 47 of the unit do nothing. */
  lemma OtherAccessRuns(s: State, w: u32, slot: nat, imm24: nat)
    requires 44 <= Operation(w) <= 47
    ensures ExecuteUnit(s, w, slot, imm24) == Ok(Passed(s))
  {
    hide Operation, Unit, LsuAddress, ByteCount, ExecuteUnit, RegA;
    UnitOfOperation(w);
    WritesNothing(s, w, slot, imm24);
  }

  // ---------------------------------------------------------------- arrays

  /** Byte d behind the base is where counting from the base puts it. */
  ghost predicate Follows(m: Mem, base: u64, d: nat)
    requires base + d < TWO64
  {
    SelectBank(base + d) == SelectBank(base) && Offset(m, base + d) == Offset(m, base) + d
  }

  /** count bytes from base on lie one after the other in one bank. */
  ghost predicate InOneBank(m: Mem, base: u64, count: nat) {
    base + count <= TWO64 && forall d: nat | d < count :: Follows(m, base, d)
  }

  /** In WRAM of a power-of-two size up to 2 GiB every range that fits is such. */
  lemma WramInOneBank(m: Mem, d: nat, count: nat)
    requires PowerSizes(m) && |m.wram| <= 0x8000_0000 && d + count <= |m.wram| && count > 0
    ensures WRAM_BEGIN + d < TWO64 && InOneBank(m, WRAM_BEGIN + d, count)
  {
    hide SelectBank, Offset, PowerSizes;
    WramOffset(m, d);
    var base: u64 := WRAM_BEGIN + d;
    forall e: nat | e < count ensures Follows(m, base, e) {
      WramOffset(m, d + e);
    }
  }

  /** An array of n elements of 2^k bytes. */
  ghost predicate ArrayAt(m: Mem, base: u64, k: nat, n: nat) { InOneBank(m, base, n * Pow2(k)) }

  /** The extension words hold 24 bits. */
  predicate ShortImms(p: seq<UnitCall>) { forall i | 0 <= i < |p| :: p[i].imm24 < 0x100_0000 }

  /** An access by index register to an array of n elements of 2^k bytes at base. */
  predicate AccessesElement(s: State, w: u32, base: u64, k: nat, i: nat) {
    && 32 <= Operation(w) <= 35 && Size(w) == k && LsuShift(w) == k
    && Operand(s, RegB(w)) == base && Operand(s, RegC(w)) == i
  }

  lemma ElementAddress(s: State, w: u32, imm24: nat, base: u64, k: nat, i: nat)
    requires AccessesElement(s, w, base, k, i)
    ensures Address(s, w, imm24) == (base + i * Pow2(k)) % TWO64 && Count(w) == Pow2(k)
  {
    hide Operation, Size, LsuShift, RegB, RegC;
  }

  lemma ElementInside(i: nat, n: nat, p: nat)
    requires i < n
    ensures i * p + p <= n * p
  {
    MulMonotone(p, i + 1, n);
  }

  lemma ElementsApart(i: nat, j: nat, p: nat)
    requires i != j && p > 0
    ensures i * p + p <= j * p || j * p + p <= i * p
  {
    if i < j {
      MulMonotone(p, i + 1, j);
    } else {
      MulMonotone(p, j + 1, i);
    }
  }

  lemma FollowsAt(m: Mem, base: u64, count: nat, d: nat)
    requires InOneBank(m, base, count) && d < count
    ensures base + d < TWO64 && SelectBank(base + d) == SelectBank(base) && Offset(m, base + d) == Offset(m, base) + d
  {
    hide SelectBank, Offset;
    assert Follows(m, base, d);
  }

  /** The bytes of element i. */
  function ElementBytes(m: Mem, base: u64, k: nat, i: nat): (r: set<Loc>)
    ensures Conflicts.Bytes(r)
  {
    hide SelectBank, Offset, Pow2;
    ByteRange(SelectBank(base), Offset(m, base) + i * Pow2(k), Pow2(k))
  }

  /** Where element i is: inside the bank, i elements behind the base. */
  lemma ElementPlace(m: Mem, base: u64, k: nat, n: nat, i: nat)
    requires ArrayAt(m, base, k, n) && i < n
    ensures var a := base + i * Pow2(k);
      a < TWO64 && SelectBank(a) == SelectBank(base) && Offset(m, a) == Offset(m, base) + i * Pow2(k)
  {
    hide Pow2, SelectBank, Offset, InOneBank;
    ElementInside(i, n, Pow2(k));
    FollowsAt(m, base, n * Pow2(k), i * Pow2(k));
  }

  /** Different elements share no byte. */
  lemma ElementsDisjoint(m: Mem, base: u64, k: nat, n: nat, i: nat, j: nat)
    requires ArrayAt(m, base, k, n) && i < n && j < n && i != j
    ensures base + i * Pow2(k) < TWO64 && base + j * Pow2(k) < TWO64
    ensures !Overlap(m, base + i * Pow2(k), Pow2(k), base + j * Pow2(k), Pow2(k))
  {
    hide Pow2, SelectBank, Offset, InOneBank;
    ElementPlace(m, base, k, n, i);
    ElementPlace(m, base, k, n, j);
    ElementsApart(i, j, Pow2(k));
  }

  /** A run in which every store goes to another element of the array than i. */
  ghost predicate SparesElement(s: State, p: seq<UnitCall>, base: u64, k: nat, n: nat, i: nat) {
    |p| > 0 ==>
      var q, c := p[..|p| - 1], p[|p| - 1];
      && SparesElement(s, q, base, k, n, i)
      && (RunCalls(s, q).Ok? && IsStore(Operation(c.word)) ==>
            exists j: nat :: j < n && j != i && AccessesElement(RunCalls(s, q).value, c.word, base, k, j))
  }

  /** One unit that is no store, or stores another element, leaves the bytes of element i alone. */
  lemma UnitSparesElement(m: Mem, s: State, c: UnitCall, base: u64, k: nat, n: nat, i: nat)
    requires SameSizes(m, s.mem) && ArrayAt(m, base, k, n) && i < n && c.imm24 < 0x100_0000
    requires IsStore(Operation(c.word)) ==> exists j: nat :: j < n && j != i && AccessesElement(s, c.word, base, k, j)
    ensures WritesOf(UnitEffect(ClearZero(s), c.word, c.slot, c.imm24))
      !! ElementBytes(m, base, k, i)
  {
    hide UnitEffect, Operation, Pow2, SelectBank, Offset, ArrayAt, AccessesElement, Conflicts.RegisterWrites;
    hide ElementBytes;
    hide IsStore, Address, LsuAddress;
    Conflicts.NamesCover(ClearZero(s), c.word, c.slot, c.imm24);
    Conflicts.RegistersWritten(c.word, c.slot);
    if IsStore(Operation(c.word)) {
      var j: nat :| j < n && j != i && AccessesElement(s, c.word, base, k, j);
      StoreTouches(m, s, c, base, k, n, i, j);
    }
  }

  lemma RangesApart(b: Bank, x: nat, y: nat, n: nat)
    requires x + n <= y || y + n <= x
    ensures ByteRange(b, x, n) !! ByteRange(b, y, n)
  {
  }

  /** The bytes an access to element j touches. */
  lemma ElementTouched(m: Mem, s: State, c: UnitCall, base: u64, k: nat, n: nat, j: nat)
    requires SameSizes(m, s.mem) && ArrayAt(m, base, k, n) && j < n
    requires AccessesElement(s, c.word, base, k, j) && c.imm24 < 0x100_0000
    ensures Conflicts.Touched(ClearZero(s), c.word, c.imm24) == ElementBytes(m, base, k, j)
  {
    hide Pow2, SelectBank, Offset, InOneBank, LsuAddress, Address, ByteCount, Count, ByteRange, IsAccess, SameSizes;
    hide AccessesElement;
    AccessRange(c.word) by { ElementIsAccess(s, c.word, base, k, j); }
    AddressIs(s, c.word, c.imm24);
    ElementAddress(s, c.word, c.imm24, base, k, j);
    ElementPlace(m, base, k, n, j);
    CountIs(c.word);
    OffsetFootprint(m, s.mem, base + j * Pow2(k));
  }

  lemma StoreTouches(m: Mem, s: State, c: UnitCall, base: u64, k: nat, n: nat, i: nat, j: nat)
    requires SameSizes(m, s.mem) && ArrayAt(m, base, k, n) && i < n && j < n && i != j
    requires AccessesElement(s, c.word, base, k, j) && c.imm24 < 0x100_0000
    ensures Conflicts.Touched(ClearZero(s), c.word, c.imm24) !! ElementBytes(m, base, k, i)
  {
    hide Pow2, SelectBank, Offset, InOneBank, ByteRange, AccessesElement, SameSizes, Conflicts.Touched;
    ElementTouched(m, s, c, base, k, n, j);
    ElementsApart(i, j, Pow2(k));
    RangesApart(SelectBank(base), Offset(m, base) + j * Pow2(k), Offset(m, base) + i * Pow2(k), Pow2(k));
  }

  lemma ElementIsAccess(s: State, w: u32, base: u64, k: nat, j: nat)
    requires AccessesElement(s, w, base, k, j)
    ensures 32 <= Operation(w) <= 35
  {
  }

  lemma AccessRange(w: u32)
    requires 32 <= Operation(w) <= 35
    ensures IsAccess(w)
  {
  }

  lemma {:induction false} RunSparesElement(s: State, p: seq<UnitCall>, base: u64, k: nat, n: nat, i: nat)
    requires SparesElement(s, p, base, k, n, i) && ArrayAt(s.mem, base, k, n) && i < n
    requires ShortImms(p)
    ensures Untouched(s, p, ElementBytes(s.mem, base, k, i))
  {
    hide ExecuteUnit, UnitEffect, Operation, Pow2, ArrayAt, AccessesElement, IsStore, ElementBytes;
    if |p| > 0 {
      var q, c := p[..|p| - 1], p[|p| - 1];
      RunSparesElement(s, q, base, k, n, i);
      if RunCalls(s, q).Ok? {
        RunKeepsSizes(s, q);
        UnitSparesElement(s.mem, RunCalls(s, q).value, c, base, k, n, i);
      }
    }
  }

  lemma {:induction false} RunKeepsSizes(s: State, p: seq<UnitCall>)
    requires RunCalls(s, p).Ok?
    ensures SameSizes(s.mem, RunCalls(s, p).value.mem)
  {
    hide ExecuteUnit;
    if |p| > 0 {
      var q := p[..|p| - 1];
      RunKeepsSizes(s, q);
      UnitKeepsSizes(RunCalls(s, q).value, p[|p| - 1]);
      SizesChain(s.mem, RunCalls(s, q).value.mem, RunCalls(s, p).value.mem);
    }
  }

  lemma AccessOf(s: State, c: UnitCall, base: u64, k: nat, i: nat)
    requires AccessesElement(s, c.word, base, k, i) && c.imm24 < 0x100_0000
    ensures LsuAddress(ClearZero(s).gpi, c.word, c.imm24) == (base + i * Pow2(k)) % TWO64
    ensures ByteCount(c.word) == Pow2(k)
    ensures IsLoad(Operation(c.word)) <==> Operation(c.word) % 2 == 0
    ensures IsStore(Operation(c.word)) <==> Operation(c.word) % 2 == 1
  {
    hide Operation, Pow2, LsuAddress, Address, ByteCount, Count, RegB, RegC;
    AddressIs(s, c.word, c.imm24);
    ElementAddress(s, c.word, c.imm24, base, k, i);
    CountIs(c.word);
  }

  lemma OneBankSizes(m: Mem, n: Mem, base: u64, count: nat)
    requires SameSizes(m, n) && InOneBank(m, base, count)
    ensures InOneBank(n, base, count)
  {
    hide SelectBank, Offset;
    OffsetFootprint(m, n, base);
    forall d: nat | d < count ensures Follows(n, base, d) {
      assert Follows(m, base, d);
      OffsetFootprint(m, n, base + d);
    }
  }

  lemma DataOf(s: State, w: u32)
    requires IsAccess(w)
    ensures Get(ClearZero(s), DataLoc(w)) == Data(s, w)
    ensures RegA(w) != 63 ==> Get(s, DataLoc(w)) == Data(s, w)
  {
    hide Operation, RegA;
    AccessUnit(w);
  }

  /** Element i of an array, once stored, comes back from any later load of it, whatever is stored to the
      other elements in between: the register has its low bytes and keeps its own upper ones. */
  lemma ElementComesBack(s: State, st: UnitCall, p: seq<UnitCall>, ld: UnitCall, base: u64, k: nat, n: nat, i: nat)
    requires ArrayAt(s.mem, base, k, n) && i < n
    requires st.imm24 < 0x100_0000 && ld.imm24 < 0x100_0000 && ShortImms(p)
    requires AccessesElement(s, st.word, base, k, i) && Operation(st.word) % 2 == 1
    requires ExecuteUnit(s, st.word, st.slot, st.imm24).Ok?
    requires var t := ExecuteUnit(s, st.word, st.slot, st.imm24).value;
      && RunCalls(t, p).Ok? && SparesElement(t, p, base, k, n, i)
      && AccessesElement(RunCalls(t, p).value, ld.word, base, k, i) && Operation(ld.word) % 2 == 0
    requires RegA(ld.word) != 63
    ensures
      var u := RunCalls(ExecuteUnit(s, st.word, st.slot, st.imm24).value, p).value;
      var r, high := ExecuteUnit(u, ld.word, ld.slot, ld.imm24), Pow2(8 * Pow2(k));
      && r.Ok?
      && Data(r.value, ld.word) % high == Data(s, st.word) % high
      && Data(r.value, ld.word) / high == Data(u, ld.word) / high
  {
    hide ExecuteUnit, Operation, Pow2, SelectBank, Offset, InOneBank, LsuAddress, Address, ByteCount, RunCalls;
    hide Untouched, SparesElement, Data, Count, ByteRange, RegA, RegB, RegC, DataLoc, Get, IsStore, IsLoad;
    var t := ExecuteUnit(s, st.word, st.slot, st.imm24).value;
    var u := RunCalls(t, p).value;
    ElementPlace(s.mem, base, k, n, i);
    AccessOf(s, st, base, k, i);
    AccessOf(u, ld, base, k, i);
    UnitKeepsSizes(s, st);
    OneBankSizes(s.mem, t.mem, base, n * Pow2(k));
    assert ArrayAt(t.mem, base, k, n);
    OffsetFootprint(s.mem, t.mem, base);
    RunSparesElement(t, p, base, k, n, i);
    LoadUndoesStore(s, st, p, ld);
    DataOf(s, st.word);
    DataOf(u, ld.word);
    DataOf(ExecuteUnit(u, ld.word, ld.slot, ld.imm24).value, ld.word);
  }
}
