/** From an ELF image and arguments to the first instruction of main, as the guest sees it. */
module Boot {
  import opened Bits
  import opened Results
  import opened Memory
  import opened Machine
  import opened Instructions
  import opened Loader
  import opened Sections
  import opened Arguments
  import Immediates
  import LoadStore
  import Semantics
  import Arithmetic
  import Branching
  import O = Opcode

  // ---------------------------------------------------------------- layout

  lemma {:induction false} BoundsFit(m: Mem, sections: seq<Section>)
    requires Sized(sections) && AllAccepted(m, sections)
    ensures TotalEnd(AllBounds(sections)) <= |m.wram|
  {
    hide Allocated, Holds, AllAccepted;
    if |sections| > 0 {
      var q, x := sections[..|sections| - 1], sections[|sections| - 1];
      assert q + [x] == sections;
      AllAcceptedPrefix(m, sections);
      BoundsOf(q, x);
      var b := AllBounds(sections);
      BoundsFit(m, q);
      if Allocated(x) {
        assert b[..|b| - 1] == AllBounds(q);
      } else {
        assert b == AllBounds(q);
      }
    }
  }

  /** The stack and the stub lie above everything loaded, on a 64 KiB boundary. */
  lemma Layout(m: Mem, sections: seq<Section>)
    requires FlatWram(m) && Sized(sections) && AllAccepted(m, sections)
    ensures var end, total := StackEnd(AllBounds(sections)), TotalEnd(AllBounds(sections));
      && total < end - 0x10_0000 <= total + 0x1_0000 && end % 0x1_0000 == 0 && end <= 0x8000_0000 + 0x11_0000
  {
    hide AllAccepted, AllBounds, TotalEnd, FlatWram;
    FlatSize(m);
    BoundsFit(m, sections);
  }

  lemma HoldingOutside(before: Bytes, after: Bytes, lo: nat, hi: nat, d: nat, held: Bytes)
    requires Holding(before, d, held) && SameOutside(before, after, lo, hi)
    requires d + |held| <= lo || hi <= d
    ensures Holding(after, d, held)
  {
    assert forall k | d <= k < d + |held| :: after[k] == before[k];
    assert after[d..d + |held|] == before[d..d + |held|];
  }

  // ---------------------------------------------------------------- the entry stub

  lemma StubWords(mainPc: u32)
    requires mainPc < 0x8000_0000
    ensures var w0, w1 := EntryWords(mainPc)[0], EntryWords(mainPc)[1];
      && w0 < TWO32 && w1 < TWO32
      && O.IsPackage(w0) && O.Operation(w0) == O.CALL && O.Unit(w0) == 7 && O.IsMoveix(w1)
      && BranchImm(O.Imm24(w0), O.Imm24(w1)) == mainPc
  {
    hide BranchImm, Bitwise;
    var lo, hi := mainPc % 0x100_0000, mainPc / 0x100_0000 % 0x80;
    Pow2Values();
    OrDisjoint(0xFB, lo, 8);
    CallWord(lo);
    Immediates.ExtensionFields(hi);
    Immediates.BranchValue(lo, hi);
  }

  lemma CallWord(lo: nat)
    requires lo < 0x100_0000
    ensures var w := 0xFB + lo * 0x100;
      w < TWO32 && O.IsPackage(w) && O.Operation(w) == O.CALL && O.Unit(w) == 7 && O.Imm24(w) == lo
  {
    var w := 0xFB + lo * 0x100;
    assert w / 2 == 0x7D + 0x80 * lo && w / 0x20 == 7 + 8 * lo && w / 0x100 == lo;
  }

  ghost predicate StubAt(wram: Bytes, end: nat, mainPc: u32) { Holding(wram, end, Pack(EntryWords(mainPc), 4)) }

  lemma HoldingPart(wram: Bytes, d: nat, held: Bytes, off: nat, n: nat)
    requires Holding(wram, d, held) && off + n <= |held|
    ensures wram[d + off..d + off + n] == held[off..off + n]
  {
    var x, y, z := wram[d..d + |held|], wram[d + off..d + off + n], held[off..off + n];
    forall k | 0 <= k < n ensures y[k] == z[k] {
      assert x[off + k] == held[off + k];
    }
  }

  lemma StubFetch(m: Mem, index: nat, mainPc: u32, i: nat)
    requires FlatWram(m) && StubAt(m.wram, 4 * index, mainPc) && i < 2 && mainPc < 0x8000_0000
    ensures FetchWord(m, index + i) == Ok(EntryWords(mainPc)[i])
  {
    hide Pack, EntryWords, FromBytes, ToBytes, FlatWram, FetchWord, StubAt;
    WordsFit(mainPc, i);
    StubWord(m.wram, 4 * index, mainPc, i);
    FetchWordAt(m, index + i, EntryWords(mainPc)[i]);
  }

  lemma WordsFit(mainPc: u32, i: nat)
    requires i < 2 && mainPc < 0x8000_0000
    ensures EntryWords(mainPc)[i] < TWO32
  {
    hide EntryWords, BranchImm, O.Operation, O.Unit, O.Imm24, O.IsMoveix, O.IsPackage;
    StubWords(mainPc);
  }

  lemma StubWord(wram: Bytes, end: nat, mainPc: u32, i: nat)
    requires StubAt(wram, end, mainPc) && i < 8
    ensures end + 4 * i + 4 <= |wram| && wram[end + 4 * i..end + 4 * i + 4] == ToBytes(EntryWords(mainPc)[i], 4)
  {
    hide Pack, EntryWords, ToBytes, Holding;
    PackedWord(EntryWords(mainPc), 4, i);
    StubInside(wram, end, mainPc);
    HoldingPart(wram, end, Pack(EntryWords(mainPc), 4), 4 * i, 4);
  }

  lemma FetchWordAt(m: Mem, index: nat, w: u32)
    requires FlatWram(m) && 4 * index + 4 <= |m.wram| && m.wram[4 * index..4 * index + 4] == ToBytes(w, 4)
    ensures FetchWord(m, index) == Ok(w)
  {
    hide FromBytes, ToBytes, Pow2, FetchBase, FlatWram;
    FetchFromStart(m);
    FromToBytes(w, 4);
    Pow2Values();
  }

  lemma FetchFromStart(m: Mem)
    requires FlatWram(m)
    ensures FetchBase(m) == 0
  {
    hide Offset;
    LoadStore.WramOffset(m, 0);
  }

  lemma StubInside(wram: Bytes, end: nat, mainPc: u32)
    requires StubAt(wram, end, mainPc)
    ensures end + 32 <= |wram|
  {
  }

  lemma CallEffect(s: State, w: u32, imm24: nat)
    requires O.Operation(w) == O.CALL && O.Unit(w) == 7 && O.IsPackage(w)
    ensures UnitEffect(s, w, 0, imm24) == Ok(map[Lr := s.pc + 2, Pc := BranchImm(O.Imm24(w), imm24)])
  {
    hide BranchImm, O.Operation, O.Unit, O.Imm24;
  }

  lemma CallUnit(s: State, w: u32, imm24: nat)
    requires O.Operation(w) == O.CALL && O.Unit(w) == 7 && O.IsPackage(w)
    ensures ExecuteUnit(s, w, 0, imm24) ==
      Ok(ClearZero(s).(lr := (s.pc + 2) % TWO32, pc := BranchImm(O.Imm24(w), imm24) % TWO32))
  {
    hide Commit, UnitEffect, BranchImm, O.Operation, O.Unit, O.Imm24;
    var c, imm := ClearZero(s), BranchImm(O.Imm24(w), imm24);
    CallEffect(c, w, imm24);
    CommitTwice(c, map[Lr := s.pc + 2], map[Pc := imm]);
    assert map[Lr := s.pc + 2] + map[Pc := imm] == map[Lr := s.pc + 2, Pc := imm];
    CommitControl(c, Lr, s.pc + 2);
    CommitControl(c.(lr := (s.pc + 2) % TWO32), Pc, imm);
  }

  /** One fetch and execute from the stub calls main. */
  lemma StubCallsMain(s: State, end: nat, mainPc: u32)
    requires FlatWram(s.mem) && StubAt(s.mem.wram, end, mainPc) && end % 4 == 0 && end < 0x1_0000_0000
    requires s.pc == end / 4 && mainPc < 0x8000_0000 && mainPc != s.pc
    ensures Step(s) == Ok(ClearZero(s).(lr := s.pc + 2, pc := mainPc, cc := (s.cc + 1) % TWO32))
  {
    hide ExecuteUnit, FetchWord, EntryWords, BranchImm, O.Operation, O.Unit, O.Imm24, StubAt, FlatWram;
    StubFetch(s.mem, s.pc, mainPc, 0);
    StubFetch(s.mem, s.pc, mainPc, 1);
    StubWords(mainPc);
    var w0, w1 := EntryWords(mainPc)[0], EntryWords(mainPc)[1];
    assert RealPc(s.pc) == s.pc;
    CallUnit(s, w0, O.Imm24(w1));
  }

  lemma TailWords(mainPc: u32)
    ensures EntryWords(mainPc)[2] == 0 && EntryWords(mainPc)[3] == 0x0810_0620 && EntryWords(mainPc)[4] == 0x302
  {
  }

  lemma TailFetch(m: Mem, index: nat, mainPc: u32, i: nat)
    requires FlatWram(m) && StubAt(m.wram, 4 * index, mainPc) && 2 <= i < 5
    ensures FetchWord(m, index + i) == Ok(if i == 2 then 0 else if i == 3 then 0x0810_0620 else 0x302)
  {
    hide EntryWords, ToBytes, FlatWram, FetchWord, StubAt;
    TailWords(mainPc);
    StubWord(m.wram, 4 * index, mainPc, i);
    FetchWordAt(m, index + i, EntryWords(mainPc)[i]);
  }

  /** The word that moves the result: 32-bit ADD of r1 and 0 into r2. */
  lemma ResultWord(s: State)
    ensures var w: u32 := 0x0810_0620;
      ExecuteUnit(s, w, 0, 0) == Ok(Semantics.Written(s, 2, s.gpi[1] % TWO32))
  {
    hide ExecuteUnit;
    var w: u32 := 0x0810_0620;
    assert O.Operation(w) == 16 && O.RegA(w) == 2 && O.RegB(w) == 1 && O.Size(w) == 2 && O.AluHasImm(w);
    assert O.AluImm9(w) == 0;
    Arithmetic.AddRuns(s, w, 0, 0);
    Semantics.CutIsModulus(w);
  }

  /** What main returns in r1 is in r2 two steps after the return. */
  lemma StubTakesResult(s: State, index: nat, mainPc: u32)
    requires FlatWram(s.mem) && StubAt(s.mem.wram, 4 * index, mainPc) && s.pc == index + 2 && index < 0x4000_0000
    ensures Run(s, 2).Ok?
    ensures var t := Run(s, 2).value; t.gpi[2] == s.gpi[1] % TWO32 && t.pc == index + 4 && t.mem == s.mem
  {
    hide FlatWram, StubAt, FetchWord, Step, ExecuteUnit;
    TailFetch(s.mem, index, mainPc, 2);
    TailFetch(s.mem, index, mainPc, 3);
    TailFetch(s.mem, index, mainPc, 4);
    Branching.StepRuns(s, 0, 0x0810_0620);
    Branching.BundleRuns(s, 0, 0x0810_0620);
    Arithmetic.MoveixRuns(s, 0, 0, 0);
    var t := Step(s).value;
    Branching.StepRuns(t, 0x0810_0620, 0x302);
    Branching.BundleRuns(t, 0x0810_0620, 0x302);
    ResultWord(t);
    TwoSteps(s, t);
  }

  lemma TwoSteps(s: State, t: State)
    requires Step(s) == Ok(t)
    ensures Run(s, 2) == Step(t)
  {
    hide Step;
    assert Run(s, 2) == Run(t, 1);
    if Step(t).Ok? {
      assert Run(Step(t).value, 0) == Step(t);
    }
  }

  // ---------------------------------------------------------------- the stages

  /** What has to hold for the program to be loaded. */
  ghost predicate Loadable(s: State, sections: seq<Section>, symbols: seq<Symbol>)
    requires Sized(sections)
  {
    && EntryPoint(symbols, "main").Ok?
    && AllAccepted(s.mem, sections)
    && SomeCovers(sections, EntryPoint(symbols, "main").value)
    && StackEnd(AllBounds(sections)) + ENTRY_CODE_SIZE <= |s.mem.wram|
  }

  /** The state in which the arguments are added: sections and stub in place, sp set. */
  ghost predicate ReadyForArguments(s: State, t: State, sections: seq<Section>, entry: Symbol) {
    var end := StackEnd(AllBounds(sections));
    && SameSizes(s.mem, t.mem) && |t.mem.wram| == |s.mem.wram| && FlatWram(t.mem)
    && 8 <= end && StackAt(t, end - 8)
    && t.pc == end / 4 % TWO32
    && Overlaid(s.mem.wram, t.mem.wram, sections, end)
    && StubAt(t.mem.wram, end, entry.value / 4 % TWO32)
  }

  function BeforeArguments(s: State, sections: seq<Section>, entry: Symbol): Result<State>
    requires Sized(sections)
  {
    var (s1, bounds) :- LoadSections(s, sections, entry);
    var (s2, stackEnd) :- SetupStack(s1, bounds);
    WriteEntryCode(s2, entry.value, stackEnd)
  }

  lemma EntryCodeFlat(s: State, mainAddr: u64, end: nat)
    requires FlatWram(s.mem) && end < TWO64 - ENTRY_CODE_SIZE
    ensures var r, code := WriteEntryCode(s, mainAddr, end), Pack(EntryWords(mainAddr / 4 % TWO32), 4);
      && (r.Ok? <==> end + ENTRY_CODE_SIZE <= |s.mem.wram|)
      && (r.Ok? ==> r.value == s.(mem := s.mem.(wram := Splice(s.mem.wram, end, code)), pc := end / 4 % TWO32))
  {
    hide WriteMem, Splice, Pack, EntryWords, FlatWram, Holds, Offset, SelectBank;
    assert Add64(end, ENTRY_CODE_SIZE) == end + ENTRY_CODE_SIZE;
    if end + ENTRY_CODE_SIZE <= |s.mem.wram| {
      FlatWrite(s.mem, end, Pack(EntryWords(mainAddr / 4 % TWO32), 4));
    }
  }

  lemma StubWritten(before: Bytes, wram: Bytes, end: nat, mainPc: u32, sections: seq<Section>)
    requires Overlaid(before, wram, sections, |wram|) && end + ENTRY_CODE_SIZE <= |wram|
    ensures var t := Splice(wram, end, Pack(EntryWords(mainPc), 4));
      StubAt(t, end, mainPc) && Overlaid(before, t, sections, end)
  {
    hide Pack, EntryWords, Splice, LastByte;
  }

  lemma BeforeArgumentsSpec(s: State, sections: seq<Section>, entry: Symbol)
    requires FlatWram(s.mem) && Sized(sections)
    ensures var r := BeforeArguments(s, sections, entry);
      && (r.Ok? <==>
            && AllAccepted(s.mem, sections) && SomeCovers(sections, entry)
            && StackEnd(AllBounds(sections)) + ENTRY_CODE_SIZE <= |s.mem.wram|)
      && (r.Ok? ==> ReadyForArguments(s, r.value, sections, entry))
  {
    hide FlatWram, AllAccepted, SomeCovers, SectionsIntact, AgreeOnOverlap, Overlaid, NoWrap, LoadSections;
    hide StackEnd, StubAt, Splice, Pack, EntryWords, AllBounds, WriteEntryCode, ReadyForArguments;
    LoadSectionsSpec(s, sections, entry);
    var r := LoadSections(s, sections, entry);
    if r.Ok? {
      var (s1, bounds) := r.value;
      Layout(s.mem, sections);
      FlatSizes(s.mem, s1.mem);
      var end := StackEnd(bounds);
      if end <= |s.mem.wram| {
        StubAdded(s, s1, SetupStack(s1, bounds).value.0, end, sections, entry);
      }
    }
  }

  lemma StubAdded(s: State, s1: State, s2: State, end: nat, sections: seq<Section>, entry: Symbol)
    requires FlatWram(s1.mem) && SameSizes(s.mem, s1.mem) && |s1.mem.wram| == |s.mem.wram|
    requires end == StackEnd(AllBounds(sections)) && 8 <= end <= |s.mem.wram|
    requires Overlaid(s.mem.wram, s1.mem.wram, sections, |s.mem.wram|)
    requires s2 == s1.(gpi := s1.gpi[0 := (WRAM_BEGIN + end - 8) % TWO64])
    ensures var r := WriteEntryCode(s2, entry.value, end);
      && (r.Ok? <==> end + ENTRY_CODE_SIZE <= |s.mem.wram|)
      && (r.Ok? ==> ReadyForArguments(s, r.value, sections, entry))
  {
    hide FlatWram, Overlaid, StubAt, Splice, Pack, EntryWords, AllBounds, StackEnd, WriteEntryCode;
    FlatSize(s1.mem);
    EntryCodeFlat(s2, entry.value, end);
    var r := WriteEntryCode(s2, entry.value, end);
    if r.Ok? {
      StubWritten(s.mem.wram, s1.mem.wram, end, entry.value / 4 % TWO32, sections);
      FlatStays(s2, r.value.(pc := s2.pc));
      StillSameSizes(s.mem, s1.mem, r.value.mem);
    }
  }

  lemma StillSameSizes(m: Mem, n: Mem, o: Mem)
    requires SameSizes(m, n) && |o.wram| == |n.wram| && o == n.(wram := o.wram)
    ensures SameSizes(m, o)
  {
  }

  /** Hosted loading succeeds exactly when the program is loadable and the blocks of all arguments, as the
      descending stack pointer places them, are accepted. */
  lemma HostedLoads(s: State, sections: seq<Section>, symbols: seq<Symbol>, programName: Bytes, argv: seq<Bytes>)
    requires FlatWram(s.mem) && Sized(sections)
    ensures LoadHosted(s, sections, symbols, programName, argv).Ok? <==>
      && Loadable(s, sections, symbols)
      && ArgvAccepted(s.mem, (WRAM_BEGIN + StackEnd(AllBounds(sections)) - 8) % TWO64, [programName] + argv)
  {
    hide FlatWram, AllAccepted, SomeCovers, LoadSections, SetupStack, WriteEntryCode, LoadHostArgv, ArgvAccepted;
    hide EntryPoint, StackEnd, Overlaid, StubAt, AllBounds;
    var entry := EntryPoint(symbols, "main");
    if entry.Ok? {
      BeforeArgumentsSpec(s, sections, entry.value);
      var r := BeforeArguments(s, sections, entry.value);
      if r.Ok? {
        Layout(s.mem, sections);
        LoadHostArgvIff(r.value, programName, argv);
        ArgvAcceptedSizes(s.mem, r.value.mem, r.value.gpi[0], [programName] + argv);
      }
    }
  }

  /** The same with main's place spelled out: some allocated section contains its range. */
  lemma HostedLoadsContains(s: State, sections: seq<Section>, symbols: seq<Symbol>, programName: Bytes,
                            argv: seq<Bytes>)
    requires FlatWram(s.mem) && Sized(sections)
    ensures LoadHosted(s, sections, symbols, programName, argv).Ok? <==>
      && EntryPoint(symbols, "main").Ok?
      && AllAccepted(s.mem, sections)
      && SomeContains(sections, EntryPoint(symbols, "main").value)
      && StackEnd(AllBounds(sections)) + 32 <= |s.mem.wram|
      && ArgvAccepted(s.mem, (WRAM_BEGIN + StackEnd(AllBounds(sections)) - 8) % TWO64, [programName] + argv)
  {
    hide FlatWram, AllAccepted, SomeCovers, SomeContains, LoadHosted, ArgvAccepted, EntryPoint, StackEnd, AllBounds;
    HostedLoads(s, sections, symbols, programName, argv);
    var entry := EntryPoint(symbols, "main");
    if entry.Ok? {
      SomeCoversIsContains(sections, entry.value);
    }
  }

  /** The stages behind the sections. */
  function AfterSections(s: State, bounds: seq<Bounds>, entry: Symbol, programName: Bytes, argv: seq<Bytes>)
    : Result<State>
  {
    var (s2, stackEnd) :- SetupStack(s, bounds);
    var s3 :- WriteEntryCode(s2, entry.value, stackEnd);
    LoadHostArgv(s3, programName, argv)
  }

  lemma AfterSectionsError(s: State, bounds: seq<Bounds>, entry: Symbol, programName: Bytes, argv: seq<Bytes>)
    requires FlatWram(s.mem) && StackEnd(bounds) < TWO63 && AfterSections(s, bounds, entry, programName, argv).Err?
    ensures AfterSections(s, bounds, entry, programName, argv).error ==
      if |s.mem.wram| < StackEnd(bounds) then NoRoomForStack
      else if |s.mem.wram| < StackEnd(bounds) + 32 then NoRoomForEntryCode else OutsideBank
  {
    hide FlatWram, StackEnd, WriteEntryCode, LoadHostArgv;
    var end := StackEnd(bounds);
    if end <= |s.mem.wram| {
      var s2 := SetupStack(s, bounds).value.0;
      EntryCodeFlat(s2, entry.value, end);
      if |s.mem.wram| < end + 32 {
        EntryCodeError(s2, entry.value, end);
      } else {
        ArgvError(WriteEntryCode(s2, entry.value, end).value, programName, argv);
      }
    }
  }

  lemma EntryCodeError(s: State, mainAddr: u64, end: nat)
    requires end + 32 < TWO64 && |s.mem.wram| < end + 32
    ensures WriteEntryCode(s, mainAddr, end) == Err(NoRoomForEntryCode)
  {
    hide WriteMem, Pack, EntryWords;
  }

  lemma SectionsError(s: State, sections: seq<Section>, entry: Symbol)
    requires Sized(sections)
    ensures LoadSections(s, sections, entry).Err? ==>
      var e := LoadSections(s, sections, entry).error;
      if !AllAccepted(s.mem, sections) then LoadEach(s, sections, entry) == Err(e)
      else !SomeContains(sections, entry) && e == EntryNotAllocated
    ensures LoadSections(s, sections, entry).Ok? ==>
      AllAccepted(s.mem, sections) && SomeContains(sections, entry)
  {
    hide AllAccepted, SomeCovers, SomeContains, LoadEach, AllBounds, SameSizes;
    LoadEachIff(s, sections, entry);
    SomeCoversIsContains(sections, entry);
  }

  /** Which error a failing hosted load ends in, stage by stage: the entry point's, the sections', an uncovered
      entry, no room for the stack, no room for the stub, or arguments leaving their bank. */
  lemma HostedError(s: State, sections: seq<Section>, symbols: seq<Symbol>, programName: Bytes, argv: seq<Bytes>)
    requires FlatWram(s.mem) && Sized(sections) && LoadHosted(s, sections, symbols, programName, argv).Err?
    ensures
      var e, entry := LoadHosted(s, sections, symbols, programName, argv).error, EntryPoint(symbols, "main");
      var end := StackEnd(AllBounds(sections));
      if entry.Err? then e == entry.error
      else if !AllAccepted(s.mem, sections) then LoadEach(s, sections, entry.value) == Err(e)
      else if !SomeContains(sections, entry.value) then e == EntryNotAllocated
      else if |s.mem.wram| < end then e == NoRoomForStack
      else if |s.mem.wram| < end + 32 then e == NoRoomForEntryCode
      else e == OutsideBank
  {
    hide FlatWram, AllAccepted, SomeCovers, SomeContains, LoadEach, EntryPoint, StackEnd, AllBounds, WriteEntryCode;
    hide LoadHostArgv, LoadSections, SetupStack, Overlaid, SectionsIntact, NoWrap, AgreeOnOverlap;
    var entry := EntryPoint(symbols, "main");
    if entry.Ok? {
      SectionsError(s, sections, entry.value);
      if LoadSections(s, sections, entry.value).Ok? {
        Layout(s.mem, sections);
        LoadSectionsSpec(s, sections, entry.value);
        var (s1, bounds) := LoadSections(s, sections, entry.value).value;
        FlatSizes(s.mem, s1.mem);
        AfterSectionsError(s1, bounds, entry.value, programName, argv);
      }
    }
  }

  /** The only thing that can go wrong with arguments is a copy out of its bank. */
  lemma ArgvError(s: State, programName: Bytes, argv: seq<Bytes>)
    ensures LoadHostArgv(s, programName, argv).Err? ==> LoadHostArgv(s, programName, argv) == Err(OutsideBank)
  {
    hide AddArguments, WriteMem, Pack, IntCast;
    StringsError(s, [programName] + argv);
  }

  lemma {:induction false} StringsError(s: State, args: seq<Bytes>)
    ensures AddArguments(s, args).Err? ==> AddArguments(s, args) == Err(OutsideBank)
  {
    hide WriteMem;
    if |args| > 0 {
      StringsError(s, args[..|args| - 1]);
    }
  }

  lemma ArgvAcceptedSizes(m: Mem, n: Mem, sp: u64, args: seq<Bytes>)
    requires SameSizes(m, n)
    ensures ArgvAccepted(m, sp, args) <==> ArgvAccepted(n, sp, args)
  {
    hide Holds, BlockAddress, ArgvSize;
    forall i: nat | i < |args|
      ensures Holds(m, BlockAddress(sp, args, i), |args[i]| + 1) == Holds(n, BlockAddress(sp, args, i), |args[i]| + 1)
    {
      HoldsSizes(m, n, BlockAddress(sp, args, i), |args[i]| + 1);
    }
    HoldsSizes(m, n, Below(sp, ArgvSize(args)), 8 * (|args| + 1));
  }

  /** With scratchpads within their address ranges and no string starting exactly at WRAM_BEGIN: a loadable
      program is loaded exactly when its arguments fit below the stack end. */
  lemma HostedLoadsFit(s: State, sections: seq<Section>, symbols: seq<Symbol>, programName: Bytes, argv: seq<Bytes>)
    requires FlatWram(s.mem) && SmallPads(s.mem) && Sized(sections) && Loadable(s, sections, symbols)
    requires NoneAtBegin([programName] + argv, StackEnd(AllBounds(sections)) - 8)
    ensures LoadHosted(s, sections, symbols, programName, argv).Ok? <==>
      ArgvSize([programName] + argv) + 8 <= StackEnd(AllBounds(sections))
  {
    hide FlatWram, SmallPads, AllAccepted, SomeCovers, LoadHosted, ArgvAccepted, EntryPoint, AllBounds, StackEnd;
    hide NoneAtBegin, ArgvSize;
    HostedLoads(s, sections, symbols, programName, argv);
    Layout(s.mem, sections);
    AcceptedMeansFit(s.mem, StackEnd(AllBounds(sections)) - 8, [programName] + argv);
  }

  // ---------------------------------------------------------------- what the guest sees

  /** A 64-bit guest load. */
  ghost predicate GuestWord(m: Mem, a: u64, v: nat) {
    var r := ReadMem(m, a, 8);
    r.Ok? && FromBytes(r.value) == v
  }

  /** A NUL-terminated string at a guest address. */
  ghost predicate GuestString(m: Mem, p: u64, text: Bytes) { ReadMem(m, p, |text| + 1) == Ok(text + [0]) }

  /** A C argv: pointers to the strings in order, ended by a null pointer. */
  ghost predicate GuestArgv(m: Mem, table: u64, args: seq<Bytes>) {
    && table + 8 * |args| < TWO64
    && GuestWord(m, table + 8 * |args|, 0)
    && forall i: nat | i < |args| :: GuestArgument(m, table + 8 * i, args[i])
  }

  ghost predicate GuestArgument(m: Mem, slot: u64, text: Bytes) {
    exists p: u64 :: GuestWord(m, slot, p) && GuestString(m, p, text)
  }

  lemma TableEntry(wram: Bytes, d: nat, addrs: seq<u64>, i: nat)
    requires TablePlaced(wram, d, addrs) && i <= |addrs|
    ensures d + 8 * i + 8 <= |wram|
    ensures wram[d + 8 * i..d + 8 * i + 8] == ToBytes((addrs + [0])[i], 8)
  {
    hide Pack, ToBytes, Holding;
    TableInside(wram, d, addrs);
    PackedWord(addrs + [0], 8, i);
    HoldingPart(wram, d, Pack(addrs + [0], 8), 8 * i, 8);
  }

  lemma TableWord(m: Mem, d: nat, addrs: seq<u64>, i: nat)
    requires FlatWram(m) && TablePlaced(m.wram, d, addrs) && i <= |addrs|
    ensures WRAM_BEGIN + d + 8 * i < TWO64
    ensures GuestWord(m, WRAM_BEGIN + d + 8 * i, (addrs + [0])[i])
  {
    hide ToBytes, ReadMem, FlatWram, TablePlaced, Holds, FromBytes;
    FlatSize(m);
    TableEntry(m.wram, d, addrs, i);
    FlatRead(m, d + 8 * i, 8);
    WordRoundTrip((addrs + [0])[i]);
  }

  lemma WordRoundTrip(v: u64)
    ensures FromBytes(ToBytes(v, 8)) == v
  {
    hide ToBytes, FromBytes, Pow2;
    FromToBytes(v, 8);
    Pow2Values();
  }

  lemma TableInside(wram: Bytes, d: nat, addrs: seq<u64>)
    requires TablePlaced(wram, d, addrs)
    ensures d + 8 * (|addrs| + 1) <= |wram|
  {
  }

  lemma StringVisible(m: Mem, top: nat, args: seq<Bytes>, addrs: seq<u64>, i: nat)
    requires FlatWram(m) && StringsPlaced(m.wram, top, args, addrs) && i < |args|
    ensures GuestString(m, addrs[i], args[i])
  {
    hide ReadMem, Used, FlatWram;
    assert PlacedAt(m.wram, top, args, addrs, i);
    FlatRead(m, top - Used(args[..i + 1]), |args[i]| + 1);
  }

  /** The placed image is a C argv for the guest. */
  lemma ArgvVisible(s: State, t: State, top: nat, args: seq<Bytes>, addrs: seq<u64>)
    requires FlatWram(t.mem) && ArgvSize(args) <= top && ArgvPlaced(s, t, top, args, addrs)
    ensures GuestArgv(t.mem, t.gpi[2], args)
  {
    hide GuestWord, GuestString, FlatWram, TablePlaced, StringsPlaced, SameOutside, ArgvSize;
    var sp := top - ArgvSize(args);
    PlacedLength(t.mem.wram, top, args, addrs);
    TableWord(t.mem, sp, addrs, |args|);
    forall i: nat | i < |args| ensures GuestArgument(t.mem, t.gpi[2] + 8 * i, args[i]) {
      TableWord(t.mem, sp, addrs, i);
      StringVisible(t.mem, top, args, addrs, i);
      assert GuestWord(t.mem, t.gpi[2] + 8 * i, addrs[i]) && GuestString(t.mem, addrs[i], args[i]);
    }
  }

  /** main starts inside the content of an allocated section that does not wrap around. */
  predicate MainLoaded(sections: seq<Section>, entry: Symbol) {
    exists i :: 0 <= i < |sections| && Allocated(sections[i]) && HoldsMain(sections[i], entry)
  }

  predicate HoldsMain(x: Section, entry: Symbol) {
    InRange(entry.value, x) && x.addr + |x.content| < TWO64
  }

  lemma MainBelow(sections: seq<Section>, entry: Symbol)
    requires MainLoaded(sections, entry)
    ensures entry.value < TotalEnd(AllBounds(sections))
  {
    hide Allocated, TotalEnd, AllBounds;
    var i: nat :| i < |sections| && Allocated(sections[i]) && HoldsMain(sections[i], entry);
    SectionsEndBelow(sections, i);
  }

  /** The machine handed over to the guest. */
  ghost predicate Booted(t: State, sections: seq<Section>, entry: Symbol, args: seq<Bytes>) {
    && t.gpi[1] == |args|
    && GuestArgv(t.mem, t.gpi[2], args)
    && t.pc == StackEnd(AllBounds(sections)) / 4
    && t.pc + 2 < TWO32 && entry.value / 4 < TWO32
    && Step(t) == Ok(ClearZero(t).(lr := t.pc + 2, pc := entry.value / 4, cc := (t.cc + 1) % TWO32))
  }

  lemma ArgumentCount(args: seq<Bytes>)
    ensures |args| <= Used(args)
    ensures ArgvSize(args) <= 0x1_0000_0000 ==> IntCast(|args|) == |args|
  {
    if |args| > 0 {
      ArgumentCount(args[..|args| - 1]);
    }
  }

  /** The arguments' image as one more range of bytes, laid over the sections. */
  function ArgvSection(args: seq<Bytes>, top: nat): Section
    requires ArgvSize(args) <= top < TWO64
  {
    Section(SHF_ALLOC, top - ArgvSize(args), ArgvSize(args), ArgvBytes(args, top))
  }

  function WithArguments(sections: seq<Section>, args: seq<Bytes>): seq<Section>
    requires ArgvSize(args) + 8 <= StackEnd(AllBounds(sections))
  {
    sections + [ArgvSection(args, StackEnd(AllBounds(sections)) - 8)]
  }

  lemma OverlayArguments(before: Bytes, was: Bytes, wram: Bytes, sections: seq<Section>, x: Section, hi: nat)
    requires Overlaid(before, was, sections, hi) && Allocated(x)
    requires SameOutside(was, wram, x.addr, x.addr + |x.content|) && Holding(wram, x.addr, x.content)
    ensures Overlaid(before, wram, sections + [x], hi)
  {
    hide Allocated, LastByte, Holding;
    forall k: nat | k < hi ensures wram[k] == LastByte(before[k], sections + [x], k) {
      LastByteOf(before[k], sections, x, k);
      if InRange(k, x) {
        HeldByte(wram, x.addr, x.content, k);
      }
    }
  }

  lemma ArgumentsLaid(s: State, r: State, t: State, sections: seq<Section>, entry: Symbol, args: seq<Bytes>,
                      addrs: seq<u64>)
    requires ReadyForArguments(s, r, sections, entry) && ArgvSize(args) + 8 <= StackEnd(AllBounds(sections))
    requires ArgvPlaced(r, t, StackEnd(AllBounds(sections)) - 8, args, addrs)
    ensures Overlaid(s.mem.wram, t.mem.wram, WithArguments(sections, args), StackEnd(AllBounds(sections)))
    ensures StubAt(t.mem.wram, StackEnd(AllBounds(sections)), entry.value / 4 % TWO32)
    ensures FlatWram(t.mem) && |t.mem.wram| == |s.mem.wram| && t.pc == r.pc
  {
    hide TotalEnd, AllBounds, StackEnd, ArgvSize, ArgvBytes, StringsPlaced, TablePlaced, SameOutside, Overlaid;
    hide Pack, Holding, EntryWords, PowerSizes, Bitwise;
    var end := StackEnd(AllBounds(sections));
    var top, sp := end - 8, end - 8 - ArgvSize(args);
    SameLengths(r.mem.wram, t.mem.wram, sp, top);
    StubInside(r.mem.wram, end, entry.value / 4 % TWO32);
    HoldingOutside(r.mem.wram, t.mem.wram, sp, top, end, Pack(EntryWords(entry.value / 4 % TWO32), 4));
    FlatStays(r.(gpi := t.gpi), t);
    ArgvHolds(r, t, top, args, addrs);
    AllocatedFlag();
    OverlayArguments(s.mem.wram, r.mem.wram, t.mem.wram, sections, ArgvSection(args, top), end);
  }

  lemma BelowStack(m: Mem, sections: seq<Section>, args: seq<Bytes>)
    requires FlatWram(m) && Sized(sections) && AllAccepted(m, sections) && NoWrap(sections)
    requires ArgvSize(args) + 8 <= StackEnd(AllBounds(sections))
    ensures AllFit(WithArguments(sections, args), StackEnd(AllBounds(sections)))
  {
    hide TotalEnd, AllBounds, StackEnd, ArgvBytes, Allocated, ArgvSize, AllAccepted, FlatWram;
    var end, all := StackEnd(AllBounds(sections)), WithArguments(sections, args);
    Layout(m, sections);
    forall i | 0 <= i < |all| && Allocated(all[i]) ensures all[i].addr + |all[i].content| <= end {
      if i < |sections| {
        assert all[i] == sections[i];
        SectionsEndBelow(sections, i);
      }
    }
  }

  /** Arguments that end above everything loaded conflict with none of it. */
  lemma ArgumentsAbove(sections: seq<Section>, args: seq<Bytes>)
    requires NoWrap(sections)
    requires TotalEnd(AllBounds(sections)) + ArgvSize(args) + 8 <= StackEnd(AllBounds(sections))
    ensures AgreeOnOverlap(WithArguments(sections, args)) <==> AgreeOnOverlap(sections)
  {
    hide TotalEnd, AllBounds, StackEnd, ArgvBytes, Allocated, ArgvSize, Agree;
    var all := WithArguments(sections, args);
    assert all[..|all| - 1] == sections;
    if AgreeOnOverlap(all) {
      AgreePrefix(all);
    }
    if AgreeOnOverlap(sections) {
      forall i, j | 0 <= i < j < |all| && Allocated(all[i]) && Allocated(all[j]) ensures Agree(all[i], all[j]) {
        assert all[i] == sections[i];
        if j < |sections| {
          assert all[j] == sections[j];
        } else {
          SectionsEndBelow(sections, i);
          ApartAgree(all[i], all[j]);
        }
      }
    }
  }

  lemma ApartAgree(x: Section, y: Section)
    requires x.addr + |x.content| <= y.addr
    ensures Agree(x, y)
  {
  }

  lemma MainReached(m: Mem, t: State, sections: seq<Section>, entry: Symbol)
    requires FlatWram(m) && Sized(sections) && AllAccepted(m, sections) && MainLoaded(sections, entry)
    requires FlatWram(t.mem) && StubAt(t.mem.wram, StackEnd(AllBounds(sections)), entry.value / 4 % TWO32)
    requires t.pc == StackEnd(AllBounds(sections)) / 4 % TWO32
    ensures t.pc == StackEnd(AllBounds(sections)) / 4 && t.pc + 2 < TWO32 && entry.value / 4 < TWO32
    ensures Step(t) == Ok(ClearZero(t).(lr := t.pc + 2, pc := entry.value / 4, cc := (t.cc + 1) % TWO32))
  {
    hide AllAccepted, StackEnd, StubAt, AllBounds, TotalEnd, MainLoaded, Step, FlatWram;
    Layout(m, sections);
    MainBelow(sections, entry);
    assert entry.value / 4 % TWO32 == entry.value / 4 < t.pc;
    StubCallsMain(t, StackEnd(AllBounds(sections)), entry.value / 4);
  }

  /** Hosted boot, end to end: after loading, memory below the stub is the sections overlaid in order with the
      arguments' image on top, every section is intact exactly when none wraps around and these agree wherever
      they overlap, r1 is argc, r2 leads to the program name and the arguments in order, and one step from the
      stub reaches main with lr behind the call. */
  lemma HostedBoot(s: State, sections: seq<Section>, symbols: seq<Symbol>, programName: Bytes, argv: seq<Bytes>)
    requires FlatWram(s.mem) && Sized(sections)
    requires Loadable(s, sections, symbols) && MainLoaded(sections, EntryPoint(symbols, "main").value)
    requires ArgvSize([programName] + argv) + 8 <= StackEnd(AllBounds(sections))
    ensures var r, args := LoadHosted(s, sections, symbols, programName, argv), [programName] + argv;
      && r.Ok? && Booted(r.value, sections, EntryPoint(symbols, "main").value, args)
      && Overlaid(s.mem.wram, r.value.mem.wram, WithArguments(sections, args), StackEnd(AllBounds(sections)))
      && (SectionsIntact(r.value.mem.wram, sections) <==>
            NoWrap(sections) && AgreeOnOverlap(WithArguments(sections, args)))
  {
    hide FlatWram, AllAccepted, SomeCovers, NoWrap, LoadSections, SetupStack, WriteEntryCode, LoadHostArgv;
    hide EntryPoint, StackEnd, Overlaid, SectionsIntact, StubAt, ArgvSize, AllBounds, TotalEnd, MainLoaded, Step;
    hide StringsPlaced, TablePlaced, SameOutside, GuestArgv, AddArguments, IntCast, AgreeOnOverlap, WithArguments;
    var entry, args := EntryPoint(symbols, "main").value, [programName] + argv;
    BeforeArgumentsSpec(s, sections, entry);
    var r := BeforeArguments(s, sections, entry).value;
    var end := StackEnd(AllBounds(sections));
    Layout(s.mem, sections);
    LoadHostArgvSpec(r, end - 8, programName, argv);
    var t, addrs := LoadHostArgv(r, programName, argv).value, AddArguments(r, args).value.1;
    ArgumentsLaid(s, r, t, sections, entry, args, addrs);
    ArgvVisible(r, t, end - 8, args, addrs);
    ArgumentCount(args);
    MainReached(s.mem, t, sections, entry);
    SectionsUnderArguments(s, r, t, sections, args, addrs);
  }

  /** The arguments are always whole, so it is the sections that a conflict damages. */
  lemma SectionsUnderArguments(s: State, r: State, t: State, sections: seq<Section>, args: seq<Bytes>, addrs: seq<u64>)
    requires FlatWram(s.mem) && Sized(sections) && AllAccepted(s.mem, sections) && |t.mem.wram| == |s.mem.wram|
    requires ArgvSize(args) + 8 <= StackEnd(AllBounds(sections))
    requires ArgvPlaced(r, t, StackEnd(AllBounds(sections)) - 8, args, addrs)
    requires Overlaid(s.mem.wram, t.mem.wram, WithArguments(sections, args), StackEnd(AllBounds(sections)))
    ensures SectionsIntact(t.mem.wram, sections) <==>
      NoWrap(sections) && AgreeOnOverlap(WithArguments(sections, args))
  {
    hide AllAccepted, AgreeOnOverlap, AllBounds, StackEnd, ArgvSize, ArgvBytes, ArgvPlaced, NoWrap, Holding, Allocated;
    hide LastByte, AllFit, FlatWram;
    var end, all := StackEnd(AllBounds(sections)), WithArguments(sections, args);
    FlatSize(s.mem);
    if SectionsIntact(t.mem.wram, sections) {
      IntactNoWrap(t.mem.wram, sections);
    }
    if NoWrap(sections) {
      BelowStack(s.mem, sections, args);
      IntactIff(s.mem.wram, t.mem.wram, all, end);
      ArgvHolds(r, t, end - 8, args, addrs);
      assert forall i | 0 <= i < |sections| :: all[i] == sections[i];
      assert all[|sections|] == ArgvSection(args, end - 8);
    }
  }

  /** With arguments that stay above everything loaded, all sections are intact exactly when none wraps around
      and they agree wherever they overlap: always, when they do not overlap. */
  lemma HostedImageIntact(s: State, sections: seq<Section>, symbols: seq<Symbol>, programName: Bytes, argv: seq<Bytes>)
    requires FlatWram(s.mem) && Sized(sections)
    requires Loadable(s, sections, symbols) && MainLoaded(sections, EntryPoint(symbols, "main").value)
    requires TotalEnd(AllBounds(sections)) + ArgvSize([programName] + argv) + 8 <= StackEnd(AllBounds(sections))
    ensures var r := LoadHosted(s, sections, symbols, programName, argv);
      && r.Ok?
      && (SectionsIntact(r.value.mem.wram, sections) <==> NoWrap(sections) && AgreeOnOverlap(sections))
      && (NoWrap(sections) && Disjoint(sections) ==> SectionsIntact(r.value.mem.wram, sections))
  {
    hide FlatWram, Loadable, NoWrap, LoadHosted, WithArguments, MainLoaded, Disjoint, Booted;
    hide EntryPoint, StackEnd, Overlaid, SectionsIntact, ArgvSize, AllBounds, TotalEnd, AgreeOnOverlap;
    HostedBoot(s, sections, symbols, programName, argv);
    if NoWrap(sections) {
      ArgumentsAbove(sections, [programName] + argv);
    }
    if Disjoint(sections) {
      DisjointAgree(sections);
    }
  }

  // ---------------------------------------------------------------- arguments that reach into the program

  /** A program of one byte at offset 0, and arguments whose table ends up there: loading succeeds, and the
      pointer to the program name has replaced the byte. */
  lemma LongArgumentsDamage(s: State, argv: seq<Bytes>)
    requires FlatWram(s.mem) && |s.mem.wram| >= 0x20_0000 && ArgvSize([[0x61]] + argv) == 0x10_FFF8
    ensures
      var sections, symbols := [Section(SHF_ALLOC, 0, 1, [0x55])], [Symbol("main", 0, 1, STT_FUNC)];
      var r := LoadHosted(s, sections, symbols, [0x61], argv);
      r.Ok? && !SectionsIntact(r.value.mem.wram, sections)
  {
    hide FlatWram, LoadHosted, Booted, Overlaid, SectionsIntact, AgreeOnOverlap, NoWrap, AllAccepted, StackEnd;
    hide Allocated, Accepted, ArgvSize, AllBounds, WithArguments, SomeCovers, LastNamed;
    var x, entry := Section(SHF_ALLOC, 0, 1, [0x55]), Symbol("main", 0, 1, STT_FUNC);
    SmallSection(s.mem, x);
    OneSection(s.mem, x, entry);
    OneSymbol(entry);
    SmallStackEnd();
    assert HoldsMain([x][0], entry);
    HostedBoot(s, [x], [entry], [0x61], argv);
    PointerReplacesByte(x, argv);
  }

  /** Such arguments exist: one of 1 114 077 characters, or shorter ones of that size together. */
  lemma OneLongArgument(arg: Bytes)
    requires |arg| == 0x10_FFDD
    ensures ArgvSize([[0x61]] + [arg]) == 0x10_FFF8
  {
    UsedPlus([[0x61]], arg);
    UsedPlus([], [0x61]);
    assert [] + [[0x61]] == [[0x61]];
  }

  lemma OneSymbol(entry: Symbol)
    ensures LastNamed([entry], entry.name) == Ok(entry)
  {
  }

  lemma SmallStackEnd()
    ensures StackEnd([Bounds(0, 1)]) == 0x11_0000
  {
    assert [Bounds(0, 1)][..0] == [];
  }

  lemma PointerReplacesByte(x: Section, argv: seq<Bytes>)
    requires x.addr == 0 && x.content == [0x55] && AllBounds([x]) == [Bounds(0, 1)] && Allocated(x)
    requires ArgvSize([[0x61]] + argv) == 0x10_FFF8
    ensures StackEnd(AllBounds([x])) == 0x11_0000 && !AgreeOnOverlap(WithArguments([x], [[0x61]] + argv))
  {
    hide Bitwise, ArgvBytes, AllBounds, StackEnd, ArgvSize, Agree;
    SmallStackEnd();
    AllocatedFlag();
    var all := WithArguments([x], [[0x61]] + argv);
    assert all[0] == x && all[1] == ArgvSection([[0x61]] + argv, 0x10_FFF8);
    FirstPointer([0x61], argv, 0x10_FFF8);
    DisagreeAtZero(all[0], all[1]);
  }

  lemma {:induction false} FirstAddress(args: seq<Bytes>, top: nat)
    requires |args| > 0
    ensures Addresses(args, top)[0] == (WRAM_BEGIN + top - (|args[0]| + 1)) % TWO64
  {
    if |args| == 1 {
      assert args[..0] == [];
      assert Used(args) == Used(args[..0]) + |args[0]| + 1;
    } else {
      FirstAddress(args[..|args| - 1], top);
    }
  }

  lemma FirstPointer(name: Bytes, argv: seq<Bytes>, top: nat)
    ensures |ArgvBytes([name] + argv, top)| > 0
    ensures ArgvBytes([name] + argv, top)[0] == (WRAM_BEGIN + top - (|name| + 1)) % TWO64 % 0x100
  {
    hide ToBytes, StringBytes, Used, Addresses;
    var args := [name] + argv;
    var addrs := Addresses(args, top);
    FirstAddress(args, top);
    PackedWord(addrs + [0], 8, 0);
    FirstByte(addrs[0]);
    assert (Pack(addrs + [0], 8) + StringBytes(args))[0] == Pack(addrs + [0], 8)[0];
    assert Pack(addrs + [0], 8)[0..8][0] == Pack(addrs + [0], 8)[0];
  }

  lemma FirstByte(v: nat)
    ensures ToBytes(v, 8)[0] == v % 0x100
  {
  }
}
