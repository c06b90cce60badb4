/** The machine object: loads a hosted program into memory and runs it step by step. */
module VirtualMachine {
  import opened Bits
  import opened Results
  import opened Memory
  import opened Machine
  import opened Instructions
  import opened Loader
  import opened MemoryUnit
  import opened CoreUnit
  import Sections

  lemma {:induction false} FailedSectionsFail(s: State, sections: seq<Section>, entry: Symbol, i: nat)
    requires Sized(sections) && i <= |sections| && LoadEach(s, sections[..i], entry).Err?
    ensures LoadEach(s, sections, entry) == Err(LoadEach(s, sections[..i], entry).error)
    decreases |sections| - i
  {
    hide LoadOne;
    if i == |sections| {
      assert sections[..i] == sections;
    } else {
      assert sections[..i + 1][..i] == sections[..i];
      FailedSectionsFail(s, sections, entry, i + 1);
    }
  }

  lemma {:induction false} FailedArgumentsFail(s: State, args: seq<Bytes>, i: nat)
    requires i <= |args| && AddArguments(s, args[..i]).Err?
    ensures AddArguments(s, args) == Err(AddArguments(s, args[..i]).error)
    decreases |args| - i
  {
    hide AddArgument;
    if i == |args| {
      assert args[..i] == args;
    } else {
      assert args[..i + 1][..i] == args[..i];
      FailedArgumentsFail(s, args, i + 1);
    }
  }

  lemma FoundFromTheEnd(symbols: seq<Symbol>, name: string, i: nat)
    requires i < |symbols|
    ensures LastNamed(symbols[..i + 1], name) ==
      if symbols[i].name == name then Ok(symbols[i]) else LastNamed(symbols[..i], name)
  {
    assert symbols[..i + 1][..i] == symbols[..i];
  }

  function Zeros(n: nat): seq<u8> { seq(n, _ => 0) }

  /** The state a machine is built in: nwram MiB, nspmt and nspm2 KiB, everything zero. */
  function PowerOn(nwram: nat, nspmt: nat, nspm2: nat): State {
    State(0, 0, 0, 0, 0, 0, 0, 0, 0, seq<u64>(64, _ => 0), seq<u64>(64, _ => 0), seq<u64>(4, _ => 0),
          Mem(Zeros(SPM_SIZE), Zeros(IO_SIZE), Zeros(ROM_SIZE), Zeros(0x400 * nspmt), Zeros(0x400 * nspm2),
              Zeros(0x10_0000 * nwram)))
  }

  lemma TimesPow2(n: nat, k: nat)
    requires IsPow2(n)
    ensures IsPow2(Pow2(k) * n) && n > 0
  {
    var j: nat :| n == Pow2(j);
    Pow2Add(k, j);
  }

  /** Machines with powers of two and at most 2 GiB of WRAM meet what the boot theorems ask for. */
  lemma PowerOnIsFlat(nwram: nat, nspmt: nat, nspm2: nat)
    requires IsPow2(nwram) && nwram <= 0x800 && IsPow2(nspmt) && IsPow2(nspm2)
    requires 0x400 * nspmt < TWO64 && 0x400 * nspm2 < TWO64
    ensures Sections.FlatWram(PowerOn(nwram, nspmt, nspm2).mem)
  {
    hide Pow2, IsPow2;
    Pow2Values();
    Pow2Add(10, 10);
    TimesPow2(nwram, 20);
    TimesPow2(nspmt, 10);
    TimesPow2(nspm2, 10);
  }

  lemma SameBuffers(m: Mem, n: Mem)
    requires SameSizes(m, n)
    requires forall b: Bank, i: nat | i < |m.Of(b)| :: m.Of(b)[i] == 0
    requires forall b: Bank, i: nat | i < |n.Of(b)| :: n.Of(b)[i] == 0
    ensures m == n
  {
    forall b: Bank ensures m.Of(b) == n.Of(b) {
      assert |m.Of(b)| == |n.Of(b)|;
    }
    SameBanks(m, n);
  }

  lemma BaseOfWram(m: Mem)
    ensures FetchBase(m) == And(WRAM_BEGIN, MaskOf(|m.wram|))
  {
    hide Bitwise;
    BankByRange(WRAM_BEGIN);
  }

  class AltairX {
    const memory: AxMemory
    const core: AxCore
    /** The byte of WRAM that instruction words are counted from. */
    const wramBegin: nat

    constructor (nwram: nat, nspmt: nat, nspm2: nat)
      requires 0x10_0000 * nwram < TWO64 && 0x400 * nspmt < TWO64 && 0x400 * nspm2 < TWO64
      ensures Valid() && core.Snapshot() == PowerOn(nwram, nspmt, nspm2)
    {
      hide Offset, SelectBank, Bitwise;
      var bytes := new AxMemory(nwram, nspmt, nspm2);
      var owner := new AxCore(bytes);
      var base, begin := bytes.Map(owner.spm, WRAM_BEGIN);
      memory := bytes;
      core := owner;
      wramBegin := begin;
      BaseOfWram(owner.Snapshot().mem);
      SameBuffers(owner.Snapshot().mem, PowerOn(nwram, nspmt, nspm2).mem);
    }

    ghost predicate Valid() {
      core.memory == memory && core.Valid() && wramBegin == And(WRAM_BEGIN, MaskOf(memory.wram.Length))
    }

    static method GetEntryPoint(symbols: seq<Symbol>, name: string) returns (r: Result<Symbol>)
      ensures r == EntryPoint(symbols, name)
    {
      var found: Result<Symbol> := Err(NoEntryPoint);
      for i := 0 to |symbols|
        invariant found == LastNamed(symbols[..i], name)
      {
        FoundFromTheEnd(symbols, name, i);
        if symbols[i].name == name {
          found := Ok(symbols[i]);
        }
      }
      assert symbols[..|symbols|] == symbols;
      if found.Err? {
        return found;
      }
      if found.value.kind != STT_FUNC {
        return Err(EntryNotAFunction);
      }
      return found;
    }

    /** Copies one section, if allocated, and notes its bounds and whether it covers the entry. */
    method LoadSection(x: Section, entry: Symbol, output: seq<Bounds>, covered: bool)
      returns (r: Result<(seq<Bounds>, bool)>)
      requires Valid() && |x.content| < TWO64
      modifies core.spm, memory.Buffers()
      ensures
        match LoadOne(Loaded(old(core.Snapshot()), output, covered), x, entry)
        case Ok(l) => r == Ok((l.bounds, l.covered)) && core.Snapshot() == l.state
        case Err(e) => r == Err(e)
    {
      hide WriteMem, Bitwise;
      if !Allocated(x) {
        return Ok((output, covered));
      }
      if Add64(x.addr, |x.content|) > memory.wram.Length {
        return Err(NotEnoughMemory);
      }
      var ok := memory.Store(core.spm, Add64(WRAM_BEGIN, x.addr), x.content);
      if !ok {
        return Err(OutsideBank);
      }
      var inside := x.addr <= entry.value && Add64(x.addr, x.size) >= Add64(entry.value, entry.size);
      return Ok((output + [Bounds(x.addr, Add64(x.addr, |x.content|))], covered || inside));
    }

    /** On an error the panic ends the program, so the state then is left unspecified. */
    method LoadSections(sections: seq<Section>, entry: Symbol) returns (r: Result<seq<Bounds>>)
      requires Valid() && Sized(sections)
      modifies core`pc, core.spm, memory.Buffers()
      ensures
        match Loader.LoadSections(old(core.Snapshot()), sections, entry)
        case Ok(after) => r == Ok(after.1) && core.Snapshot() == after.0
        case Err(e) => r == Err(e)
    {
      hide LoadOne;
      ghost var s := core.Snapshot();
      var output: seq<Bounds>, covered := [], false;
      for i := 0 to |sections|
        invariant LoadEach(s, sections[..i], entry) == Ok(Loaded(core.Snapshot(), output, covered))
      {
        assert sections[..i + 1][..i] == sections[..i];
        var step := LoadSection(sections[i], entry, output, covered);
        if step.Err? {
          FailedSectionsFail(s, sections, entry, i + 1);
          return Err(step.error);
        }
        output, covered := step.value.0, step.value.1;
      }
      assert sections[..|sections|] == sections;
      if !covered {
        return Err(EntryNotAllocated);
      }
      core.pc := entry.value / 4 % TWO32;
      return Ok(output);
    }

    method SetupStack(bounds: seq<Bounds>) returns (r: Result<u64>)
      requires Valid()
      modifies core.gpi
      ensures
        match Loader.SetupStack(old(core.Snapshot()), bounds)
        case Ok(after) => r == Ok(after.1) && core.Snapshot() == after.0
        case Err(e) => r == Err(e)
    {
      hide Bitwise;
      var begin, end: u64 := TWO64 - 1, 0;
      for i := 0 to |bounds|
        invariant end == TotalEnd(bounds[..i])
      {
        assert bounds[..i + 1][..i] == bounds[..i];
        begin := if bounds[i].begin < begin then bounds[i].begin else begin;
        end := if bounds[i].end > end then bounds[i].end else end;
      }
      assert bounds[..|bounds|] == bounds;
      var alignedEnd := (end / 0x1_0000 + 1) * 0x1_0000 % TWO64;
      var stackEnd := Add64(alignedEnd, STACK_SIZE);
      if memory.wram.Length < stackEnd {
        return Err(NoRoomForStack);
      }
      core.gpi[0] := (WRAM_BEGIN + stackEnd - 8) % TWO64;
      return Ok(stackEnd);
    }

    method WriteEntryCode(mainAddr: u64, entryAddr: u64) returns (r: Result<()>)
      requires Valid()
      modifies core`pc, core.spm, memory.Buffers()
      ensures
        match Loader.WriteEntryCode(old(core.Snapshot()), mainAddr, entryAddr)
        case Ok(after) => r == Ok(()) && core.Snapshot() == after
        case Err(e) => r == Err(e)
    {
      hide WriteMem, Pack, EntryWords;
      var mainPc := mainAddr / 4 % TWO32;
      var entryCode := Pack(EntryWords(mainPc), 4);
      if memory.wram.Length < Add64(entryAddr, ENTRY_CODE_SIZE) {
        return Err(NoRoomForEntryCode);
      }
      var ok := memory.Store(core.spm, Add64(WRAM_BEGIN, entryAddr), entryCode);
      if !ok {
        return Err(OutsideBank);
      }
      core.pc := entryAddr / 4 % TWO32;
      return Ok(());
    }

    method Alloca(size: nat) returns (addr: u64)
      requires Valid()
      modifies core.gpi
      ensures core.Snapshot() == Loader.Alloca(old(core.Snapshot()), size) && addr == core.gpi[0]
    {
      core.gpi[0] := (core.gpi[0] - size) % TWO64;
      addr := core.gpi[0];
    }

    /** The string and its terminator below the current stack pointer. */
    method AddArgument(arg: Bytes) returns (r: Result<u64>)
      requires Valid()
      modifies core.gpi, core.spm, memory.Buffers()
      ensures
        match Loader.AddArgument(old(core.Snapshot()), arg)
        case Ok(after) => r == Ok(after.gpi[0]) && core.Snapshot() == after
        case Err(e) => r == Err(e)
    {
      hide WriteMem, Loader.Alloca;
      var addr := Alloca(|arg| + 1);
      var ok := memory.Store(core.spm, addr, arg + [0]);
      r := if ok then Ok(addr) else Err(OutsideBank);
    }

    method AddArguments(args: seq<Bytes>) returns (r: Result<seq<u64>>)
      requires Valid()
      modifies core.gpi, core.spm, memory.Buffers()
      ensures
        match Loader.AddArguments(old(core.Snapshot()), args)
        case Ok(after) => r == Ok(after.1) && core.Snapshot() == after.0
        case Err(e) => r == Err(e)
    {
      hide Loader.AddArgument;
      ghost var s := core.Snapshot();
      var buffer: seq<u64> := [];
      for i := 0 to |args|
        invariant Loader.AddArguments(s, args[..i]) == Ok((core.Snapshot(), buffer))
      {
        assert args[..i + 1][..i] == args[..i];
        var addr := AddArgument(args[i]);
        if addr.Err? {
          FailedArgumentsFail(s, args, i + 1);
          return Err(addr.error);
        }
        buffer := buffer + [addr.value];
      }
      assert args[..|args|] == args;
      return Ok(buffer);
    }

    method LoadHostArgv(programName: Bytes, argv: seq<Bytes>) returns (r: Result<()>)
      requires Valid()
      modifies core.gpi, core.spm, memory.Buffers()
      ensures
        match Loader.LoadHostArgv(old(core.Snapshot()), programName, argv)
        case Ok(after) => r == Ok(()) && core.Snapshot() == after
        case Err(e) => r == Err(e)
    {
      hide WriteMem, Loader.Alloca, Loader.AddArguments, Pack, IntCast;
      var buffer := AddArguments([programName] + argv);
      if buffer.Err? {
        return Err(buffer.error);
      }
      var table := buffer.value + [0];
      var addr := Alloca(8 * |table|);
      var ok := memory.Store(core.spm, addr, Pack(table, 8));
      if !ok {
        return Err(OutsideBank);
      }
      PassArguments(IntCast(|argv| + 1), addr);
      return Ok(());
    }

    /** argc in r1, argv in r2. */
    method PassArguments(count: u64, table: u64)
      requires Valid()
      modifies core.gpi
      ensures var s := old(core.Snapshot()); core.Snapshot() == s.(gpi := s.gpi[1 := count][2 := table])
    {
      core.gpi[1] := count;
      core.gpi[2] := table;
    }

    method LoadHostedProgram(sections: seq<Section>, symbols: seq<Symbol>, programName: Bytes, argv: seq<Bytes>)
      returns (r: Result<()>)
      requires Valid() && Sized(sections)
      modifies core`pc, core.gpi, core.spm, memory.Buffers()
      ensures
        match LoadHosted(old(core.Snapshot()), sections, symbols, programName, argv)
        case Ok(after) => r == Ok(()) && core.Snapshot() == after
        case Err(e) => r == Err(e)
    {
      hide EntryPoint, Loader.LoadSections, Loader.SetupStack, Loader.WriteEntryCode, Loader.LoadHostArgv;
      var entry := GetEntryPoint(symbols, "main");
      if entry.Err? {
        return Err(entry.error);
      }
      var bounds := LoadSections(sections, entry.value);
      if bounds.Err? {
        return Err(bounds.error);
      }
      var stackEnd := SetupStack(bounds.value);
      if stackEnd.Err? {
        return Err(stackEnd.error);
      }
      var stub := WriteEntryCode(entry.value.value, stackEnd.value);
      if stub.Err? {
        return stub;
      }
      r := LoadHostArgv(programName, argv);
    }

    // -------------------------------------------------------------- stepping

    /** An instruction word read straight from WRAM. */
    method Fetch(index: nat) returns (r: Result<u32>)
      requires Valid()
      ensures r == FetchWord(core.Snapshot().mem, index)
    {
      hide FromBytes, Pow2, Bitwise;
      BaseOfWram(core.Snapshot().mem);
      var at := wramBegin + 4 * index;
      if at + 4 > memory.wram.Length {
        return Err(OutsideBank);
      }
      var bytes := memory.wram[at..at + 4];
      FromBytesBound(bytes);
      Pow2Values();
      return Ok(FromBytes(bytes));
    }

    /** Fetches and runs one bundle and does the bookkeeping. */
    method Execute() returns (ok: bool)
      requires Valid()
      modifies core, core.gpi, core.gpf, core.mdu, core.spm, memory.Buffers()
      ensures ok == Step(old(core.Snapshot())).Ok?
      ensures ok ==> core.Snapshot() == Step(old(core.Snapshot())).value
    {
      hide FetchWord, ExecuteUnits, Instructions.Account;
      var realPc := core.pc % 0x8000_0000;
      var first := Fetch(realPc);
      var second := Fetch(realPc + 1);
      if first.Err? || second.Err? {
        return false;
      }
      var count: nat;
      ok, count := core.Execute(first.value, second.value);
      if ok {
        Account(count);
      }
    }

    method Account(count: nat)
      requires Valid()
      modifies core`cc, core`ic, core`pc
      ensures core.Snapshot() == Instructions.Account(old(core.Snapshot()), count)
    {
      hide Bitwise;
      core.cc := (core.cc + 1) % TWO32;
      core.ic := (core.ic + count) % TWO32;
      core.pc := (core.pc + count) % TWO32;
    }
  }
}
