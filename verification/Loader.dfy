/** Building the guest image of a hosted program: sections, stack, entry stub, arguments. */
module Loader {
  import opened Bits
  import opened Results
  import opened Memory
  import opened Machine

  type Bytes = seq<u8>

  datatype Section = Section(flags: u64, addr: u64, size: u64, content: Bytes)

  datatype Symbol = Symbol(name: string, value: u64, size: u64, kind: u32)

  datatype Bounds = Bounds(begin: u64, end: u64)

  const SHF_ALLOC: u64 := 0x02
  const STT_FUNC: u32 := 2
  const STACK_SIZE: nat := 0x10_0000
  const ENTRY_CODE_SIZE: nat := 32

  predicate Allocated(x: Section) { And(x.flags, SHF_ALLOC) != 0 }

  // ---------------------------------------------------------------- entry point

  /** The last symbol of that name. */
  function LastNamed(symbols: seq<Symbol>, name: string): Result<Symbol> {
    if |symbols| == 0 then Err(NoEntryPoint)
    else if symbols[|symbols| - 1].name == name then Ok(symbols[|symbols| - 1])
    else LastNamed(symbols[..|symbols| - 1], name)
  }

  function EntryPoint(symbols: seq<Symbol>, name: string): Result<Symbol> {
    var symbol :- LastNamed(symbols, name);
    if symbol.kind != STT_FUNC then Err(EntryNotAFunction) else Ok(symbol)
  }

  // ---------------------------------------------------------------- sections

  predicate Covers(x: Section, entry: Symbol) {
    x.addr <= entry.value && Add64(x.addr, x.size) >= Add64(entry.value, entry.size)
  }

  datatype Loaded = Loaded(state: State, bounds: seq<Bounds>, covered: bool)

  function LoadOne(l: Loaded, x: Section, entry: Symbol): Result<Loaded>
    requires |x.content| < TWO64
  {
    if !Allocated(x) then Ok(l)
    else if Add64(x.addr, |x.content|) > |l.state.mem.wram| then Err(NotEnoughMemory)
    else
      var mem :- WriteMem(l.state.mem, Add64(WRAM_BEGIN, x.addr), x.content);
      Ok(Loaded(l.state.(mem := mem),
                l.bounds + [Bounds(x.addr, Add64(x.addr, |x.content|))],
                l.covered || Covers(x, entry)))
  }

  /** The lengths a 64-bit host can hold. */
  predicate Sized(sections: seq<Section>) { forall i | 0 <= i < |sections| :: |sections[i].content| < TWO64 }

  function LoadEach(s: State, sections: seq<Section>, entry: Symbol): Result<Loaded>
    requires Sized(sections)
  {
    if |sections| == 0 then Ok(Loaded(s, [], false))
    else
      var l :- LoadEach(s, sections[..|sections| - 1], entry);
      LoadOne(l, sections[|sections| - 1], entry)
  }

  function LoadSections(s: State, sections: seq<Section>, entry: Symbol): Result<(State, seq<Bounds>)>
    requires Sized(sections)
  {
    var l :- LoadEach(s, sections, entry);
    if !l.covered then Err(EntryNotAllocated)
    else Ok((l.state.(pc := entry.value / 4 % TWO32), l.bounds))
  }

  // ---------------------------------------------------------------- stack

  function Max(a: nat, b: nat): nat { if a > b then a else b }

  function TotalEnd(bounds: seq<Bounds>): (e: u64)
    ensures forall i | 0 <= i < |bounds| :: bounds[i].end <= e
  {
    if |bounds| == 0 then 0
    else Max(TotalEnd(bounds[..|bounds| - 1]), bounds[|bounds| - 1].end)
  }

  /** The next multiple of 64 KiB above. */
  function AlignedEnd(end: u64): u64 { (end / 0x1_0000 + 1) * 0x1_0000 % TWO64 }

  function StackEnd(bounds: seq<Bounds>): u64 { Add64(AlignedEnd(TotalEnd(bounds)), STACK_SIZE) }

  function SetupStack(s: State, bounds: seq<Bounds>): Result<(State, u64)> {
    var end := StackEnd(bounds);
    if |s.mem.wram| < end then Err(NoRoomForStack)
    else Ok((s.(gpi := s.gpi[0 := (WRAM_BEGIN + end - 8) % TWO64]), end))
  }

  // ---------------------------------------------------------------- entry stub

  function EntryWords(mainPc: u32): (ws: seq<nat>)
    ensures |ws| == 8
  {
    [Or(0x0000_00FB, mainPc % 0x100_0000 * 0x100),
     mainPc / 0x100_0000 % 0x80 * 0x100,
     0x0000_0000, 0x0810_0620, 0x0000_0302, 0x0000_04FE, 0x0000_0000, 0x0000_0000]
  }

  /** Words of k bytes each, one after the other. */
  function Pack(ws: seq<nat>, k: nat): (b: Bytes)
    ensures |b| == k * |ws|
  {
    if |ws| == 0 then [] else Pack(ws[..|ws| - 1], k) + ToBytes(ws[|ws| - 1], k)
  }

  function WriteEntryCode(s: State, mainAddr: u64, entryAddr: u64): Result<State> {
    if |s.mem.wram| < Add64(entryAddr, ENTRY_CODE_SIZE) then Err(NoRoomForEntryCode)
    else
      var mem :- WriteMem(s.mem, Add64(WRAM_BEGIN, entryAddr), Pack(EntryWords(mainAddr / 4 % TWO32), 4));
      Ok(s.(mem := mem, pc := entryAddr / 4 % TWO32))
  }

  // ---------------------------------------------------------------- arguments

  function Alloca(s: State, size: nat): State { s.(gpi := s.gpi[0 := (s.gpi[0] - size) % TWO64]) }

  /** Carves a block off the stack and puts the NUL-terminated string there. */
  function AddArgument(s: State, arg: Bytes): Result<State> {
    var t := Alloca(s, |arg| + 1);
    var mem :- WriteMem(t.mem, t.gpi[0], arg + [0]);
    Ok(t.(mem := mem))
  }

  function AddArguments(s: State, args: seq<Bytes>): Result<(State, seq<u64>)> {
    if |args| == 0 then Ok((s, []))
    else
      var (t, addrs) :- AddArguments(s, args[..|args| - 1]);
      var u :- AddArgument(t, args[|args| - 1]);
      Ok((u, addrs + [u.gpi[0]]))
  }

  /** A size cast to int and widened again. */
  function IntCast(n: nat): u64 {
    var low := n % TWO32;
    if low < 0x8000_0000 then low else low + (TWO64 - TWO32)
  }

  function LoadHostArgv(s: State, programName: Bytes, argv: seq<Bytes>): Result<State> {
    hide WriteMem, AddArguments, Pack, IntCast;
    var (t, addrs) :- AddArguments(s, [programName] + argv);
    var u := Alloca(t, 8 * (|addrs| + 1));
    var mem :- WriteMem(u.mem, u.gpi[0], Pack(addrs + [0], 8));
    Ok(u.(mem := mem, gpi := u.gpi[1 := IntCast(|argv| + 1)][2 := u.gpi[0]]))
  }

  // ---------------------------------------------------------------- the whole loader

  function LoadHosted(s: State, sections: seq<Section>, symbols: seq<Symbol>, programName: Bytes, argv: seq<Bytes>)
    : Result<State>
    requires Sized(sections)
  {
    var entry :- EntryPoint(symbols, "main");
    var (s1, bounds) :- LoadSections(s, sections, entry);
    var (s2, stackEnd) :- SetupStack(s1, bounds);
    var s3 :- WriteEntryCode(s2, entry.value, stackEnd);
    LoadHostArgv(s3, programName, argv)
  }

  /** Symbol i is the last one of that name. */
  predicate IsLastNamed(symbols: seq<Symbol>, name: string, i: nat) {
    i < |symbols| && symbols[i].name == name && forall j | i < j < |symbols| :: symbols[j].name != name
  }

  lemma {:induction false} LastNamedIff(symbols: seq<Symbol>, name: string)
    ensures LastNamed(symbols, name).Err? <==> forall j | 0 <= j < |symbols| :: symbols[j].name != name
    ensures forall i: nat | IsLastNamed(symbols, name, i) :: LastNamed(symbols, name) == Ok(symbols[i])
  {
    if |symbols| > 0 && symbols[|symbols| - 1].name != name {
      LastNamedIff(symbols[..|symbols| - 1], name);
      assert forall i: nat | IsLastNamed(symbols, name, i) :: IsLastNamed(symbols[..|symbols| - 1], name, i);
    }
  }

  /** The entry point is the last symbol of that name, and only when that one is a function. */
  lemma EntryPointIff(symbols: seq<Symbol>, name: string, i: nat)
    requires IsLastNamed(symbols, name, i)
    ensures EntryPoint(symbols, name) ==
      if symbols[i].kind == 2 then Ok(symbols[i]) else Err(EntryNotAFunction)
  {
    LastNamedIff(symbols, name);
  }
}
