/** The argv image: strings and table carved downwards off the guest stack. */
module Arguments {
  import opened Bits
  import opened Results
  import opened Memory
  import opened Machine
  import opened Loader
  import opened Sections
  import Footprint
  import LoadStore

  /** Bytes taken by the strings with their terminators. */
  function Used(args: seq<Bytes>): nat {
    if |args| == 0 then 0 else Used(args[..|args| - 1]) + |args[|args| - 1]| + 1
  }

  lemma {:induction false} UsedMonotone(args: seq<Bytes>, i: nat, j: nat)
    requires i < j <= |args|
    ensures Used(args[..i]) + |args[i]| + 1 == Used(args[..i + 1]) <= Used(args[..j])
    decreases j
  {
    assert args[..i + 1][..i] == args[..i];
    if i + 1 < j {
      UsedMonotone(args, i, j - 1);
      assert args[..j][..j - 1] == args[..j - 1];
    }
  }

  /** The guest stack pointer is a WRAM address at offset top. */
  ghost predicate StackAt(s: State, top: nat) { top <= |s.mem.wram| && s.gpi[0] == WRAM_BEGIN + top }

  ghost predicate StringAt(wram: Bytes, d: nat, arg: Bytes) { Holding(wram, d, arg + [0]) }

  /** String i sits right below the strings before it. */
  ghost predicate PlacedAt(wram: Bytes, top: nat, args: seq<Bytes>, addrs: seq<u64>, i: nat)
    requires i < |args| == |addrs|
  {
    var used := Used(args[..i + 1]);
    used <= top && addrs[i] == WRAM_BEGIN + (top - used) && StringAt(wram, top - used, args[i])
  }

  /** The strings, in order, each at its own place below top. */
  ghost predicate StringsPlaced(wram: Bytes, top: nat, args: seq<Bytes>, addrs: seq<u64>) {
    |addrs| == |args| && Used(args) <= top && forall i: nat | i < |args| :: PlacedAt(wram, top, args, addrs, i)
  }

  ghost predicate SameOutside(before: Bytes, after: Bytes, lo: nat, hi: nat) {
    |before| == |after| && forall k: nat | k < |before| && !(lo <= k < hi) :: before[k] == after[k]
  }

  lemma AllocaFlat(s: State, top: nat, n: nat)
    requires FlatWram(s.mem) && StackAt(s, top) && n <= top
    ensures Alloca(s, n) == s.(gpi := s.gpi[0 := WRAM_BEGIN + (top - n)]) && StackAt(Alloca(s, n), top - n)
  {
  }

  lemma AddArgumentFlat(s: State, top: nat, arg: Bytes)
    requires FlatWram(s.mem) && StackAt(s, top) && |arg| + 1 <= top
    ensures var d := top - (|arg| + 1);
      AddArgument(s, arg) ==
        Ok(s.(gpi := s.gpi[0 := WRAM_BEGIN + d], mem := s.mem.(wram := Splice(s.mem.wram, d, arg + [0]))))
  {
    hide WriteMem;
    var d := top - (|arg| + 1);
    AllocaFlat(s, top, |arg| + 1);
    FlatWrite(s.mem, d, arg + [0]);
    assert Add64(WRAM_BEGIN, d) == WRAM_BEGIN + d;
  }

  /** Writing below all the strings damages none of them. */
  lemma StaysPlaced(wram: Bytes, d: nat, bytes: Bytes, top: nat, args: seq<Bytes>, addrs: seq<u64>, i: nat)
    requires i < |args| == |addrs| && PlacedAt(wram, top, args, addrs, i)
    requires Used(args) <= top <= |wram| && d + |bytes| <= top - Used(args)
    ensures PlacedAt(Splice(wram, d, bytes), top, args, addrs, i)
  {
    hide Splice, Used, Holding;
    UsedMonotone(args, i, |args|);
    assert args[..|args|] == args;
    SpliceKeeps(wram, d, bytes, top - Used(args[..i + 1]), args[i] + [0]);
  }

  lemma WidenPlaced(wram: Bytes, top: nat, args: seq<Bytes>, addrs: seq<u64>, arg: Bytes, p: u64, i: nat)
    requires i < |args| == |addrs| && PlacedAt(wram, top, args, addrs, i)
    ensures PlacedAt(wram, top, args + [arg], addrs + [p], i)
  {
    hide Used, StringAt;
    assert (args + [arg])[..i + 1] == args[..i + 1];
  }

  lemma UsedPlus(args: seq<Bytes>, arg: Bytes)
    ensures Used(args + [arg]) == Used(args) + |arg| + 1
  {
    var all := args + [arg];
    assert all[..|all| - 1] == args;
  }

  lemma PrefixPlaced(wram: Bytes, top: nat, args: seq<Bytes>, addrs: seq<u64>, arg: Bytes, p: u64)
    requires StringsPlaced(wram, top, args, addrs) && top <= |wram| && Used(args) + |arg| + 1 <= top
    requires p == WRAM_BEGIN + (top - Used(args + [arg]))
    ensures Used(args + [arg]) == Used(args) + |arg| + 1
    ensures StringsPlaced(Splice(wram, top - Used(args + [arg]), arg + [0]), top, args + [arg], addrs + [p])
  {
    hide Splice, PlacedAt, Used;
    UsedPlus(args, arg);
    var d, all, ps := top - Used(args + [arg]), args + [arg], addrs + [p];
    var w := Splice(wram, d, arg + [0]);
    forall i: nat | i < |all| ensures PlacedAt(w, top, all, ps, i) {
      if i < |args| {
        StaysPlaced(wram, d, arg + [0], top, args, addrs, i);
        WidenPlaced(w, top, args, addrs, arg, p, i);
      } else {
        JustPlaced(wram, top, all, ps, d);
      }
    }
  }

  lemma JustPlaced(wram: Bytes, top: nat, args: seq<Bytes>, addrs: seq<u64>, d: nat)
    requires |args| == |addrs| > 0 && top <= |wram|
    requires Used(args) <= top && d == top - Used(args) && d + |args[|args| - 1]| + 1 <= |wram|
    requires addrs[|args| - 1] == WRAM_BEGIN + d
    ensures PlacedAt(Splice(wram, d, args[|args| - 1] + [0]), top, args, addrs, |args| - 1)
  {
    hide Used;
    assert args[..|args|] == args;
  }

  /** Any list of strings that fits below top: every string ends up whole at its own place, each
      below the one before; sp has come down by exactly the bytes used; nothing else has changed. */
  lemma {:induction false} AddArgumentsSpec(s: State, top: nat, args: seq<Bytes>)
    requires FlatWram(s.mem) && StackAt(s, top) && Used(args) <= top
    ensures AddArguments(s, args).Ok?
    ensures var (t, addrs) := AddArguments(s, args).value;
      && StringsPlaced(t.mem.wram, top, args, addrs)
      && SameOutside(s.mem.wram, t.mem.wram, top - Used(args), top)
      && t == s.(gpi := s.gpi[0 := WRAM_BEGIN + (top - Used(args))], mem := s.mem.(wram := t.mem.wram))
  {
    hide StringsPlaced, AddArgument, Splice;
    if |args| == 0 {
      NothingPlaced(s, top);
    } else {
      var q, arg := args[..|args| - 1], args[|args| - 1];
      assert q + [arg] == args;
      AddArgumentsSpec(s, top, q);
      var (t, addrs) := AddArguments(s, q).value;
      var low := top - Used(q);
      AddArgumentFlat(t, low, arg);
      UsedPlus(q, arg);
      PrefixPlaced(t.mem.wram, top, q, addrs, arg, WRAM_BEGIN + (top - Used(args)));
      SpliceOutside(s.mem.wram, t.mem.wram, low - (|arg| + 1), low, top, arg + [0]);
    }
  }

  lemma NothingPlaced(s: State, top: nat)
    requires StackAt(s, top)
    ensures StringsPlaced(s.mem.wram, top, [], [])
    ensures s == s.(gpi := s.gpi[0 := WRAM_BEGIN + top], mem := s.mem.(wram := s.mem.wram))
  {
    assert s.gpi == s.gpi[0 := WRAM_BEGIN + top];
  }

  lemma SpliceOutside(before: Bytes, wram: Bytes, d: nat, low: nat, top: nat, bytes: Bytes)
    requires d <= low <= top <= |wram| && SameOutside(before, wram, low, top) && |bytes| == low - d
    ensures SameOutside(before, Splice(wram, d, bytes), d, top)
  {
  }

  // ---------------------------------------------------------------- the table

  lemma {:induction false} PackedWord(ws: seq<nat>, k: nat, i: nat)
    requires i < |ws| && (k == 4 || k == 8)
    ensures Pack(ws, k)[k * i..k * i + k] == ToBytes(ws[i], k)
  {
    hide ToBytes;
    var q, all := ws[..|ws| - 1], Pack(ws, k);
    if i < |q| {
      PackedWord(q, k, i);
      if k == 4 {
        assert all[4 * i..4 * i + 4] == Pack(q, k)[4 * i..4 * i + 4];
      } else {
        assert all[8 * i..8 * i + 8] == Pack(q, k)[8 * i..8 * i + 8];
      }
    }
  }

  /** Room for the strings, the table with its final 0, and nothing below offset 0. */
  function ArgvSize(args: seq<Bytes>): nat { Used(args) + 8 * (|args| + 1) }

  ghost predicate TablePlaced(wram: Bytes, d: nat, addrs: seq<u64>) { Holding(wram, d, Pack(addrs + [0], 8)) }

  /** What LoadHostArgv leaves: strings, the table below them, and r0, r1, r2 pointing the way. */
  ghost predicate ArgvPlaced(s: State, t: State, top: nat, args: seq<Bytes>, addrs: seq<u64>)
    requires ArgvSize(args) <= top
  {
    var sp := top - ArgvSize(args);
    && WRAM_BEGIN + sp < TWO64
    && StringsPlaced(t.mem.wram, top, args, addrs)
    && TablePlaced(t.mem.wram, sp, addrs)
    && SameOutside(s.mem.wram, t.mem.wram, sp, top)
    && t == s.(mem := s.mem.(wram := t.mem.wram),
               gpi := s.gpi[0 := WRAM_BEGIN + sp][1 := IntCast(|args|)][2 := WRAM_BEGIN + sp])
  }

  lemma LoadHostArgvSpec(s: State, top: nat, programName: Bytes, argv: seq<Bytes>)
    requires FlatWram(s.mem) && StackAt(s, top)
    requires ArgvSize([programName] + argv) <= top
    ensures AddArguments(s, [programName] + argv).Ok? && LoadHostArgv(s, programName, argv).Ok?
    ensures ArgvPlaced(s, LoadHostArgv(s, programName, argv).value, top, [programName] + argv,
                       AddArguments(s, [programName] + argv).value.1)
  {
    hide StringsPlaced, AddArguments, Alloca, WriteMem, Splice, Pack, Used, IntCast, PowerSizes;
    var args := [programName] + argv;
    AddArgumentsSpec(s, top, args);
    var (t, addrs) := AddArguments(s, args).value;
    PlacedLength(t.mem.wram, top, args, addrs);
    StackInside(s, top);
    TableWritten(s, t, top, args, addrs);
  }

  /** s with the stack pointer at offset d and other contents in WRAM. */
  function Stacked(s: State, d: nat, wram: Bytes): State
    requires d <= 0x8000_0000
  {
    s.(gpi := s.gpi[0 := WRAM_BEGIN + d], mem := s.mem.(wram := wram))
  }

  lemma TableStack(s: State, t: State, top: nat, low: nat, n: nat)
    requires FlatWram(s.mem) && StackAt(s, top) && n <= low <= top <= 0x8000_0000 && |t.mem.wram| == |s.mem.wram|
    requires t == Stacked(s, low, t.mem.wram)
    ensures Alloca(t, n) == Stacked(s, low - n, t.mem.wram)
  {
    hide Alloca, FlatWram;
    FlatStays(s.(gpi := t.gpi), t);
    AllocaFlat(t, low, n);
    MoveStack(s, t, WRAM_BEGIN + low, WRAM_BEGIN + (low - n));
  }

  lemma WriteStacked(s: State, d: nat, wram: Bytes, bytes: Bytes)
    requires FlatWram(s.mem) && |wram| == |s.mem.wram| && d + |bytes| <= |wram| && d <= 0x8000_0000
    ensures var u := Stacked(s, d, wram);
      WriteMem(u.mem, u.gpi[0], bytes) == Ok(s.mem.(wram := Splice(wram, d, bytes)))
  {
    hide WriteMem, Splice, FlatWram;
    FlatStays(s, s.(mem := s.mem.(wram := wram)));
    FlatWriteAt(s.mem.(wram := wram), d, bytes);
  }

  lemma StackInside(s: State, top: nat)
    requires FlatWram(s.mem) && StackAt(s, top)
    ensures top <= 0x8000_0000
  {
  }

  /** The state once the table is written, before r1 and r2 are set. */
  lemma TableState(s: State, t: State, top: nat, args: seq<Bytes>, addrs: seq<u64>)
    requires FlatWram(s.mem) && StackAt(s, top) && ArgvSize(args) <= top <= 0x8000_0000 && |addrs| == |args|
    requires SameOutside(s.mem.wram, t.mem.wram, top - Used(args), top)
    requires t == Stacked(s, top - Used(args), t.mem.wram)
    ensures
      var u, sp := Alloca(t, 8 * (|addrs| + 1)), top - ArgvSize(args);
      var r := WriteMem(u.mem, u.gpi[0], Pack(addrs + [0], 8));
      && u == Stacked(s, sp, t.mem.wram)
      && r == Ok(s.mem.(wram := Splice(t.mem.wram, sp, Pack(addrs + [0], 8))))
  {
    hide Alloca, WriteMem, Splice, Pack, Used, FlatWram, SameOutside, ArgvSize, Stacked;
    var low, sp, n := top - Used(args), top - ArgvSize(args), 8 * (|addrs| + 1);
    assert low - n == sp by { TableBelow(args, addrs); }
    SameLengths(s.mem.wram, t.mem.wram, low, top);
    TableStack(s, t, top, low, n);
    WriteStacked(s, sp, t.mem.wram, Pack(addrs + [0], 8));
  }

  lemma TableBelow(args: seq<Bytes>, addrs: seq<u64>)
    requires |addrs| == |args|
    ensures Used(args) + 8 * (|addrs| + 1) == ArgvSize(args)
  {
  }

  lemma MoveStack(s: State, t: State, from: u64, to: u64)
    requires t == s.(gpi := s.gpi[0 := from], mem := t.mem)
    ensures t.(gpi := t.gpi[0 := to]) == s.(gpi := s.gpi[0 := to], mem := t.mem)
  {
    assert s.gpi[0 := from][0 := to] == s.gpi[0 := to];
  }

  lemma FlatWriteAt(m: Mem, d: nat, bytes: Bytes)
    requires FlatWram(m) && d + |bytes| <= |m.wram|
    ensures WRAM_BEGIN + d < TWO64
    ensures WriteMem(m, WRAM_BEGIN + d, bytes) == Ok(m.(wram := Splice(m.wram, d, bytes)))
  {
    hide WriteMem, Splice, FlatWram;
    FlatWrite(m, d, bytes);
    WramAddress(m, d);
  }

  lemma WramAddress(m: Mem, d: nat)
    requires FlatWram(m) && d <= |m.wram|
    ensures WRAM_BEGIN + d < TWO64 && Add64(WRAM_BEGIN, d) == WRAM_BEGIN + d
  {
  }

  lemma TableWritten(s: State, t: State, top: nat, args: seq<Bytes>, addrs: seq<u64>)
    requires FlatWram(s.mem) && StackAt(s, top) && ArgvSize(args) <= top <= 0x8000_0000 && |addrs| == |args|
    requires StringsPlaced(t.mem.wram, top, args, addrs)
    requires SameOutside(s.mem.wram, t.mem.wram, top - Used(args), top)
    requires t == Stacked(s, top - Used(args), t.mem.wram)
    ensures
      var u := Alloca(t, 8 * (|addrs| + 1));
      var r := WriteMem(u.mem, u.gpi[0], Pack(addrs + [0], 8));
      && r.Ok?
      && ArgvPlaced(s, u.(mem := r.value, gpi := u.gpi[1 := IntCast(|args|)][2 := u.gpi[0]]), top, args, addrs)
  {
    hide StringsPlaced, Alloca, WriteMem, Splice, Pack, Used, IntCast, FlatWram, TablePlaced, SameOutside, ArgvPlaced;
    hide Stacked;
    var sp, table := top - ArgvSize(args), Pack(addrs + [0], 8);
    TableState(s, t, top, args, addrs);
    TableAdded(s.mem.wram, t.mem.wram, top, args, addrs);
    ArgumentsPassed(s, sp, t.mem.wram, Splice(t.mem.wram, sp, table), top, args, addrs);
  }

  lemma TableAdded(before: Bytes, wram: Bytes, top: nat, args: seq<Bytes>, addrs: seq<u64>)
    requires ArgvSize(args) <= top <= |before| && |addrs| == |args|
    requires StringsPlaced(wram, top, args, addrs) && SameOutside(before, wram, top - Used(args), top)
    ensures |wram| == |before|
    ensures
      var sp := top - ArgvSize(args);
      var after := Splice(wram, sp, Pack(addrs + [0], 8));
      StringsPlaced(after, top, args, addrs) && TablePlaced(after, sp, addrs) && SameOutside(before, after, sp, top)
  {
    hide StringsPlaced, Splice, Pack, Used, TablePlaced, SameOutside, ArgvSize;
    var low, sp, table := top - Used(args), top - ArgvSize(args), Pack(addrs + [0], 8);
    TableBelow(args, addrs);
    SameLengths(before, wram, low, top);
    TableBelowStrings(wram, sp, table, low, top, args, addrs);
    SpliceOutside(before, wram, sp, low, top, table);
    TablePresent(wram, sp, addrs);
  }

  lemma SameLengths(before: Bytes, wram: Bytes, lo: nat, hi: nat)
    requires SameOutside(before, wram, lo, hi)
    ensures |wram| == |before|
  {
  }

  /** r1 and r2 set on top of the written table. */
  lemma ArgumentsPassed(s: State, sp: nat, wram: Bytes, after: Bytes, top: nat, args: seq<Bytes>, addrs: seq<u64>)
    requires ArgvSize(args) <= top <= 0x8000_0000 && sp == top - ArgvSize(args)
    requires StringsPlaced(after, top, args, addrs) && TablePlaced(after, sp, addrs)
    requires SameOutside(s.mem.wram, after, sp, top)
    ensures
      var u := Stacked(s, sp, wram);
      ArgvPlaced(s, u.(mem := s.mem.(wram := after), gpi := u.gpi[1 := IntCast(|args|)][2 := u.gpi[0]]),
                 top, args, addrs)
  {
    hide StringsPlaced, Used, IntCast, TablePlaced, SameOutside;
  }

  lemma TablePresent(wram: Bytes, d: nat, addrs: seq<u64>)
    requires d + 8 * (|addrs| + 1) <= |wram|
    ensures TablePlaced(Splice(wram, d, Pack(addrs + [0], 8)), d, addrs)
  {
    hide Pack, Splice;
  }

  lemma PlacedLength(wram: Bytes, top: nat, args: seq<Bytes>, addrs: seq<u64>)
    requires StringsPlaced(wram, top, args, addrs)
    ensures |addrs| == |args|
  {
  }

  lemma TableBelowStrings(wram: Bytes, d: nat, table: Bytes, low: nat, top: nat, args: seq<Bytes>, addrs: seq<u64>)
    requires StringsPlaced(wram, top, args, addrs) && low == top - Used(args) && top <= |wram|
    requires d + |table| == low
    ensures StringsPlaced(Splice(wram, d, table), top, args, addrs)
  {
    hide Splice, PlacedAt, Used;
    forall i: nat | i < |args| ensures PlacedAt(Splice(wram, d, table), top, args, addrs, i) {
      StaysPlaced(wram, d, table, top, args, addrs, i);
    }
  }

  /** The blocks carved for the strings are strictly descending and never overlap. */
  lemma BlocksDescend(top: nat, wram: Bytes, args: seq<Bytes>, addrs: seq<u64>, i: nat, j: nat)
    requires StringsPlaced(wram, top, args, addrs) && i < j < |args|
    ensures addrs[j] + |args[j]| + 1 <= addrs[i]
  {
    UsedMonotone(args, j, |args|);
    UsedMonotone(args, i, j);
    UsedMonotone(args, i, |args|);
    assert args[..|args|] == args;
    assert PlacedAt(wram, top, args, addrs, i) && PlacedAt(wram, top, args, addrs, j);
  }

  // ---------------------------------------------------------------- the image as bytes

  /** The strings from the lowest address up: the last one first. */
  function StringBytes(args: seq<Bytes>): (b: Bytes)
    ensures |b| == Used(args)
  {
    if |args| == 0 then [] else args[|args| - 1] + [0] + StringBytes(args[..|args| - 1])
  }

  /** Where the guest finds the strings. */
  function Addresses(args: seq<Bytes>, top: nat): (addrs: seq<u64>)
    ensures |addrs| == |args|
  {
    if |args| == 0 then []
    else Addresses(args[..|args| - 1], top) + [(WRAM_BEGIN + top - Used(args)) % TWO64]
  }

  /** Everything the arguments put on the stack, from the table up to top. */
  function ArgvBytes(args: seq<Bytes>, top: nat): (b: Bytes)
    ensures |b| == ArgvSize(args)
  {
    Pack(Addresses(args, top) + [0], 8) + StringBytes(args)
  }

  lemma HoldingConcat(wram: Bytes, d: nat, a: Bytes, b: Bytes)
    requires Holding(wram, d, a) && Holding(wram, d + |a|, b)
    ensures Holding(wram, d, a + b)
  {
    var m, e := d + |a|, d + |a| + |b|;
    assert wram[d..e] == wram[d..m] + wram[m..e];
  }

  lemma PlacedPrefix(wram: Bytes, top: nat, args: seq<Bytes>, addrs: seq<u64>)
    requires StringsPlaced(wram, top, args, addrs) && |args| > 0
    ensures var n := |args| - 1;
      StringsPlaced(wram, top, args[..n], addrs[..n]) && PlacedAt(wram, top, args, addrs, n) && args[..n + 1] == args
  {
    hide StringAt;
    var n := |args| - 1;
    assert args[..n + 1] == args;
    forall i: nat | i < n ensures PlacedAt(wram, top, args[..n], addrs[..n], i) {
      assert PlacedAt(wram, top, args, addrs, i);
      assert args[..n][..i + 1] == args[..i + 1];
    }
  }

  lemma {:induction false} StringsHold(wram: Bytes, top: nat, args: seq<Bytes>, addrs: seq<u64>)
    requires StringsPlaced(wram, top, args, addrs) && top <= |wram|
    ensures Holding(wram, top - Used(args), StringBytes(args)) && addrs == Addresses(args, top)
  {
    hide StringsPlaced, Holding;
    if |args| == 0 {
      NothingHeld(wram, top);
      PlacedLength(wram, top, args, addrs);
    } else {
      var n := |args| - 1;
      PlacedLength(wram, top, args, addrs);
      PlacedPrefix(wram, top, args, addrs);
      StringsHold(wram, top, args[..n], addrs[..n]);
      HoldingConcat(wram, top - Used(args), args[n] + [0], StringBytes(args[..n]));
      assert addrs == addrs[..n] + [addrs[n]];
    }
  }

  lemma NothingHeld(wram: Bytes, d: nat)
    requires d <= |wram|
    ensures Holding(wram, d, [])
  {
  }

  /** What LoadHostArgv leaves on the stack, byte by byte. */
  lemma ArgvHolds(s: State, t: State, top: nat, args: seq<Bytes>, addrs: seq<u64>)
    requires ArgvSize(args) <= top <= |t.mem.wram| && ArgvPlaced(s, t, top, args, addrs)
    ensures Holding(t.mem.wram, top - ArgvSize(args), ArgvBytes(args, top))
  {
    hide StringsPlaced, SameOutside, Holding, Used, IntCast, Addresses, StringBytes, Pack;
    StringsHold(t.mem.wram, top, args, addrs);
    HoldingConcat(t.mem.wram, top - ArgvSize(args), Pack(addrs + [0], 8), StringBytes(args));
  }

  // ---------------------------------------------------------------- which arguments are accepted

  /** The stack pointer n bytes further down. */
  function Below(sp: u64, n: nat): u64 { (sp - n) % TWO64 }

  /** Where string i goes, whatever the stack pointer is. */
  function BlockAddress(sp: u64, args: seq<Bytes>, i: nat): u64
    requires i < |args|
  {
    Below(sp, Used(args[..i + 1]))
  }

  /** Every string's block lies within the bank its address maps to. */
  predicate StringsAccepted(m: Mem, sp: u64, args: seq<Bytes>) {
    forall i: nat | i < |args| :: Holds(m, BlockAddress(sp, args, i), |args[i]| + 1)
  }

  predicate ArgvAccepted(m: Mem, sp: u64, args: seq<Bytes>) {
    && StringsAccepted(m, sp, args)
    && Holds(m, Below(sp, ArgvSize(args)), 8 * (|args| + 1))
  }

  lemma AcceptedPrefix(m: Mem, sp: u64, args: seq<Bytes>)
    requires |args| > 0
    ensures var n := |args| - 1;
      StringsAccepted(m, sp, args) <==>
        StringsAccepted(m, sp, args[..n]) && Holds(m, BlockAddress(sp, args, n), |args[n]| + 1)
  {
    hide Holds, Used;
    var q := args[..|args| - 1];
    forall i: nat | i < |q| ensures q[i] == args[i] && BlockAddress(sp, q, i) == BlockAddress(sp, args, i) {
      assert q[..i + 1] == args[..i + 1];
    }
  }

  lemma BelowTwice(sp: u64, a: nat, b: nat)
    ensures Below(Below(sp, a), b) == Below(sp, a + b)
  {
    MultipleApart((sp - a) % TWO64 - b, sp - a - b, -((sp - a) / TWO64), TWO64);
  }

  lemma LastBlock(sp: u64, q: seq<Bytes>, arg: Bytes)
    ensures BlockAddress(sp, q + [arg], |q|) == Below(sp, Used(q + [arg])) == Below(Below(sp, Used(q)), |arg| + 1)
  {
    hide Below, Used;
    assert (q + [arg])[..|q| + 1] == q + [arg];
    UsedPlus(q, arg);
    BelowTwice(sp, Used(q), |arg| + 1);
  }

  /** From any state, the strings get through exactly when each block is accepted. */
  lemma {:induction false} AddArgumentsIff(s: State, args: seq<Bytes>)
    ensures AddArguments(s, args).Ok? <==> StringsAccepted(s.mem, s.gpi[0], args)
    ensures AddArguments(s, args).Ok? ==>
      var (t, addrs) := AddArguments(s, args).value;
      SameSizes(s.mem, t.mem) && t.gpi[0] == Below(s.gpi[0], Used(args)) && |addrs| == |args|
  {
    hide AddArgument, StringsAccepted, Used, BlockAddress, Holds, SameSizes, Below;
    if |args| == 0 {
      NoArguments(s);
    } else {
      var q, arg := args[..|args| - 1], args[|args| - 1];
      AddArgumentsIff(s, q);
      AcceptedPrefix(s.mem, s.gpi[0], args);
      LastBlock(s.gpi[0], q, arg);
      assert q + [arg] == args;
      if AddArguments(s, q).Ok? {
        OneArgument(s.mem, AddArguments(s, q).value.0, arg);
      }
    }
  }

  lemma NoArguments(s: State)
    ensures AddArguments(s, []) == Ok((s, [])) && StringsAccepted(s.mem, s.gpi[0], []) && SameSizes(s.mem, s.mem)
    ensures s.gpi[0] == Below(s.gpi[0], Used([]))
  {
  }

  lemma OneArgument(m: Mem, t: State, arg: Bytes)
    requires SameSizes(m, t.mem)
    ensures var r, a := AddArgument(t, arg), Below(t.gpi[0], |arg| + 1);
      && (r.Ok? <==> Holds(m, a, |arg| + 1))
      && (r.Ok? ==> SameSizes(m, r.value.mem) && r.value.gpi[0] == a)
  {
    hide WriteMem, Holds;
    HoldsSizes(m, t.mem, Below(t.gpi[0], |arg| + 1), |arg| + 1);
  }

  /** From any state, the whole argv gets through exactly when each string and the table are accepted. */
  lemma LoadHostArgvIff(s: State, programName: Bytes, argv: seq<Bytes>)
    ensures LoadHostArgv(s, programName, argv).Ok? <==> ArgvAccepted(s.mem, s.gpi[0], [programName] + argv)
  {
    hide AddArguments, StringsAccepted, WriteMem, Holds, Pack, Used, IntCast;
    var args := [programName] + argv;
    AddArgumentsIff(s, args);
    if AddArguments(s, args).Ok? {
      var (t, addrs) := AddArguments(s, args).value;
      BelowTwice(s.gpi[0], Used(args), 8 * (|args| + 1));
      HoldsSizes(s.mem, t.mem, Below(s.gpi[0], ArgvSize(args)), 8 * (|args| + 1));
    }
  }

  // ---------------------------------------------------------------- wherever the blocks map to

  /** Block j, written after block i, maps to none of its bytes. */
  ghost predicate BlockSpared(m: Mem, sp: u64, args: seq<Bytes>, i: nat, j: nat)
    requires i < j < |args|
  {
    !LoadStore.Overlap(m, BlockAddress(sp, args, j), |args[j]| + 1, BlockAddress(sp, args, i), |args[i]| + 1)
  }

  ghost predicate StringsApart(m: Mem, sp: u64, args: seq<Bytes>) {
    forall i: nat, j: nat | i < j < |args| :: BlockSpared(m, sp, args, i, j)
  }

  ghost predicate TableApart(m: Mem, sp: u64, args: seq<Bytes>) {
    forall i: nat | i < |args| ::
      !LoadStore.Overlap(m, Below(sp, ArgvSize(args)), 8 * (|args| + 1), BlockAddress(sp, args, i), |args[i]| + 1)
  }

  lemma OverlapSizes(m: Mem, n: Mem, a: u64, x: nat, b: u64, y: nat)
    requires SameSizes(m, n)
    ensures LoadStore.Overlap(m, a, x, b, y) == LoadStore.Overlap(n, a, x, b, y)
  {
    hide SelectBank, OffsetMask, Bitwise;
    Footprint.OffsetFootprint(m, n, a);
    Footprint.OffsetFootprint(m, n, b);
  }

  lemma SamePrefixBlocks(sp: u64, q: seq<Bytes>, arg: Bytes, i: nat)
    requires i < |q|
    ensures (q + [arg])[i] == q[i] && BlockAddress(sp, q + [arg], i) == BlockAddress(sp, q, i)
  {
    hide Below, Used;
    assert (q + [arg])[..i + 1] == q[..i + 1];
  }

  lemma ApartPrefix(m: Mem, sp: u64, q: seq<Bytes>, arg: Bytes)
    requires StringsApart(m, sp, q + [arg])
    ensures StringsApart(m, sp, q)
  {
    hide BlockAddress, LoadStore.Overlap;
    forall i: nat, j: nat | i < j < |q| ensures BlockSpared(m, sp, q, i, j) {
      SamePrefixBlocks(sp, q, arg, i);
      SamePrefixBlocks(sp, q, arg, j);
      assert BlockSpared(m, sp, q + [arg], i, j);
    }
  }

  /** String i is whole at its block. */
  ghost predicate Readable(m: Mem, sp: u64, args: seq<Bytes>, i: nat)
    requires i < |args|
  {
    ReadMem(m, BlockAddress(sp, args, i), |args[i]| + 1) == Ok(args[i] + [0])
  }

  lemma NextArgument(m: Mem, t: State, sp: u64, q: seq<Bytes>, arg: Bytes, i: nat)
    requires SameSizes(m, t.mem) && t.gpi[0] == Below(sp, Used(q)) && AddArgument(t, arg).Ok? && i <= |q|
    requires i < |q| ==> Readable(t.mem, sp, q, i) && BlockSpared(m, sp, q + [arg], i, |q|)
    ensures Readable(AddArgument(t, arg).value.mem, sp, q + [arg], i)
  {
    hide BlockAddress, LoadStore.Overlap, ReadMem, WriteMem, Used, Below, Holds;
    LastBlock(sp, q, arg);
    var a := Below(t.gpi[0], |arg| + 1);
    assert a == Alloca(t, |arg| + 1).gpi[0] by { AllocaIsBelow(t, |arg| + 1); }
    if i < |q| {
      SamePrefixBlocks(sp, q, arg, i);
      OverlapSizes(m, t.mem, a, |arg| + 1, BlockAddress(sp, q, i), |q[i]| + 1);
      LoadStore.ReadOtherWrite(t.mem, a, arg + [0], BlockAddress(sp, q, i), |q[i]| + 1);
    } else {
      LoadStore.ReadOwnWrite(t.mem, a, arg + [0]);
    }
  }

  lemma AllocaIsBelow(t: State, n: nat)
    ensures Alloca(t, n) == t.(gpi := t.gpi[0 := Below(t.gpi[0], n)])
  {
  }

  /** From any state: the pointers are the block addresses, and a string that no later block maps over is whole. */
  lemma {:induction false} StringsReadable(s: State, args: seq<Bytes>, i: nat)
    requires AddArguments(s, args).Ok? && StringsApart(s.mem, s.gpi[0], args) && i < |args|
    ensures var (t, addrs) := AddArguments(s, args).value;
      && |addrs| == |args| && addrs[i] == BlockAddress(s.gpi[0], args, i)
      && Readable(t.mem, s.gpi[0], args, i)
  {
    hide AddArgument, StringsApart, Used, BlockAddress, SameSizes, Below, Readable, BlockSpared;
    var q, arg := args[..|args| - 1], args[|args| - 1];
    assert q + [arg] == args;
    AddArgumentsIff(s, q);
    AddArgumentsIff(s, args);
    ApartPrefix(s.mem, s.gpi[0], q, arg);
    LastBlock(s.gpi[0], q, arg);
    if i < |q| {
      StringsReadable(s, q, i);
      SamePrefixBlocks(s.gpi[0], q, arg, i);
      LastSpared(s.mem, s.gpi[0], args, i);
    }
    NextArgument(s.mem, AddArguments(s, q).value.0, s.gpi[0], q, arg, i);
  }

  lemma LastSpared(m: Mem, sp: u64, args: seq<Bytes>, i: nat)
    requires StringsApart(m, sp, args) && i < |args| - 1
    ensures BlockSpared(m, sp, args, i, |args| - 1)
  {
  }

  function BlockAddresses(sp: u64, args: seq<Bytes>): (addrs: seq<u64>)
    ensures |addrs| == |args| && forall i | 0 <= i < |args| :: addrs[i] == BlockAddress(sp, args, i)
  {
    seq<u64>(|args|, i requires 0 <= i < |args| => BlockAddress(sp, args, i))
  }

  /** A table of pointers ended by 0, and each string whole where its pointer leads. */
  ghost predicate ArgvWhole(m: Mem, sp: u64, args: seq<Bytes>) {
    && ReadMem(m, Below(sp, ArgvSize(args)), 8 * (|args| + 1)) == Ok(Pack(BlockAddresses(sp, args) + [0], 8))
    && forall i: nat | i < |args| :: Readable(m, sp, args, i)
  }

  /** From any state and for all accepted arguments whose blocks map to distinct bytes: r1 is argc, and r2 leads
      to the table of pointers and through them to the strings. */
  lemma ArgvReadable(s: State, programName: Bytes, argv: seq<Bytes>)
    requires LoadHostArgv(s, programName, argv).Ok?
    requires var args := [programName] + argv;
      StringsApart(s.mem, s.gpi[0], args) && TableApart(s.mem, s.gpi[0], args)
    ensures var args, t := [programName] + argv, LoadHostArgv(s, programName, argv).value;
      && t.gpi[1] == IntCast(|args|) && t.gpi[2] == Below(s.gpi[0], ArgvSize(args))
      && ArgvWhole(t.mem, s.gpi[0], args)
  {
    hide AddArguments, StringsApart, TableApart, WriteMem, Holds, Pack, Used, IntCast, Below, ArgvWhole;
    hide Readable, Alloca, SameSizes, BlockAddresses;
    var args, sp := [programName] + argv, s.gpi[0];
    AddArgumentsIff(s, args);
    var (t, addrs) := AddArguments(s, args).value;
    AllPointers(s, args);
    AllocaIsBelow(t, 8 * (|args| + 1));
    BelowTwice(sp, Used(args), 8 * (|args| + 1));
    TableWhole(s.mem, t.mem, sp, args);
  }

  lemma AllPointers(s: State, args: seq<Bytes>)
    requires AddArguments(s, args).Ok? && StringsApart(s.mem, s.gpi[0], args)
    ensures AddArguments(s, args).value.1 == BlockAddresses(s.gpi[0], args)
    ensures forall i: nat | i < |args| :: Readable(AddArguments(s, args).value.0.mem, s.gpi[0], args, i)
  {
    hide AddArguments, StringsApart, BlockAddress, Readable;
    AddArgumentsIff(s, args);
    forall i: nat | i < |args|
      ensures AddArguments(s, args).value.1[i] == BlockAddress(s.gpi[0], args, i)
      ensures Readable(AddArguments(s, args).value.0.mem, s.gpi[0], args, i)
    {
      StringsReadable(s, args, i);
    }
  }

  lemma TableWhole(m: Mem, n: Mem, sp: u64, args: seq<Bytes>)
    requires SameSizes(m, n) && TableApart(m, sp, args) && forall i: nat | i < |args| :: Readable(n, sp, args, i)
    requires Holds(n, Below(sp, ArgvSize(args)), 8 * (|args| + 1))
    ensures
      ArgvWhole(WriteMem(n, Below(sp, ArgvSize(args)), Pack(BlockAddresses(sp, args) + [0], 8)).value, sp, args)
  {
    hide TableApart, ReadMem, WriteMem, Holds, Pack, BlockAddresses, Below, Readable, SameSizes, ArgvSize;
    var table := Pack(BlockAddresses(sp, args) + [0], 8);
    LoadStore.ReadOwnWrite(n, Below(sp, ArgvSize(args)), table);
    forall i: nat | i < |args|
      ensures Readable(WriteMem(n, Below(sp, ArgvSize(args)), table).value, sp, args, i)
    {
      TableSpares(m, n, sp, args, table, i);
    }
  }

  lemma TableSpares(m: Mem, n: Mem, sp: u64, args: seq<Bytes>, table: Bytes, i: nat)
    requires SameSizes(m, n) && TableApart(m, sp, args) && |table| == 8 * (|args| + 1) && i < |args|
    requires Readable(n, sp, args, i) && Holds(n, Below(sp, ArgvSize(args)), |table|)
    ensures Readable(WriteMem(n, Below(sp, ArgvSize(args)), table).value, sp, args, i)
  {
    hide BlockAddress, LoadStore.Overlap, ReadMem, WriteMem, Used, Below, Holds;
    var a := Below(sp, ArgvSize(args));
    OverlapSizes(m, n, a, |table|, BlockAddress(sp, args, i), |args[i]| + 1);
    LoadStore.ReadOtherWrite(n, a, table, BlockAddress(sp, args, i), |args[i]| + 1);
  }

  /** The scratchpads are no larger than their address ranges. */
  ghost predicate SmallPads(m: Mem) { |m.spm2| <= 0x4000_0000 && |m.spmt| <= 0x4000_0000 }

  lemma BankSizes(m: Mem, b: Bank)
    requires FlatWram(m) && SmallPads(m)
    ensures |m.Of(b)| <= 0x8000_0000 && (b != Wram ==> |m.Of(b)| <= 0x4000_0000)
  {
  }

  /** A block that begins below WRAM and reaches into it is refused. */
  lemma StraddleRefused(m: Mem, below: nat, count: nat)
    requires FlatWram(m) && SmallPads(m) && 0 < below < count
    ensures !Holds(m, (WRAM_BEGIN - below) % TWO64, count)
  {
    hide SelectBank, Offset, Pow2, FlatWram, SmallPads;
    var a := (WRAM_BEGIN - below) % TWO64;
    BankSizes(m, SelectBank(a));
    if below <= 0x4000_0000 {
      BankByRange(a);
      EndsAtBank(m, below);
    } else if below <= 0x8000_0000 {
      BankByRange(a);
    }
  }

  /** Below WRAM_BEGIN, the scratchpad's bytes end where WRAM begins. */
  lemma EndsAtBank(m: Mem, below: nat)
    requires FlatWram(m) && SmallPads(m) && 0 < below <= 0x4000_0000
    ensures SelectBank(WRAM_BEGIN - below) == Spm2
    ensures Offset(m, WRAM_BEGIN - below) + below >= |m.spm2|
  {
    hide SelectBank, Offset, Bitwise, Pow2;
    BankByRange(WRAM_BEGIN - below);
    OffsetIsModulo(m, WRAM_BEGIN - below);
    var n := |m.spm2|;
    var k: nat :| n == Pow2(k);
    Pow2Values();
    if k > 30 {
      Pow2Monotone(31, k);
    }
    Pow2Add(k, 31 - k);
    CountDown(n, Pow2(31 - k), below);
  }

  lemma CountDown(n: nat, c: nat, below: nat)
    requires n > 0 && 0 < below <= n * c
    ensures (n * c - below) % n + below >= n
  {
    var d := n * c - below;
    var q := d / n;
    if q >= c {
      MulMonotone(n, c, q);
    }
    MulMonotone(n, q + 1, c);
  }

  /** No string starts exactly where WRAM begins, which would put the next block wholly below it. */
  predicate NoneAtBegin(args: seq<Bytes>, top: int) { forall i: nat | i <= |args| :: Used(args[..i]) != top }

  lemma {:induction false} AcceptedStringsFit(m: Mem, top: nat, args: seq<Bytes>)
    requires FlatWram(m) && SmallPads(m) && top <= |m.wram| && NoneAtBegin(args, top)
    requires WRAM_BEGIN + top < TWO64 && StringsAccepted(m, WRAM_BEGIN + top, args)
    ensures Used(args) < top
  {
    hide FlatWram, SmallPads, Holds;
    assert args[..|args|] == args && Used(args[..|args|]) != top;
    if |args| > 0 {
      var n := |args| - 1;
      var q := args[..n];
      assert forall i: nat | i <= |q| :: q[..i] == args[..i];
      AcceptedPrefix(m, WRAM_BEGIN + top, args);
      AcceptedStringsFit(m, top, q);
      if Used(args) > top {
        StraddleRefused(m, Used(args) - top, |args[n]| + 1);
      }
    }
  }

  lemma BlockInside(m: Mem, top: nat, used: nat, count: nat)
    requires FlatWram(m) && top <= |m.wram| && count <= used <= top
    ensures WRAM_BEGIN + top < TWO64 && Holds(m, Below(WRAM_BEGIN + top, used), count)
  {
    hide FlatWram, Holds;
    FlatSize(m);
    FlatWrite(m, top - used, seq<u8>(count, _ => 0));
  }

  /** With ordinary scratchpads and no block starting exactly at WRAM_BEGIN, arguments are accepted exactly
      when they fit. */
  lemma AcceptedMeansFit(m: Mem, top: nat, args: seq<Bytes>)
    requires FlatWram(m) && SmallPads(m) && top <= |m.wram| && NoneAtBegin(args, top)
    ensures WRAM_BEGIN + top < TWO64
    ensures ArgvAccepted(m, WRAM_BEGIN + top, args) <==> ArgvSize(args) <= top
  {
    hide FlatWram, SmallPads, Holds, NoneAtBegin, StringsAccepted, Used;
    FlatSize(m);
    if ArgvAccepted(m, WRAM_BEGIN + top, args) {
      AcceptedStringsFit(m, top, args);
      if ArgvSize(args) > top {
        StraddleRefused(m, ArgvSize(args) - top, 8 * (|args| + 1));
      }
    }
    if ArgvSize(args) <= top {
      FittingAccepted(m, top, args);
    }
  }

  lemma FittingAccepted(m: Mem, top: nat, args: seq<Bytes>)
    requires FlatWram(m) && top <= |m.wram| && ArgvSize(args) <= top
    ensures WRAM_BEGIN + top < TWO64 && ArgvAccepted(m, WRAM_BEGIN + top, args)
  {
    hide FlatWram, Holds, Used;
    FlatSize(m);
    forall i: nat | i < |args| ensures Holds(m, BlockAddress(WRAM_BEGIN + top, args, i), |args[i]| + 1) {
      UsedMonotone(args, i, |args|);
      assert args[..|args|] == args;
      BlockInside(m, top, Used(args[..i + 1]), |args[i]| + 1);
    }
    BlockInside(m, top, ArgvSize(args), 8 * (|args| + 1));
  }
}
