/** The four-word pre-decoder against splitting the instruction stream one bundle at a time. */
module PreDecoder {
  import opened Bits
  import O = Opcode

  datatype Pair = Pair(first: u32, second: u32)

  const EMPTY := Pair(0, 0)

  predicate Paired(w: u32) { O.IsPackage(w) }

  predicate IsBranch(w: u32) { 0x4C <= O.Operation(w) <= 0x5F }

  // ---------------------------------------------------------------- the greedy split

  /** One bundle after the other: a word with its pairing bit set takes the next word along. */
  function Split(ws: seq<u32>): seq<Pair> {
    if |ws| == 0 then []
    else if !Paired(ws[0]) || |ws| == 1 then [Pair(ws[0], 0)] + Split(ws[1..])
    else [Pair(ws[0], ws[1])] + Split(ws[2..])
  }

  /** No word in a second slot has its pairing bit set. */
  predicate WellPaired(ws: seq<u32>) {
    if |ws| == 0 then true
    else if !Paired(ws[0]) || |ws| == 1 then WellPaired(ws[1..])
    else !Paired(ws[1]) && WellPaired(ws[2..])
  }

  /** The stream does not stop in the middle of a bundle. */
  predicate Complete(ws: seq<u32>) {
    if |ws| == 0 then true
    else if !Paired(ws[0]) then Complete(ws[1..])
    else |ws| > 1 && Complete(ws[2..])
  }

  function Issued(ps: seq<Pair>): seq<Pair> {
    if |ps| == 0 then []
    else if ps[0] == EMPTY then Issued(ps[1..])
    else [ps[0]] + Issued(ps[1..])
  }

  /** The words a list of bundles stands for. */
  function Words(ps: seq<Pair>): seq<u32> {
    if |ps| == 0 then []
    else (if Paired(ps[0].first) then [ps[0].first, ps[0].second] else [ps[0].first]) + Words(ps[1..])
  }

  /** The split loses, repeats and reorders nothing. */
  lemma {:induction false} SplitKeepsWords(ws: seq<u32>)
    requires Complete(ws)
    ensures Words(Split(ws)) == ws
  {
    if |ws| > 0 {
      if !Paired(ws[0]) {
        SplitKeepsWords(ws[1..]);
      } else {
        SplitKeepsWords(ws[2..]);
      }
    }
  }

  lemma {:induction false} SplitConcat(a: seq<u32>, b: seq<u32>)
    requires Complete(a)
    ensures Split(a + b) == Split(a) + Split(b)
    ensures WellPaired(a + b) <==> WellPaired(a) && WellPaired(b)
    ensures Complete(a + b) <==> Complete(b)
  {
    if |a| == 0 {
      assert a + b == b;
    } else {
      var n := if Paired(a[0]) then 2 else 1;
      assert (a + b)[n..] == a[n..] + b;
      SplitConcat(a[n..], b);
    }
  }

  lemma {:induction false} IssuedConcat(a: seq<Pair>, b: seq<Pair>)
    ensures Issued(a + b) == Issued(a) + Issued(b)
  {
    if |a| == 0 {
      assert a + b == b;
    } else {
      assert (a + b)[1..] == a[1..] + b;
      IssuedConcat(a[1..], b);
    }
  }

  // ---------------------------------------------------------------- one window

  type Window = s: seq<u32> | |s| == 4 witness [0, 0, 0, 0]
  type Slots = s: seq<Pair> | |s| == 4 witness [EMPTY, EMPTY, EMPTY, EMPTY]

  function Pad(ps: seq<Pair>): Slots
    requires |ps| <= 4
    decreases 4 - |ps|
  {
    if |ps| == 4 then ps else Pad(ps + [EMPTY])
  }

  lemma {:induction false} SplitLength(ws: seq<u32>)
    ensures |Split(ws)| <= |ws|
    ensures |ws| == 4 ==> 2 <= |Split(ws)|
  {
    if |ws| > 0 {
      SplitLength(ws[1..]);
      if |ws| > 1 {
        SplitLength(ws[2..]);
      }
    }
  }

  /** The window split greedily. */
  function SpreadWindow(o: Window): Slots {
    SplitLength(o);
    Pad(Split(o))
  }

  /** A fourth word that starts a bundle is held back. */
  function PreDecoded(o: Window): Slots {
    var slots := SpreadWindow(o);
    if Paired(o[3]) then slots[if |Split(o)| == 4 then 3 else 2 := EMPTY] else slots
  }

  /** Words used up by a window. */
  function Consumed(o: Window): nat { if Paired(o[3]) then 3 else 4 }

  lemma SplitShort(a: u32, b: u32)
    ensures Split([a]) == [Pair(a, 0)] && (Complete([a]) <==> !Paired(a))
    ensures Split([a, b]) == if Paired(a) then [Pair(a, b)] else [Pair(a, 0), Pair(b, 0)]
    ensures Complete([a, b]) <==> Paired(a) || !Paired(b)
  {
    assert [a][1..] == [] && [a, b][1..] == [b] && [a, b][2..] == [] && [b][1..] == [];
  }

  lemma SplitThree(a: u32, b: u32, c: u32)
    ensures Split([a, b, c]) ==
      if Paired(a) then [Pair(a, b), Pair(c, 0)]
      else if Paired(b) then [Pair(a, 0), Pair(b, c)]
      else [Pair(a, 0), Pair(b, 0), Pair(c, 0)]
    ensures Complete([a, b, c]) <==> !Paired(c) || (!Paired(a) && Paired(b))
  {
    assert [a, b, c][1..] == [b, c] && [a, b, c][2..] == [c];
    SplitShort(b, c);
    SplitShort(c, 0);
  }

  lemma SplitFour(a: u32, b: u32, c: u32, d: u32)
    ensures Split([a, b, c, d]) ==
      if Paired(a) then if Paired(c) then [Pair(a, b), Pair(c, d)] else [Pair(a, b), Pair(c, 0), Pair(d, 0)]
      else if Paired(b) then [Pair(a, 0), Pair(b, c), Pair(d, 0)]
      else if Paired(c) then [Pair(a, 0), Pair(b, 0), Pair(c, d)]
      else [Pair(a, 0), Pair(b, 0), Pair(c, 0), Pair(d, 0)]
    ensures !Paired(d) ==> Complete([a, b, c, d])
    ensures WellPaired([a, b, c, d]) <==>
      if Paired(a) then !Paired(b) && (Paired(c) ==> !Paired(d))
      else if Paired(b) then !Paired(c) else Paired(c) ==> !Paired(d)
  {
    hide Paired;
    assert [a, b, c, d][1..] == [b, c, d] && [a, b, c, d][2..] == [c, d];
    assert [b, c, d][1..] == [c, d] && [b, c, d][2..] == [d];
    assert [c, d][1..] == [d] && [c, d][2..] == [] && [d][1..] == [];
    SplitThree(b, c, d);
    SplitShort(c, d);
    SplitShort(d, 0);
    PairedTail(c, d);
  }

  lemma PairedTail(c: u32, d: u32)
    ensures WellPaired([d]) && (WellPaired([c, d]) <==> (Paired(c) ==> !Paired(d)))
  {
    assert [c, d][1..] == [d] && [c, d][2..] == [] && [d][1..] == [];
  }

  lemma AllFour(o: Window)
    ensures o == [o[0], o[1], o[2], o[3]] && o[..3] == [o[0], o[1], o[2]]
  {
  }

  /** Slot by slot, what PreDecoded hands out. */
  function Slot(o: Window, i: nat): Pair {
    var (a, b, c, d) := (o[0], o[1], o[2], o[3]);
    if i == 0 then Pair(a, if Paired(a) then b else 0)
    else if i == 1 then
      if Paired(a) then Pair(c, if Paired(c) then d else 0) else Pair(b, if Paired(b) then c else 0)
    else if i == 2 then
      if Paired(d) && (Paired(a) || Paired(b) || Paired(c)) then EMPTY
      else if Paired(a) then if Paired(c) then EMPTY else Pair(d, 0)
      else if Paired(b) then Pair(d, 0)
      else Pair(c, if Paired(c) then d else 0)
    else if Paired(a) || Paired(b) || Paired(c) || Paired(d) then EMPTY else Pair(d, 0)
  }

  lemma SlotValues(o: Window)
    ensures forall i | 0 <= i < 4 :: PreDecoded(o)[i] == Slot(o, i)
  {
    hide Split, Paired;
    AllFour(o);
    SplitFour(o[0], o[1], o[2], o[3]);
    PadValues(Split(o));
  }

  lemma {:induction false} PadValues(ps: seq<Pair>)
    requires 2 <= |ps| <= 4
    ensures |ps| == 4 ==> Pad(ps) == ps
    ensures |ps| == 3 ==> Pad(ps) == ps + [EMPTY]
    ensures |ps| == 2 ==> Pad(ps) == ps + [EMPTY, EMPTY]
  {
    var longer := ps + [EMPTY];
    if |ps| == 2 {
      assert Pad(longer) == Pad(longer + [EMPTY]) && longer + [EMPTY] == ps + [EMPTY, EMPTY];
      assert Pad(ps + [EMPTY, EMPTY]) == ps + [EMPTY, EMPTY];
    } else if |ps| == 3 {
      assert Pad(longer) == longer;
    }
  }

  lemma SpreadValues(o: Window)
    ensures SpreadWindow(o) ==
      var (a, b, c, d) := (o[0], o[1], o[2], o[3]);
      if Paired(a) then
        if Paired(c) then [Pair(a, b), Pair(c, d), EMPTY, EMPTY] else [Pair(a, b), Pair(c, 0), Pair(d, 0), EMPTY]
      else if Paired(b) then [Pair(a, 0), Pair(b, c), Pair(d, 0), EMPTY]
      else if Paired(c) then [Pair(a, 0), Pair(b, 0), Pair(c, d), EMPTY]
      else [Pair(a, 0), Pair(b, 0), Pair(c, 0), Pair(d, 0)]
    ensures |Split(o)| == 4 <==> !Paired(o[0]) && !Paired(o[1]) && !Paired(o[2])
  {
    hide Split, Paired;
    AllFour(o);
    SplitFour(o[0], o[1], o[2], o[3]);
    PadValues(Split(o));
  }

  lemma {:induction false} IssuedPad(ps: seq<Pair>)
    requires |ps| <= 4
    ensures Issued(Pad(ps)) == Issued(ps)
    decreases 4 - |ps|
  {
    hide Issued;
    if |ps| < 4 {
      IssuedPad(ps + [EMPTY]);
      IssuedConcat(ps, [EMPTY]);
      IssuedEmpty();
    }
  }

  lemma IssuedEmpty()
    ensures Issued([EMPTY]) == []
  {
  }

  /** The window hands out the bundles of the words it uses up. */
  predicate WindowRight(o: Window) {
    Complete(o[..Consumed(o)]) && Issued(PreDecoded(o)) == Issued(Split(o[..Consumed(o)]))
  }

  /** A window is right exactly when its fourth word is not a second word with its pairing bit set. */
  lemma WindowRightIff(o: Window)
    ensures WindowRight(o) <==> Complete(o[..3]) || !Paired(o[3])
  {
    hide Split, Paired, Issued, Complete;
    AllFour(o);
    SplitFour(o[0], o[1], o[2], o[3]);
    SplitThree(o[0], o[1], o[2]);
    if !Paired(o[3]) {
      assert o[..4] == o;
      IssuedPad(Split(o));
    } else if Complete(o[..3]) {
      var q := Split(o[..3]);
      PadValues(Split(o));
      IssuedPad(q);
      PadHeldBack(o, q);
    }
  }

  lemma PadHeldBack(o: Window, q: seq<Pair>)
    requires Paired(o[3]) && Complete(o[..3]) && q == Split(o[..3])
    ensures |q| <= 4 && PreDecoded(o) == Pad(q)
  {
    hide Split, Paired, Complete;
    AllFour(o);
    SplitFour(o[0], o[1], o[2], o[3]);
    SplitThree(o[0], o[1], o[2]);
    PadValues(Split(o));
    PadValues(q);
  }

  // ---------------------------------------------------------------- branches

  /** Slots kept, words to rewind, and whether the next decode is skipped. */
  datatype Kept = Kept(slots: Slots, rewind: nat, delay: bool)

  function EliminateBranch(p: Slots): Kept {
    if IsBranch(p[0].first) then Kept(p[2 := EMPTY][3 := EMPTY], 0, true)
    else if IsBranch(p[1].first) then Kept(p[3 := EMPTY], 0, true)
    else if IsBranch(p[2].first) then Kept(p, 0, true)
    else if IsBranch(p[3].first) then Kept(p[3 := EMPTY], 1, true)
    else Kept(p, 0, false)
  }

  function Decode(o: Window): Kept {
    var k := EliminateBranch(PreDecoded(o));
    k.(rewind := k.rewind + (4 - Consumed(o)))
  }

  /** A decode rewinds pc by at most one word. */
  lemma RewindAtMostOne(o: Window)
    ensures Decode(o).rewind <= 1
  {
    hide PreDecoded;
    SlotValues(o);
    assert !IsBranch(0);
  }

  /** At most one bundle stays after the first branch, and a branch in the last slot waits for the next window. */
  lemma AtMostOneAfterBranch(o: Window, k: nat)
    requires k < 4 && IsBranch(PreDecoded(o)[k].first)
    requires forall i | 0 <= i < k :: !IsBranch(PreDecoded(o)[i].first)
    ensures Decode(o).delay && (forall m | k + 1 < m < 4 :: Decode(o).slots[m] == EMPTY)
    ensures k == 3 ==> Decode(o).slots[3] == EMPTY && Decode(o).rewind == 1
  {
    hide PreDecoded;
    SlotValues(o);
    assert !IsBranch(0);
  }

  /** A branch is a word whose operation is 76 to 95. */
  lemma BranchByOperation(w: u32)
    ensures IsBranch(w) <==> 76 <= w / 2 % 128 <= 95
  {
  }

  /** The first branch, the bundles before it and the one behind it stay as decoded; all others are cleared, a
      branch in the last slot included. */
  lemma BranchKeepsSlots(o: Window, k: nat)
    requires k < 4 && IsBranch(PreDecoded(o)[k].first)
    requires forall i | 0 <= i < k :: !IsBranch(PreDecoded(o)[i].first)
    ensures forall i | 0 <= i < 4 ::
      Decode(o).slots[i] == if i <= k + 1 && (i < 3 || k == 2) then PreDecoded(o)[i] else EMPTY
    ensures Decode(o).rewind == (if k == 3 then 1 else 0) + (4 - Consumed(o))
  {
    hide PreDecoded, IsBranch;
    var p := PreDecoded(o);
    assert p[2 := EMPTY][3 := EMPTY][0] == p[0] && p[2 := EMPTY][3 := EMPTY][1] == p[1];
  }

  /** Without a branch nothing is cleared and the next decode goes ahead. */
  lemma NoBranchKeepsAll(o: Window)
    requires forall i | 0 <= i < 4 :: !IsBranch(PreDecoded(o)[i].first)
    ensures Decode(o) == Kept(PreDecoded(o), 4 - Consumed(o), false)
  {
  }

  /** Where a window is wrong its fourth word starts the next one although it is the second word of a bundle:
      that bundle is issued all the same when the window starts with one, and is lost otherwise. */
  lemma WrongWindow(o: Window)
    requires Paired(o[3]) && !Complete(o[..3])
    ensures Consumed(o) == 3 && Paired(o[2])
    ensures PreDecoded(o) ==
      if Paired(o[0]) then [Pair(o[0], o[1]), Pair(o[2], o[3]), EMPTY, EMPTY]
      else [Pair(o[0], 0), Pair(o[1], 0), EMPTY, EMPTY]
  {
    hide Split, Paired, Complete;
    AllFour(o);
    SplitThree(o[0], o[1], o[2]);
    SpreadValues(o);
  }

  predicate BranchFree(ws: seq<u32>) { forall i | 0 <= i < |ws| :: !IsBranch(ws[i]) }

  lemma BranchFreeDecode(o: Window)
    requires BranchFree(o)
    ensures Decode(o) == Kept(PreDecoded(o), 4 - Consumed(o), false)
  {
    hide PreDecoded, IsBranch, Paired;
    SlotValues(o);
    ZeroIsNoBranch();
  }

  lemma ZeroIsNoBranch()
    ensures !IsBranch(0)
  {
  }

  // ---------------------------------------------------------------- streams

  /** n rounds of fetching four words and decoding them. */
  function Windows(wram: seq<u32>, pc: nat, n: nat): (seq<Pair>, nat)
    requires pc + 4 * n <= |wram|
    decreases n
  {
    if n == 0 then ([], pc)
    else
      RewindAtMostOne(wram[pc..pc + 4]);
      var k := Decode(wram[pc..pc + 4]);
      var (rest, end) := Windows(wram, pc + 4 - k.rewind, n - 1);
      (k.slots + rest, end)
  }

  lemma {:induction false} WellPairedWindow(ws: seq<u32>)
    requires |ws| >= 4 && WellPaired(ws)
    ensures Complete(ws[..3]) || !Paired(ws[3])
  {
    hide Paired;
    assert ws[..3] == [ws[0], ws[1], ws[2]];
    SplitThree(ws[0], ws[1], ws[2]);
    assert ws[1..][1..] == ws[2..];
    if !Paired(ws[0]) && !Paired(ws[1]) {
      assert WellPaired(ws[1..]) && WellPaired(ws[2..]);
    }
  }

  /** Over any branch-free stream whose second words have pairing bit 0, the windows issue, up to all-zero
      bundles, exactly the bundles of the one-at-a-time split, moving on by 3 or 4 words each. */
  lemma {:induction false} WindowsRefineSplit(wram: seq<u32>, pc: nat, n: nat)
    requires pc + 4 * n <= |wram| && BranchFree(wram) && WellPaired(wram[pc..])
    ensures var (issued, end) := Windows(wram, pc, n);
      && pc + 3 * n <= end <= pc + 4 * n
      && Issued(issued) == Issued(Split(wram[pc..end]))
      && Complete(wram[pc..end]) && WellPaired(wram[end..])
    decreases n
  {
    hide Split, Complete, WellPaired, Issued, PreDecoded, Decode, IsBranch;
    if n == 0 {
      NothingFetched(wram, pc);
    } else {
      var o := wram[pc..pc + 4];
      BranchFreeDecode(o);
      assert wram[pc..][..3] == o[..3];
      WellPairedWindow(wram[pc..]);
      WindowRightIff(o);
      var next := pc + Consumed(o);
      var head := wram[pc..next];
      assert head == o[..Consumed(o)];
      assert wram[pc..] == head + wram[next..];
      SplitConcat(head, wram[next..]);
      WindowsRefineSplit(wram, next, n - 1);
      var (rest, end) := Windows(wram, next, n - 1);
      assert wram[pc..end] == head + wram[next..end];
      SplitConcat(head, wram[next..end]);
      IssuedConcat(PreDecoded(o), rest);
      IssuedConcat(Split(head), Split(wram[next..end]));
    }
  }

  /** The words that are no empty operation. */
  function NonZero(ws: seq<u32>): seq<u32> {
    if |ws| == 0 then [] else (if ws[0] == 0 then [] else [ws[0]]) + NonZero(ws[1..])
  }

  lemma {:induction false} NonZeroConcat(a: seq<u32>, b: seq<u32>)
    ensures NonZero(a + b) == NonZero(a) + NonZero(b)
  {
    hide NonZero;
    if |a| == 0 {
      NonZeroNone(b);
      assert a == [];
    } else {
      NonZeroFirst(a);
      NonZeroFirst(a + b);
      assert (a + b)[1..] == a[1..] + b;
      NonZeroConcat(a[1..], b);
    }
  }

  lemma NonZeroNone(b: seq<u32>)
    ensures NonZero([]) == [] && [] + b == b
  {
  }

  lemma NonZeroFirst(ws: seq<u32>)
    requires |ws| > 0
    ensures NonZero(ws) == (if ws[0] == 0 then [] else [ws[0]]) + NonZero(ws[1..])
  {
  }

  lemma {:induction false} EmptyHoldsNothing(ps: seq<Pair>)
    ensures NonZero(Words(Issued(ps))) == NonZero(Words(ps))
  {
    hide Paired, NonZero;
    if |ps| > 0 {
      EmptyHoldsNothing(ps[1..]);
      var head := if Paired(ps[0].first) then [ps[0].first, ps[0].second] else [ps[0].first];
      NonZeroConcat(head, Words(ps[1..]));
      if ps[0] == EMPTY {
        ZeroIsDropped();
      } else {
        assert Issued(ps)[1..] == Issued(ps[1..]);
        NonZeroConcat(head, Words(Issued(ps[1..])));
      }
    }
  }

  lemma ZeroIsDropped()
    ensures !Paired(0) && NonZero([0]) == []
  {
  }

  /** Every word of the stretch but the all-zero ones is issued once and in order, and nothing else is. */
  lemma WindowsUseEachWordOnce(wram: seq<u32>, pc: nat, n: nat)
    requires pc + 4 * n <= |wram| && BranchFree(wram) && WellPaired(wram[pc..])
    ensures var (issued, end) := Windows(wram, pc, n);
      pc <= end <= |wram| && NonZero(Words(issued)) == NonZero(wram[pc..end])
  {
    hide Split, Complete, WellPaired, Windows, Words, IsBranch, NonZero, Issued;
    WindowsRefineSplit(wram, pc, n);
    var (issued, end) := Windows(wram, pc, n);
    SplitKeepsWords(wram[pc..end]);
    EmptyHoldsNothing(issued);
    EmptyHoldsNothing(Split(wram[pc..end]));
  }

  lemma NothingFetched(wram: seq<u32>, pc: nat)
    requires pc <= |wram|
    ensures Issued([]) == Issued(Split(wram[pc..pc])) && Complete(wram[pc..pc])
  {
  }

  /** The next window, after the bundles already issued. */
  lemma OneWindow(wram: seq<u32>, pc: nat, n: nat, issued: seq<Pair>)
    requires n > 0 && pc + 4 * n <= |wram| && BranchFree(wram)
    ensures var k := Decode(wram[pc..pc + 4]);
      && k.rewind <= 1 && !k.delay
      && issued + Windows(wram, pc, n).0 == issued + k.slots + Windows(wram, pc + 4 - k.rewind, n - 1).0
      && Windows(wram, pc, n).1 == Windows(wram, pc + 4 - k.rewind, n - 1).1
  {
    hide Decode, IsBranch;
    BranchFreeDecode(wram[pc..pc + 4]);
    RewindAtMostOne(wram[pc..pc + 4]);
  }

  lemma NoWindow(wram: seq<u32>, pc: nat)
    requires pc <= |wram|
    ensures Windows(wram, pc, 0) == ([], pc)
  {
  }

  // ---------------------------------------------------------------- the stages in place

  function Pairs(out: seq<u32>): Slots
    requires |out| == 8
  {
    [Pair(out[0], out[1]), Pair(out[2], out[3]), Pair(out[4], out[5]), Pair(out[6], out[7])]
  }

  class FrontEnd {
    var pc: u32
    const wram: array<u32>
    const opcodeIn: array<u32>
    const opcodeOut: array<u32>
    var signalFetch: bool
    var signalDecode: bool
    var signalWindow: bool
    var signalDecodeDelay: bool

    constructor (wram: array<u32>)
      ensures this.wram == wram && fresh(opcodeIn) && fresh(opcodeOut) && Valid()
      ensures pc == 0 && !signalFetch && !signalDecode && !signalWindow && !signalDecodeDelay
    {
      this.wram := wram;
      opcodeIn := new u32[4](_ => 0);
      opcodeOut := new u32[8](_ => 0);
      pc := 0;
      signalFetch, signalDecode, signalWindow, signalDecodeDelay := false, false, false, false;
    }

    ghost predicate Valid() {
      && opcodeIn.Length == 4 && opcodeOut.Length == 8
      && opcodeIn != opcodeOut && opcodeIn != wram && opcodeOut != wram
    }

    method SetSlot(i: nat, first: u32, second: u32)
      requires Valid() && i < 4
      modifies opcodeOut
      ensures Pairs(opcodeOut[..]) == Pairs(old(opcodeOut[..]))[i := Pair(first, second)]
    {
      opcodeOut[2 * i] := first;
      opcodeOut[2 * i + 1] := second;
    }

    /** Four words from pc on; the pipeline may hold the stage back. */
    method Fetch()
      requires Valid() && pc + 4 <= wram.Length
      modifies this`pc, this`signalDecode, opcodeIn
      ensures old(signalFetch) ==>
        pc == old(pc) && opcodeIn[..] == old(opcodeIn[..]) && signalDecode == old(signalDecode)
      ensures !old(signalFetch) ==>
        opcodeIn[..] == wram[old(pc)..old(pc) + 4] && pc == (old(pc) + 4) % TWO32 && signalDecode
    {
      if signalFetch {
        return;
      }
      opcodeIn[0] := wram[pc];
      opcodeIn[1] := wram[pc + 1];
      opcodeIn[2] := wram[pc + 2];
      opcodeIn[3] := wram[pc + 3];
      assert opcodeIn[..] == wram[pc..pc + 4];
      pc := (pc + 4) % TWO32;
      signalDecode := true;
    }

    /** Lays the four words out in slots; single when no word takes another along. */
    method Spread() returns (single: bool)
      requires Valid()
      modifies opcodeOut
      ensures Pairs(opcodeOut[..]) == SpreadWindow(opcodeIn[..])
      ensures single == (|Split(opcodeIn[..])| == 4)
    {
      hide Paired, Split;
      var a, b, c, d := opcodeIn[0], opcodeIn[1], opcodeIn[2], opcodeIn[3];
      SpreadValues(opcodeIn[..]);
      single := false;
      if !Paired(a) && !Paired(b) && !Paired(c) {
        SetSlot(0, a, 0);
        SetSlot(1, b, 0);
        SetSlot(2, c, 0);
        SetSlot(3, d, 0);
        single := true;
      } else if !Paired(a) && !Paired(b) {
        SetSlot(0, a, 0);
        SetSlot(1, b, 0);
        SetSlot(2, c, d);
        SetSlot(3, 0, 0);
      } else if !Paired(a) {
        SetSlot(0, a, 0);
        SetSlot(1, b, c);
        SetSlot(2, d, 0);
        SetSlot(3, 0, 0);
      } else if !Paired(c) {
        SetSlot(0, a, b);
        SetSlot(1, c, 0);
        SetSlot(2, d, 0);
        SetSlot(3, 0, 0);
      } else {
        SetSlot(0, a, b);
        SetSlot(1, c, d);
        SetSlot(2, 0, 0);
        SetSlot(3, 0, 0);
      }
    }

    method PreDecode()
      requires Valid()
      modifies this`pc, opcodeOut
      ensures Pairs(opcodeOut[..]) == PreDecoded(opcodeIn[..])
      ensures pc == (old(pc) - (4 - Consumed(opcodeIn[..]))) % TWO32
    {
      hide Paired, Split, SpreadWindow;
      var single := Spread();
      if Paired(opcodeIn[3]) {
        if single {
          SetSlot(3, 0, 0);
        } else {
          SetSlot(2, 0, 0);
        }
        pc := (pc - 1) % TWO32;
      }
    }

    method EliminateBranches()
      requires Valid()
      modifies this`pc, this`signalDecodeDelay, opcodeOut
      ensures var k := EliminateBranch(Pairs(old(opcodeOut[..])));
        && Pairs(opcodeOut[..]) == k.slots
        && pc == (old(pc) - k.rewind) % TWO32
        && signalDecodeDelay == (k.delay || old(signalDecodeDelay))
    {
      hide IsBranch;
      var op1, op2, op3, op4 := opcodeOut[0], opcodeOut[2], opcodeOut[4], opcodeOut[6];
      if IsBranch(op1) {
        SetSlot(2, 0, 0);
        SetSlot(3, 0, 0);
        signalDecodeDelay := true;
      } else if IsBranch(op2) {
        SetSlot(3, 0, 0);
        signalDecodeDelay := true;
      } else if IsBranch(op3) {
        signalDecodeDelay := true;
      } else if IsBranch(op4) {
        SetSlot(3, 0, 0);
        pc := (pc - 1) % TWO32;
        signalDecodeDelay := true;
      }
    }

    /** The decode stage: skipped once after a branch, and until something has been fetched. */
    method DecodeStage()
      requires Valid()
      modifies this`pc, this`signalDecodeDelay, this`signalWindow, opcodeOut
      ensures old(signalDecodeDelay) || !old(signalDecode) ==>
        pc == old(pc) && opcodeOut[..] == old(opcodeOut[..]) && !signalDecodeDelay && signalWindow == old(signalWindow)
      ensures !old(signalDecodeDelay) && old(signalDecode) ==>
        var k := Decode(opcodeIn[..]);
        && Pairs(opcodeOut[..]) == k.slots
        && pc == (old(pc) - k.rewind) % TWO32
        && signalDecodeDelay == k.delay && signalWindow
    {
      hide PreDecoded, EliminateBranch;
      if signalDecodeDelay {
        signalDecodeDelay := false;
        return;
      }
      if !signalDecode {
        return;
      }
      PreDecode();
      EliminateBranches();
      signalWindow := true;
    }

    /** Fetching and decoding n times over a branch-free stream issues the bundles of n windows. */
    method RunWindows(n: nat) returns (issued: seq<Pair>)
      requires Valid() && !signalFetch && !signalDecodeDelay
      requires pc + 4 * n <= wram.Length && pc + 4 * n < TWO32 && BranchFree(wram[..])
      modifies this`pc, this`signalDecode, this`signalDecodeDelay, this`signalWindow, opcodeIn, opcodeOut
      ensures Valid() && !signalDecodeDelay && (issued, pc as nat) == Windows(wram[..], old(pc), n)
    {
      hide Decode, IsBranch, Windows;
      issued := [];
      ghost var words := wram[..];
      assert issued + Windows(words, pc, n).0 == Windows(words, pc, n).0;
      for i := 0 to n
        invariant !signalDecodeDelay && wram[..] == words && pc + 4 * (n - i) <= wram.Length
        invariant pc + 4 * (n - i) < TWO32
        invariant Windows(words, old(pc), n) ==
          (issued + Windows(words, pc, n - i).0, Windows(words, pc, n - i).1)
      {
        OneWindow(words, pc, n - i, issued);
        Fetch();
        DecodeStage();
        issued := issued + Pairs(opcodeOut[..]);
      }
      NoWindow(words, pc);
      assert issued + [] == issued;
    }
  }
}
