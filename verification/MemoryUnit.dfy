/** The memory object: byte buffers, a map from addresses to buffers, and copies in both directions. */
module MemoryUnit {
  import opened Bits
  import opened Results
  import opened Memory

  /** memcpy into a buffer. */
  method CopyIn(dst: array<u8>, off: nat, src: seq<u8>)
    requires off + |src| <= dst.Length
    modifies dst
    ensures dst[..] == Splice(old(dst[..]), off, src)
  {
    for k := 0 to |src|
      invariant dst[..] == Splice(old(dst[..]), off, src[..k])
    {
      dst[off + k] := src[k];
    }
    assert src[..|src|] == src;
  }

  class AxMemory {
    const io: array<u8>
    const rom: array<u8>
    const spmt: array<u8>
    const spm2: array<u8>
    const wram: array<u8>
    const spmtMask: u64
    const spm2Mask: u64
    const wramMask: u64

    /** nwram counts MiB; nspmt and nspm2 count KiB. */
    constructor (nwram: nat, nspmt: nat, nspm2: nat)
      requires 0x10_0000 * nwram < TWO64 && 0x400 * nspmt < TWO64 && 0x400 * nspm2 < TWO64
      ensures fresh(io) && fresh(rom) && fresh(spmt) && fresh(spm2) && fresh(wram)
      ensures wram.Length == 0x10_0000 * nwram && spmt.Length == 0x400 * nspmt && spm2.Length == 0x400 * nspm2
      ensures WellFormed()
      ensures forall b: array<u8> | b in Buffers() :: forall i | 0 <= i < b.Length :: b[i] == 0
    {
      io := new u8[IO_SIZE](_ => 0);
      rom := new u8[ROM_SIZE](_ => 0);
      wram := new u8[0x10_0000 * nwram](_ => 0);
      spmt := new u8[0x400 * nspmt](_ => 0);
      spm2 := new u8[0x400 * nspm2](_ => 0);
      spmtMask := (0x400 * nspmt - 1) % TWO64;
      spm2Mask := (0x400 * nspm2 - 1) % TWO64;
      wramMask := (0x10_0000 * nwram - 1) % TWO64;
    }

    ghost function Buffers(): set<array<u8>> { {io, rom, spmt, spm2, wram} }

    /** Fixed once the object is built: nothing here can be assigned again. */
    ghost predicate WellFormed() {
      && io.Length == IO_SIZE && rom.Length == ROM_SIZE
      && spmtMask == MaskOf(spmt.Length) && spm2Mask == MaskOf(spm2.Length) && wramMask == MaskOf(wram.Length)
      && io != rom && io != spmt && io != spm2 && io != wram
      && rom != spmt && rom != spm2 && rom != wram
      && spmt != spm2 && spmt != wram && spm2 != wram
    }

    /** The scratchpad belongs to the core that maps. */
    ghost predicate Fits(spm: array<u8>) { WellFormed() && spm.Length == SPM_SIZE && spm !in Buffers() }

    function BufferOf(spm: array<u8>, b: Bank): array<u8> {
      match b
      case Spm => spm
      case Io => io
      case Rom => rom
      case Spmt => spmt
      case Spm2 => spm2
      case Wram => wram
    }

    ghost function Image(spm: array<u8>): Mem
      reads spm, Buffers()
    {
      Mem(spm[..], io[..], rom[..], spmt[..], spm2[..], wram[..])
    }

    method Map(spm: array<u8>, addr: u64) returns (base: array<u8>, offset: nat)
      requires Fits(spm)
      ensures base == BufferOf(spm, SelectBank(addr)) && offset == Offset(Image(spm), addr)
    {
      hide Bitwise;
      var mask: u64;
      if And(addr, WRAM_BEGIN) != 0 {
        base := wram;
        mask := wramMask;
      } else if And(addr, SPM2_BEGIN) != 0 {
        base := spm2;
        mask := spm2Mask;
      } else if And(addr, SPMT_BEGIN) != 0 {
        base := spmt;
        mask := spmtMask;
      } else if And(addr, ROM_BEGIN) != 0 {
        base := rom;
        mask := 0xFF_FFFF;
      } else if And(addr, IO_BEGIN) != 0 {
        base := io;
        mask := 0x7_FFFF;
      } else {
        base := spm;
        mask := 0x3FFF;
      }
      offset := And(addr, mask);
    }

    lemma BufferHoldsBank(spm: array<u8>, b: Bank)
      requires Fits(spm)
      ensures BufferOf(spm, b)[..] == Image(spm).Of(b)
    {
    }

    /** Refuses a copy that would leave the bank, and then changes nothing. */
    method Store(spm: array<u8>, addr: u64, bytes: seq<u8>) returns (ok: bool)
      requires Fits(spm)
      modifies spm, Buffers()
      ensures ok == WriteMem(old(Image(spm)), addr, bytes).Ok?
      ensures Image(spm) == if ok then WriteMem(old(Image(spm)), addr, bytes).value else old(Image(spm))
    {
      hide SelectBank, Offset;
      var base, offset := Map(spm, addr);
      ghost var b, before := SelectBank(addr), Image(spm);
      BufferHoldsBank(spm, b);
      ok := offset + |bytes| <= base.Length;
      if ok {
        CopyIn(base, offset, bytes);
        BufferHoldsBank(spm, b);
        SameBanks(Image(spm), before.With(b, base[..]));
      }
    }

    method Load(spm: array<u8>, addr: u64, size: nat) returns (r: Result<seq<u8>>)
      requires Fits(spm)
      ensures r == ReadMem(Image(spm), addr, size)
    {
      hide SelectBank, Offset;
      var base, offset := Map(spm, addr);
      BufferHoldsBank(spm, SelectBank(addr));
      r := if offset + size <= base.Length then Ok(base[offset..offset + size]) else Err(OutsideBank);
    }
  }
}
