/** The state of the core, as named locations, and what one instruction does to it. */
module Machine {
  import opened Bits
  import opened Memory
  import O = Opcode

  type Reg = O.Reg
  type RegFile = s: seq<u64> | |s| == 64 witness seq(64, i => 0)
  type MduFile = s: seq<u64> | |s| == 4 witness seq(4, i => 0)

  /** gpf holds the bit patterns of the floating-point registers. */
  datatype State = State(
    lr: u32, br: u32, lc: u32, fr: u32, pc: u32, ir: u32, cc: u32, ic: u32, syscall: u32,
    gpi: RegFile, gpf: RegFile, mdu: MduFile, mem: Mem)

  datatype Loc =
    | Lr | Br | Lc | Fr | Pc | Ir | Cc | Ic | Syscall
    | Gpi(r: Reg) | Gpf(r: Reg) | Mdu(q: nat)
    | Byte(bank: Bank, off: nat)

  const ZEROS: set<Loc> := {Gpi(O.REG_ZERO), Gpf(O.REG_ZERO)}

  predicate Exists(s: State, l: Loc) {
    match l
    case Mdu(q) => q < 4
    case Byte(b, off) => off < |s.mem.Of(b)|
    case _ => true
  }

  function Get(s: State, l: Loc): nat
    requires Exists(s, l)
  {
    match l
    case Lr => s.lr
    case Br => s.br
    case Lc => s.lc
    case Fr => s.fr
    case Pc => s.pc
    case Ir => s.ir
    case Cc => s.cc
    case Ic => s.ic
    case Syscall => s.syscall
    case Gpi(r) => s.gpi[r]
    case Gpf(r) => s.gpf[r]
    case Mdu(q) => s.mdu[q]
    case Byte(b, off) => s.mem.Of(b)[off]
  }

  /** A location keeps what is assigned to it modulo this. */
  function Capacity(l: Loc): (n: nat)
    ensures n > 0
  {
    match l
    case Gpi(_) => TWO64
    case Gpf(_) => TWO64
    case Mdu(_) => TWO64
    case Byte(_, _) => 0x100
    case _ => TWO32
  }

  /** Values to assign, all at once. */
  type Writes = map<Loc, nat>

  function Pick(w: Writes, l: Loc, old_: nat): (v: nat)
    requires old_ < Capacity(l)
    ensures v < Capacity(l)
  {
    if l in w then w[l] % Capacity(l) else old_
  }

  function RegLoc(fp: bool, r: Reg): Loc { if fp then Gpf(r) else Gpi(r) }

  function CommitFile(w: Writes, fp: bool, s: RegFile): (t: RegFile)
    ensures forall r: Reg :: t[r] == Pick(w, RegLoc(fp, r), s[r])
  {
    seq<u64>(64, r requires 0 <= r < 64 => Pick(w, RegLoc(fp, r), s[r]))
  }

  function CommitBank(w: Writes, b: Bank, s: seq<u8>): (t: seq<u8>)
    ensures |t| == |s|
    ensures forall i | 0 <= i < |s| :: t[i] == Pick(w, Byte(b, i), s[i])
  {
    seq(|s|, i requires 0 <= i < |s| => Pick(w, Byte(b, i), s[i]))
  }

  function CommitMem(w: Writes, m: Mem): (n: Mem)
    ensures SameSizes(m, n)
    ensures forall b: Bank :: n.Of(b) == CommitBank(w, b, m.Of(b))
  {
    Mem(CommitBank(w, Spm, m.spm), CommitBank(w, Io, m.io), CommitBank(w, Rom, m.rom),
        CommitBank(w, Spmt, m.spmt), CommitBank(w, Spm2, m.spm2), CommitBank(w, Wram, m.wram))
  }

  function Commit(s: State, w: Writes): State {
    State(Pick(w, Lr, s.lr), Pick(w, Br, s.br), Pick(w, Lc, s.lc), Pick(w, Fr, s.fr), Pick(w, Pc, s.pc),
          Pick(w, Ir, s.ir), Pick(w, Cc, s.cc), Pick(w, Ic, s.ic), Pick(w, Syscall, s.syscall),
          CommitFile(w, false, s.gpi), CommitFile(w, true, s.gpf),
          seq(4, q requires 0 <= q < 4 => Pick(w, Mdu(q), s.mdu[q])),
          CommitMem(w, s.mem))
  }

  lemma GetCommit(s: State, w: Writes, l: Loc)
    requires Exists(s, l)
    ensures Exists(Commit(s, w), l)
    ensures Get(Commit(s, w), l) == if l in w then w[l] % Capacity(l) else Get(s, l)
  {
  }

  lemma GetFits(s: State, l: Loc)
    requires Exists(s, l)
    ensures Get(s, l) < Capacity(l)
  {
  }

  ghost predicate Same(s: State, t: State) {
    SameSizes(s.mem, t.mem) && forall l: Loc | Exists(s, l) :: Get(s, l) == Get(t, l)
  }

  lemma SameMem(s: State, t: State)
    requires Same(s, t)
    ensures s.mem == t.mem
  {
    forall b: Bank ensures s.mem.Of(b) == t.mem.Of(b) {
      forall i: nat | i < |s.mem.Of(b)| ensures s.mem.Of(b)[i] == t.mem.Of(b)[i] {
        assert Get(s, Byte(b, i)) == Get(t, Byte(b, i));
      }
    }
    assert s.mem.Of(Spm) == t.mem.Of(Spm) && s.mem.Of(Io) == t.mem.Of(Io) && s.mem.Of(Rom) == t.mem.Of(Rom);
    assert s.mem.Of(Spmt) == t.mem.Of(Spmt) && s.mem.Of(Spm2) == t.mem.Of(Spm2) && s.mem.Of(Wram) == t.mem.Of(Wram);
  }

  lemma SameFiles(s: State, t: State)
    requires Same(s, t)
    ensures s.gpi == t.gpi && s.gpf == t.gpf && s.mdu == t.mdu
  {
    forall r: Reg ensures s.gpi[r] == t.gpi[r] && s.gpf[r] == t.gpf[r] {
      assert Get(s, Gpi(r)) == Get(t, Gpi(r)) && Get(s, Gpf(r)) == Get(t, Gpf(r));
    }
    forall q: nat | q < 4 ensures s.mdu[q] == t.mdu[q] {
      assert Get(s, Mdu(q)) == Get(t, Mdu(q));
    }
  }

  /** A state is nothing but the values of its locations. */
  lemma SameState(s: State, t: State)
    requires Same(s, t)
    ensures s == t
  {
    SameMem(s, t);
    SameFiles(s, t);
    assert Get(s, Lr) == Get(t, Lr) && Get(s, Br) == Get(t, Br) && Get(s, Lc) == Get(t, Lc);
    assert Get(s, Fr) == Get(t, Fr) && Get(s, Pc) == Get(t, Pc) && Get(s, Ir) == Get(t, Ir);
    assert Get(s, Cc) == Get(t, Cc) && Get(s, Ic) == Get(t, Ic) && Get(s, Syscall) == Get(t, Syscall);
  }

  // ---------------------------------------------------------------- single assignments

  lemma CommitNothing(s: State)
    ensures Commit(s, map[]) == s
  {
    hide Commit;
    CommitKeepsSizes(s, map[]);
    forall l: Loc | Exists(s, l) ensures Get(Commit(s, map[]), l) == Get(s, l) {
      GetCommit(s, map[], l);
    }
    SameState(s, Commit(s, map[]));
  }

  lemma CommitRegister(s: State, fp: bool, r: Reg, v: nat)
    ensures Commit(s, map[RegLoc(fp, r) := v]) ==
      if fp then s.(gpf := s.gpf[r := v % TWO64]) else s.(gpi := s.gpi[r := v % TWO64])
  {
    hide Commit;
    var w: Writes := map[RegLoc(fp, r) := v];
    var t := if fp then s.(gpf := s.gpf[r := v % TWO64]) else s.(gpi := s.gpi[r := v % TWO64]);
    CommitKeepsSizes(s, w);
    forall l: Loc | Exists(s, l) ensures Get(Commit(s, w), l) == Get(t, l) {
      GetCommit(s, w, l);
    }
    SameState(Commit(s, w), t);
  }

  /** Assigning one of the 32-bit registers. */
  lemma CommitControl(s: State, l: Loc, v: nat)
    requires Capacity(l) == TWO32
    ensures Commit(s, map[l := v]) == PutControl(s, l, v % TWO32)
  {
    hide Commit;
    var w: Writes := map[l := v];
    var t := PutControl(s, l, v % TWO32);
    CommitKeepsSizes(s, w);
    forall k: Loc | Exists(s, k) ensures Get(Commit(s, w), k) == Get(t, k) {
      GetCommit(s, w, k);
    }
    SameState(Commit(s, w), t);
  }

  function PutControl(s: State, l: Loc, v: u32): State
    requires Capacity(l) == TWO32
  {
    match l
    case Lr => s.(lr := v)
    case Br => s.(br := v)
    case Lc => s.(lc := v)
    case Fr => s.(fr := v)
    case Pc => s.(pc := v)
    case Ir => s.(ir := v)
    case Cc => s.(cc := v)
    case Ic => s.(ic := v)
    case Syscall => s.(syscall := v)
  }

  lemma CommitMdu(s: State, q: nat, v: nat)
    requires q < 4
    ensures Commit(s, map[Mdu(q) := v]) == s.(mdu := s.mdu[q := v % TWO64])
  {
    hide Commit;
    var w: Writes := map[Mdu(q) := v];
    var t := s.(mdu := s.mdu[q := v % TWO64]);
    CommitKeepsSizes(s, w);
    forall l: Loc | Exists(s, l) ensures Get(Commit(s, w), l) == Get(t, l) {
      GetCommit(s, w, l);
    }
    SameState(Commit(s, w), t);
  }

  /** Assignments made one after the other are assignments made at once, the later winning. */
  lemma CommitTwice(s: State, v: Writes, w: Writes)
    ensures Commit(Commit(s, v), w) == Commit(s, v + w)
  {
    hide Commit;
    var t := Commit(s, v);
    CommitKeepsSizes(s, v);
    CommitKeepsSizes(t, w);
    CommitKeepsSizes(s, v + w);
    forall l: Loc | Exists(s, l) ensures Get(Commit(t, w), l) == Get(Commit(s, v + w), l) {
      GetCommit(s, v, l);
      GetCommit(t, w, l);
      GetCommit(s, v + w, l);
    }
    SameState(Commit(t, w), Commit(s, v + w));
  }

  lemma CommitKeepsSizes(s: State, w: Writes)
    ensures SameSizes(s.mem, Commit(s, w).mem)
  {
  }
}
