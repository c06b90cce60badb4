/** r63 reset before every unit, against a machine in which r63 is wired to zero. */
module ZeroRegister {
  import opened Bits
  import opened Results
  import opened Memory
  import opened Machine
  import opened Instructions
  import opened Footprint

  /** The wired machine has nowhere to put a value sent to r63. */
  function Drop(w: Writes): Writes { map l | l in w && l !in ZEROS :: w[l] }

  function WiredUnit(s: State, w: u32, slot: nat, imm24: nat): Result<State> {
    var writes :- UnitEffect(s, w, slot, imm24);
    Ok(Commit(s, Drop(writes)))
  }

  function WiredUnits(s: State, first: u32, second: u32): Result<State> {
    var imm24 := BundleImm(first, second);
    var t :- WiredUnit(s, first, 0, imm24);
    if RunsSecond(first, second) then WiredUnit(t, second, 1, imm24) else Ok(t)
  }

  function WiredStep(s: State): Result<State> {
    var first :- FetchWord(s.mem, RealPc(s.pc));
    var second :- FetchWord(s.mem, RealPc(s.pc) + 1);
    var t :- WiredUnits(s, first, second);
    Ok(Account(t, Advance(s.pc, t, first)))
  }

  function WiredRun(s: State, n: nat): Result<State>
    decreases n
  {
    if n == 0 then Ok(s)
    else
      match WiredStep(s)
      case Ok(t) => WiredRun(t, n - 1)
      case Err(e) => Err(e)
  }

  /** Both machines stop with the same error, or agree on everything but r63. */
  ghost predicate Simulates(reset: Result<State>, wired: Result<State>) {
    match reset
    case Err(e) => wired == Err(e)
    case Ok(s) => wired == Ok(ClearZero(s))
  }

  lemma DropIsClear(c: State, w: Writes)
    requires Zeroed(c)
    ensures ClearZero(Commit(c, w)) == Commit(c, Drop(w))
  {
    hide Commit;
    var y, z := ClearZero(Commit(c, w)), Commit(c, Drop(w));
    CommitKeepsSizes(c, w);
    CommitKeepsSizes(c, Drop(w));
    assert SameSizes(y.mem, z.mem);
    forall l: Loc | Exists(y, l) ensures Get(y, l) == Get(z, l) {
      assert Exists(c, l) && Exists(z, l);
      GetCommit(c, w, l);
      GetClearZero(Commit(c, w), l);
      GetCommit(c, Drop(w), l);
    }
    SameState(y, z);
  }

  lemma UnitSimulated(s: State, w: u32, slot: nat, imm24: nat)
    ensures Simulates(ExecuteUnit(s, w, slot, imm24), WiredUnit(ClearZero(s), w, slot, imm24))
  {
    hide UnitEffect, Commit, Drop;
    var c := ClearZero(s);
    var e := UnitEffect(c, w, slot, imm24);
    if e.Ok? {
      DropIsClear(c, e.value);
    }
  }

  lemma UnitsSimulated(s: State, first: u32, second: u32)
    ensures Simulates(ExecuteUnits(s, first, second), WiredUnits(ClearZero(s), first, second))
  {
    hide ExecuteUnit, WiredUnit, BundleImm, RunsSecond;
    var imm24 := BundleImm(first, second);
    UnitSimulated(s, first, 0, imm24);
    var t := ExecuteUnit(s, first, 0, imm24);
    if t.Ok? && RunsSecond(first, second) {
      UnitSimulated(t.value, second, 1, imm24);
    }
  }

  lemma StepSimulated(s: State)
    ensures Simulates(Step(s), WiredStep(ClearZero(s)))
  {
    hide ExecuteUnits, WiredUnits, FetchWord, RealPc, BundleLength;
    var i := RealPc(s.pc);
    var first, second := FetchWord(s.mem, i), FetchWord(s.mem, i + 1);
    if first.Ok? && second.Ok? {
      UnitsSimulated(s, first.value, second.value);
    }
  }

  /** The machine that resets r63 before each unit is, over every run, the machine with r63 wired to zero. */
  lemma {:induction false} RunSimulated(s: State, n: nat)
    ensures Simulates(Run(s, n), WiredRun(ClearZero(s), n))
    decreases n
  {
    hide Step, WiredStep;
    if n > 0 {
      StepSimulated(s);
      if Step(s).Ok? {
        RunSimulated(Step(s).value, n - 1);
      }
    }
  }
}
