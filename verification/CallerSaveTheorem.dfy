/**
 The main results about caller-save: the rewritten block agrees with the original one, if no
 register is stale, and what it computes in any case.
 */
module CallerSaveTheorem {
  import opened SaveAreas
  import opened CallerSave
  import opened CallerSaveRun
  import opened CallerSaveProof

  // ---------------------------------------------------------------- liveness and abort

  lemma {:induction false} RestoreKeeps(t: Target, s: Status, e: Rtx)
    requires t.moveWords >= 1
    ensures var s' := RestoreReferenced(t, s, e); s'.live == s.live && s'.saved == s.saved && (s.aborted ==> s' == s)
    decreases e, 1
  {
    match e
    case HardReg(g) =>
    case Clobber(_) =>
    case Pseudo(args) => RestoreAllKeeps(t, s, args);
    case Expr(args) => RestoreAllKeeps(t, s, args);
  }

  lemma {:induction false} RestoreAllKeeps(t: Target, s: Status, xs: seq<Rtx>)
    requires t.moveWords >= 1
    ensures var s' := RestoreAllReferenced(t, s, xs); s'.live == s.live && s'.saved == s.saved && (s.aborted ==> s' == s)
    decreases xs, 0
  {
    if xs != [] {
      RestoreKeeps(t, s, xs[|xs| - 1]);
      RestoreAllKeeps(t, RestoreReferenced(t, s, xs[|xs| - 1]), xs[..|xs| - 1]);
    }
  }

  lemma {:induction false} SaveKeeps(t: Target, s: Status, callSets: set<nat>, r: nat)
    requires t.moveWords >= 1
    ensures var s' := SaveFrom(t, s, callSets, r); s'.live == s.live && (s.aborted ==> s' == s)
    decreases t.regCount - r
  {
    if r < t.regCount && !s.aborted {
      hide CanSave;
      var (s1, k) := SaveAt(t, s, callSets, r);
      SaveKeeps(t, s1, callSets, r + k);
    }
  }

  lemma ScanKeeps(t: Target, s: Status, i: Insn)
    requires t.moveWords >= 1
    ensures ScanInsn(t, s, i).live == LiveAfter(s.live, i)
    ensures s.aborted ==> ScanInsn(t, s, i).aborted
  {
    if i.kind != NotAnInsn {
      RestoreKeeps(t, s, i.pattern);
      var s2 := ClearLive(RestoreBefore(t, s, i), i.dead);
      if i.kind == Call {
        var x := AllRegs(i.stores);
        SaveKeeps(t, s2.(saved := s2.saved - x, need := s2.need - x), x, 0);
      }
      hide RestoreReferenced, SaveFrom, AllRegs;
    }
  }

  // ---------------------------------------------------------------- the scan of a block

  lemma Prefixes<T>(xs: seq<T>, k: nat)
    requires xs != [] && k < |xs|
    ensures xs[..|xs| - 1][..k] == xs[..k]
  {
  }

  lemma BlockOkPrefix(t: Target, live: set<nat>, insns: seq<Insn>)
    requires BlockOk(t, live, insns) && insns != []
    ensures BlockOk(t, live, insns[..|insns| - 1])
    ensures InsnOk(t, LiveAt(live, insns[..|insns| - 1]), insns[|insns| - 1])
  {
    hide InsnOk, LiveAt;
    var before := insns[..|insns| - 1];
    assert InsnOkAt(t, live, insns, |before|);
    forall k | 0 <= k < |before|
      ensures InsnOkAt(t, live, before, k)
    {
      Prefixes(insns, k);
      assert InsnOkAt(t, live, insns, k);
    }
  }

  lemma {:induction false} BlockLive(t: Target, live: set<nat>, insns: seq<Insn>)
    requires t.moveWords >= 1
    ensures ScanBlock(t, StartOfBlock(live), insns).live == LiveAt(live, insns)
  {
    hide ScanInsn, LiveAfter;
    if insns != [] {
      BlockLive(t, live, insns[..|insns| - 1]);
      ScanKeeps(t, ScanBlock(t, StartOfBlock(live), insns[..|insns| - 1]), insns[|insns| - 1]);
    }
  }

  /** The two machines start with the same values in the live registers. */
  ghost predicate StartsAlike(live: set<nat>, ideal: State, actual: State) {
    actual.log == ideal.log && forall r :: r in live ==> Get(actual.regs, r) == Get(ideal.regs, r)
  }

  /** After every prefix of a block the emitted code is related to the original insns, with calls that
      leave the registers with saves as they are. */
  lemma {:induction false} ScanBlockSim(t: Target, f: Meaning, live: set<nat>, insns: seq<Insn>, ideal: State, start: State)
    requires TargetOk(t) && BlockOk(t, live, insns) && StartsAlike(live, ideal, start)
    requires !ScanBlock(t, StartOfBlock(live), insns).aborted
    ensures Sim(t, f, ScanBlock(t, StartOfBlock(live), insns), RunKeeping(t, f, live, insns, ideal, start), start)
  {
    MoveWordsPositive(t);
    if insns == [] {
    } else {
      var before, i := insns[..|insns| - 1], insns[|insns| - 1];
      var s := ScanBlock(t, StartOfBlock(live), before);
      hide TargetOk, Sim, ScanInsn, ExecuteKeeping, InsnOk, StartsAlike;
      ScanKeeps(t, s, i);
      BlockOkPrefix(t, live, insns);
      hide BlockOk;
      ScanBlockSim(t, f, live, before, ideal, start);
      BlockLive(t, live, before);
      ScanInsnSim(t, f, s, i, RunKeeping(t, f, live, before, ideal, start), start);
    }
  }

  // ---------------------------------------------------------------- the end of the block

  /** Restores of registers in `r`. */
  ghost predicate RestoresOf(codes: seq<Code>, r: set<nat>) {
    forall c :: c in codes ==> c.Restore? && Regs(c.reg) <= r
  }

  lemma {:induction false} RestoresAreOfNeed(t: Target, s: Status, r: nat, last: nat, w: nat, all: set<nat>)
    requires w >= 1 && s.need <= all
    ensures var s' := RestoreRange(t, s, r, last, w);
      s.out <= s'.out && s'.need <= s.need && RestoresOf(s'.out[|s.out|..], all)
    decreases last - r
  {
    if r < last && !s.aborted {
      if r !in s.need {
        RestoresAreOfNeed(t, s, r + 1, last, w, all);
      } else if r in t.slots.word {
        assert CanRestore(t, s, r, 1);
        var k := RestoreWidth(t, s, r, w);
        var s1 := AfterRestore(t, s, r, k);
        RestoresAreOfNeed(t, s1, r + k, last, w, all);
        var s' := RestoreRange(t, s1, r + k, last, w);
        var c := Restore(RegRange(r, k), t.slots.At(r, k));
        assert s'.out[|s.out|..] == [c] + s'.out[|s1.out|..];
        assert Regs(c.reg) <= all;
      }
    }
  }

  lemma Domains(t: Target, f: Meaning, c: Code, j: Insn, m: State)
    requires c.Restore? && j.kind != NotAnInsn
    ensures Step(t, f, c, m).regs.Keys == Range(0, t.regCount) == Execute(t, f, j, m, true).regs.Keys
    ensures Step(t, f, c, m).frame == m.frame && Step(t, f, c, m).log == m.log
    ensures Execute(t, f, j, m, true).frame == m.frame && Execute(t, f, j, m, true).log == m.log + [Inputs(j, m.regs)]
  {
  }

  /** Restores of registers that an insn neither reads nor sets may move across it. */
  lemma RestoreCommutes(t: Target, f: Meaning, c: Code, j: Insn, m: State)
    requires c.Restore? && j.kind == Jump && Regs(c.reg) !! j.inputs + AllRegs(j.stores)
    requires j.inputs <= Range(0, t.regCount)
    ensures Step(t, f, c, Execute(t, f, j, m, true)) == Execute(t, f, j, Step(t, f, c, m), true)
  {
    var m1, m2 := Execute(t, f, j, m, true), Step(t, f, c, m);
    var a, b := Step(t, f, c, m1), Execute(t, f, j, m2, true);
    Domains(t, f, c, j, m);
    Domains(t, f, c, j, m1);
    Domains(t, f, c, j, m2);
    hide Step, Execute;
    forall r | r in j.inputs
      ensures Get(m2.regs, r) == Get(m.regs, r)
    {
      RestoredRegister(t, f, c.reg, c.slot, r, m);
    }
    assert Inputs(j, m2.regs) == Inputs(j, m.regs);
    hide Inputs, AllRegs;
    forall r | r in Range(0, t.regCount)
      ensures Get(a.regs, r) == Get(b.regs, r)
    {
      RestoredRegister(t, f, c.reg, c.slot, r, m);
      RestoredRegister(t, f, c.reg, c.slot, r, m1);
      Executed(t, f, j, m, true, r);
      Executed(t, f, j, m2, true, r);
    }
    SameMap(a.regs, b.regs);
  }

  lemma SameMap(a: map<nat, int>, b: map<nat, int>)
    requires a.Keys == b.Keys && forall r :: r in a.Keys ==> Get(a, r) == Get(b, r)
    ensures a == b
  {
  }

  lemma {:induction false} RestoresCommute(t: Target, f: Meaning, cs: seq<Code>, j: Insn, m: State)
    requires j.kind == Jump && j.inputs <= Range(0, t.regCount)
    requires forall c :: c in cs ==> c.Restore? && Regs(c.reg) !! j.inputs + AllRegs(j.stores)
    ensures Run(t, f, cs, Execute(t, f, j, m, true)) == Execute(t, f, j, Run(t, f, cs, m), true)
  {
    if cs != [] {
      var rest, c := cs[..|cs| - 1], cs[|cs| - 1];
      RestoresCommute(t, f, rest, j, m);
      hide Execute, Regs, AllRegs, Step;
      RestoreCommutes(t, f, c, j, Run(t, f, rest, m));
    }
  }

  /** Placing the final restores before or after the jump makes no difference to the run. */
  lemma PlacementHarmless(t: Target, f: Meaning, out: seq<Code>, cs: seq<Code>, j: Insn, m: State)
    requires out != [] && out[|out| - 1] == Original(j) && j.kind == Jump && j.inputs <= Range(0, t.regCount)
    requires forall c :: c in cs ==> c.Restore? && Regs(c.reg) !! j.inputs + AllRegs(j.stores)
    ensures Run(t, f, PlaceRestores(out, cs, true), m) == Run(t, f, out + cs, m)
  {
    var before := out[..|out| - 1];
    assert PlaceRestores(out, cs, true) == before + cs + [Original(j)];
    RunAppend(t, f, before + cs, Original(j), m);
    RunConcat(t, f, before, cs, m);
    RunConcat(t, f, out, cs, m);
    RestoresCommute(t, f, cs, j, Run(t, f, before, m));
  }

  /** After the scan of an insn other than a call, nothing it reads or sets still needs a restore. */
  lemma NeedAvoids(t: Target, f: Meaning, s: Status, j: Insn, ideal: State, start: State)
    requires TargetOk(t) && Sim(t, f, s, ideal, start) && !s.aborted
    requires j.kind == Jump && InsnOk(t, s.live, j)
    ensures ScanInsn(t, s, j).need !! j.inputs + AllRegs(j.stores)
    ensures ScanInsn(t, s, j).out != [] && ScanInsn(t, s, j).out[|ScanInsn(t, s, j).out| - 1] == Original(j)
  {
    hide Run, TargetOk;
    MoveWordsPositive(t);
    if s.n != 0 {
      RestoreReferencedSim(t, f, s, j.pattern, ideal, start);
    }
    hide RestoreReferenced, ValuesOk;
    assert RestoreBefore(t, s, j).need !! j.inputs;
  }

  lemma EndSim(t: Target, f: Meaning, s: Status, ideal: State, start: State)
    requires TargetOk(t) && Sim(t, f, s, ideal, start) && !s.aborted
    ensures var e := EndRestores(t, s);
      && StartsAlike(s.live, ideal, Run(t, f, e.out, start)) && !e.aborted
      && RestoresOf(e.out[|s.out|..], s.need)
  {
    hide Run, TargetOk, RestoresOf;
    MoveWordsPositive(t);
    if s.n != 0 {
      RestoreRangeSim(t, f, s, 0, t.regCount, t.moveWords, ideal, start);
      RestoresAreOfNeed(t, s, 0, t.regCount, t.moveWords, s.need);
    } else {
      NoRestores(s);
    }
    hide RestoreRange;
    var e := EndRestores(t, s);
    hide EndRestores;
    assert forall r :: r in s.live ==> r !in e.need;
  }

  lemma NoRestores(s: Status)
    ensures RestoresOf(s.out[|s.out|..], s.need)
  {
  }

  /** The final restores, where the source puts them, act as if they came last. */
  lemma EndPlacement(t: Target, f: Meaning, live: set<nat>, insns: seq<Insn>, ideal: State, start: State)
    requires TargetOk(t) && BlockOk(t, live, insns) && StartsAlike(live, ideal, start)
    requires !ScanBlock(t, StartOfBlock(live), insns).aborted
    ensures var s := ScanBlock(t, StartOfBlock(live), insns);
      var e := EndRestores(t, s);
      Run(t, f, PlaceRestores(s.out, e.out[|s.out|..], EndsInJump(insns)), start) == Run(t, f, e.out, start)
  {
    hide StartsAlike, Sim, TargetOk, BlockOk, EndRestores, ScanBlock, Run, AllRegs, RunKeeping;
    MoveWordsPositive(t);
    var s := ScanBlock(t, StartOfBlock(live), insns);
    ScanBlockSim(t, f, live, insns, ideal, start);
    EndSim(t, f, s, RunKeeping(t, f, live, insns, ideal, start), start);
    var e := EndRestores(t, s);
    var cs := e.out[|s.out|..];
    assert s.out + cs == e.out;
    if EndsInJump(insns) {
      var j := insns[|insns| - 1];
      JumpAvoids(t, f, live, insns, ideal, start);
      forall c | c in cs
        ensures c.Restore? && Regs(c.reg) !! j.inputs + AllRegs(j.stores)
      {
        hide Regs;
        assert Regs(c.reg) <= s.need;
      }
      PlacementHarmless(t, f, s.out, cs, j, start);
    }
  }

  /** After a final jump nothing that it reads or sets still needs a restore. */
  lemma JumpAvoids(t: Target, f: Meaning, live: set<nat>, insns: seq<Insn>, ideal: State, start: State)
    requires TargetOk(t) && BlockOk(t, live, insns) && StartsAlike(live, ideal, start) && EndsInJump(insns)
    requires !ScanBlock(t, StartOfBlock(live), insns).aborted
    ensures var s := ScanBlock(t, StartOfBlock(live), insns);
      var j := insns[|insns| - 1];
      && s.need !! j.inputs + AllRegs(j.stores) && j.inputs <= Range(0, t.regCount)
      && s.out != [] && s.out[|s.out| - 1] == Original(j)
  {
    hide StartsAlike, Sim, TargetOk, BlockOk, ScanInsn, Run, AllRegs, RunKeeping;
    MoveWordsPositive(t);
    var before, j := insns[..|insns| - 1], insns[|insns| - 1];
    var s0 := ScanBlock(t, StartOfBlock(live), before);
    BlockOkPrefix(t, live, insns);
    BlockLive(t, live, before);
    ScanKeeps(t, s0, j);
    ScanBlockSim(t, f, live, before, ideal, start);
    NeedAvoids(t, f, s0, j, RunKeeping(t, f, live, before, ideal, start), start);
    LiveInRange(t, f, s0, RunKeeping(t, f, live, before, ideal, start), start);
  }

  lemma LiveInRange(t: Target, f: Meaning, s: Status, ideal: State, start: State)
    requires Sim(t, f, s, ideal, start)
    ensures s.live <= Range(0, t.regCount)
  {
  }

  /** What the emitted block does, in every case: it reads the same values at every insn, and ends with
      the same values in the live registers, as the original block would if no call set a register that
      has a save. */
  lemma BlockKeeps(t: Target, f: Meaning, live: set<nat>, insns: seq<Insn>, ideal: State, start: State)
    requires TargetOk(t) && BlockOk(t, live, insns) && StartsAlike(live, ideal, start)
    requires !SaveBlock(t, live, insns).aborted
    ensures StartsAlike(LiveAt(live, insns), RunKeeping(t, f, live, insns, ideal, start),
                        Run(t, f, SaveBlock(t, live, insns).out, start))
    ensures SaveBlock(t, live, insns).live == LiveAt(live, insns)
  {
    MoveWordsPositive(t);
    var s := ScanBlock(t, StartOfBlock(live), insns);
    EndSticky(t, s);
    BlockLive(t, live, insns);
    EndPlacement(t, f, live, insns, ideal, start);
    ScanBlockSim(t, f, live, insns, ideal, start);
    hide BlockOk, ScanBlock, TargetOk, Run, Sim, StartsAlike, LiveAt, RunKeeping;
    EndSim(t, f, s, RunKeeping(t, f, live, insns, ideal, start), start);
  }

  lemma EndSticky(t: Target, s: Status)
    requires t.moveWords >= 1
    ensures s.aborted ==> EndRestores(t, s).aborted
    ensures EndRestores(t, s).live == s.live
  {
  }

  // ---------------------------------------------------------------- stale registers

  /** Two machines agree, but for stale registers. */
  ghost predicate AgreeBut(stale: set<nat>, live: set<nat>, a: State, b: State) {
    a.log == b.log && forall r :: r in live && r !in stale ==> Get(a.regs, r) == Get(b.regs, r)
  }

  lemma KeepingStep(t: Target, f: Meaning, s: Status, live: set<nat>, stale: set<nat>, i: Insn, a: State, b: State, start: State)
    requires t.moveWords >= 1 && live <= Range(0, t.regCount) && InsnOk(t, live, i)
    requires AgreeBut(stale, live, a, b) && (i.kind != NotAnInsn ==> stale !! i.inputs)
    ensures AgreeBut(StaleAfter(t, s, stale, i), LiveAfter(live, i),
                     ExecuteKeeping(t, f, s, i, a, start), Execute(t, f, i, b, false))
  {
    if i.kind != NotAnInsn {
      hide Overwritten, AllRegs, Referenced, Run, RestoreBefore;
      assert Inputs(i, a.regs) == Inputs(i, b.regs);
      var m, kept := Execute(t, f, i, a, false), Overwritten(t, s, i);
      var was := Run(t, f, RestoreBefore(t, s, i).out, start);
      assert Execute(t, f, i, b, false).log == m.log;
      hide Execute, Inputs;
      if i.kind != Call {
        NoneOverwritten(t, s, i);
      }
      KeepLog(m, kept, was);
      forall r | r in live + AllRegs(i.stores) && r !in kept && (r in AllRegs(i.stores) || r !in stale)
        ensures Get(ExecuteKeeping(t, f, s, i, a, start).regs, r) == Get(Execute(t, f, i, b, false).regs, r)
      {
        Kept(m, kept, was, r);
        Executed(t, f, i, a, false, r);
        Executed(t, f, i, b, false, r);
      }
      hide ExecuteKeeping, Keep, Get;
    }
  }

  lemma NoneOverwritten(t: Target, s: Status, i: Insn)
    requires t.moveWords >= 1 && i.kind != Call
    ensures Overwritten(t, s, i) == {}
  {
  }

  lemma {:induction false} LiveInside(t: Target, live: set<nat>, insns: seq<Insn>)
    requires BlockOk(t, live, insns)
    ensures LiveAt(live, insns) <= Range(0, t.regCount)
  {
    if insns != [] {
      BlockOkPrefix(t, live, insns);
      hide BlockOk;
      LiveInside(t, live, insns[..|insns| - 1]);
    }
  }

  lemma NoStaleReadsPrefix(t: Target, live: set<nat>, insns: seq<Insn>)
    requires t.moveWords >= 1 && insns != []
    ensures NoStaleReads(t, live, insns) <==>
            NoStaleReads(t, live, insns[..|insns| - 1]) && NoStaleRead(t, live, insns, |insns| - 1)
  {
    hide Stale;
    var before := insns[..|insns| - 1];
    forall k | 0 <= k < |before|
      ensures NoStaleRead(t, live, before, k) <==> NoStaleRead(t, live, insns, k)
    {
      Prefixes(insns, k);
    }
  }

  /** Without stale reads the machines differ at most in the stale registers. */
  lemma {:induction false} KeepingAgrees(t: Target, f: Meaning, live: set<nat>, insns: seq<Insn>, ideal: State, start: State)
    requires t.moveWords >= 1 && BlockOk(t, live, insns) && NoStaleReads(t, live, insns)
    ensures AgreeBut(Stale(t, live, insns), LiveAt(live, insns),
                     RunKeeping(t, f, live, insns, ideal, start), RunIdeal(t, f, insns, ideal))
  {
    if insns != [] {
      var before, i := insns[..|insns| - 1], insns[|insns| - 1];
      hide InsnOk, Execute, ExecuteKeeping, StaleAfter, ScanBlock, LiveAfter;
      BlockOkPrefix(t, live, insns);
      NoStaleReadsPrefix(t, live, insns);
      LiveInside(t, live, before);
      hide BlockOk, NoStaleReads;
      KeepingAgrees(t, f, live, before, ideal, start);
      hide AgreeBut;
      KeepingStep(t, f, ScanBlock(t, StartOfBlock(live), before), LiveAt(live, before), Stale(t, live, before), i,
                  RunKeeping(t, f, live, before, ideal, start), RunIdeal(t, f, before, ideal), start);
    }
  }

  /** The emitted block reads the same values at every insn as the original block does on a machine
      whose calls preserve registers, and ends with the same values in the live registers. */
  ghost predicate Preserved(t: Target, f: Meaning, live: set<nat>, insns: seq<Insn>, ideal: State, start: State)
    requires t.moveWords >= 1
  {
    StartsAlike(LiveAt(live, insns), RunIdeal(t, f, insns, ideal), Run(t, f, SaveBlock(t, live, insns).out, start))
  }

  /** Main theorem.  Whatever insns compute and whatever calls leave in clobbered registers, a block
      without stale registers is preserved. */
  lemma BlockPreserved(t: Target, f: Meaning, live: set<nat>, insns: seq<Insn>, ideal: State, start: State)
    requires TargetOk(t) && BlockOk(t, live, insns) && NoneStale(t, live, insns) && StartsAlike(live, ideal, start)
    requires !SaveBlock(t, live, insns).aborted
    ensures Preserved(t, f, live, insns, ideal, start)
  {
    MoveWordsPositive(t);
    BlockKeeps(t, f, live, insns, ideal, start);
    hide BlockOk, ScanBlock, TargetOk, Run, LiveAt, RunKeeping, RunIdeal, NoStaleRead, SaveBlock;
    KeepingAgrees(t, f, live, insns, ideal, start);
  }
}
