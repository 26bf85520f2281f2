/**
 The condition of the main theorem is exact: a block that reads a stale register, or leaves one live,
 goes wrong for some meaning of its insns.
 */
module CallerSaveExact {
  import opened Helpers
  import opened SaveAreas
  import opened CallerSave
  import opened CallerSaveRun
  import opened CallerSaveProof
  import opened CallerSaveTheorem

  /** Every insn has a number of its own, as `INSN_UID` gives. */
  ghost predicate Distinct(insns: seq<Insn>) {
    forall j, k :: 0 <= j < k < |insns| ==> insns[j].id != insns[k].id
  }

  /** Every insn stores its number, counted from 1; a call leaves zeros in clobbered registers. */
  const OWN: Meaning := Meaning((id, _, _) => id + 1, (_, _) => 0)
  const BLANK: State := State(map[], map[], [])

  // ---------------------------------------------------------------- what registers may hold

  ghost predicate Holds(m: State, values: set<int>) {
    && 0 in values
    && (forall r :: r in m.regs ==> m.regs[r] in values)
    && (forall w :: w in m.frame ==> m.frame[w] in values)
  }

  lemma ExecuteHolds(t: Target, i: Insn, m: State, values: set<int>)
    requires Holds(m, values) && i.id + 1 in values
    ensures Holds(Execute(t, OWN, i, m, true), values)
  {
    hide AllRegs, Inputs;
  }

  lemma SaveHolds(t: Target, g: RegRange, slot: nat, m: State, values: set<int>)
    requires Holds(m, values)
    ensures Holds(Step(t, OWN, Save(g, slot), m), values)
  {
    var after := Step(t, OWN, Save(g, slot), m);
    assert after.regs == m.regs;
    hide Step;
    forall w | w in after.frame
      ensures after.frame[w] in values
    {
      SavedWord(t, OWN, g, slot, w, m);
    }
  }

  lemma RestoreHolds(t: Target, g: RegRange, slot: nat, m: State, values: set<int>)
    requires Holds(m, values)
    ensures Holds(Step(t, OWN, Restore(g, slot), m), values)
  {
    var after := Step(t, OWN, Restore(g, slot), m);
    assert after.frame == m.frame && after.regs.Keys == Range(0, t.regCount);
    hide Step;
    forall r | r in after.regs
      ensures after.regs[r] in values
    {
      RestoredRegister(t, OWN, g, slot, r, m);
    }
  }

  lemma StepHolds(t: Target, c: Code, m: State, values: set<int>)
    requires Holds(m, values) && (c.Original? ==> c.insn.id + 1 in values)
    ensures Holds(Step(t, OWN, c, m), values)
  {
    hide Execute, Holds;
    match c
    case Original(i) => ExecuteHolds(t, i, m, values);
    case Save(g, slot) => SaveHolds(t, g, slot, m, values);
    case Restore(g, slot) => RestoreHolds(t, g, slot, m, values);
  }

  lemma {:induction false} RunHolds(t: Target, code: seq<Code>, values: set<int>)
    requires 0 in values && forall c :: c in code && c.Original? ==> c.insn.id + 1 in values
    ensures Holds(Run(t, OWN, code, BLANK), values)
  {
    if code != [] {
      var rest := code[..|code| - 1];
      assert forall c :: c in rest ==> c in code;
      RunHolds(t, rest, values);
      hide Step, Holds;
      StepHolds(t, code[|code| - 1], Run(t, OWN, rest, BLANK), values);
    }
  }

  // ---------------------------------------------------------------- the insns emitted

  /** The original insns among `out` are of `insns`. */
  ghost predicate Originals(out: seq<Code>, insns: seq<Insn>) {
    forall c :: c in out && c.Original? ==> c.insn in insns
  }

  lemma {:induction false} RestoreRangeEmits(t: Target, s: Status, r: nat, last: nat, w: nat, insns: seq<Insn>)
    requires w >= 1 && Originals(s.out, insns)
    ensures Originals(RestoreRange(t, s, r, last, w).out, insns)
    decreases last - r
  {
    if r < last && !s.aborted {
      if r !in s.need {
        RestoreRangeEmits(t, s, r + 1, last, w, insns);
      } else if r in t.slots.word {
        assert CanRestore(t, s, r, 1);
        var k := RestoreWidth(t, s, r, w);
        RestoreRangeEmits(t, AfterRestore(t, s, r, k), r + k, last, w, insns);
      }
    }
  }

  lemma {:induction false} RestoreReferencedEmits(t: Target, s: Status, e: Rtx, insns: seq<Insn>)
    requires t.moveWords >= 1 && Originals(s.out, insns)
    ensures Originals(RestoreReferenced(t, s, e).out, insns)
    decreases e, 1
  {
    hide Originals;
    match e
    case Clobber(_) =>
    case HardReg(g) =>
      if g.count != 0 {
        RestoreRangeEmits(t, s, g.first, g.first + g.count, Min(g.count, t.moveWords), insns);
      }
    case Pseudo(args) => RestoreAllEmits(t, s, args, insns);
    case Expr(args) => RestoreAllEmits(t, s, args, insns);
  }

  lemma {:induction false} RestoreAllEmits(t: Target, s: Status, xs: seq<Rtx>, insns: seq<Insn>)
    requires t.moveWords >= 1 && Originals(s.out, insns)
    ensures Originals(RestoreAllReferenced(t, s, xs).out, insns)
    decreases xs, 0
  {
    hide Originals;
    if xs != [] {
      RestoreReferencedEmits(t, s, xs[|xs| - 1], insns);
      RestoreAllEmits(t, RestoreReferenced(t, s, xs[|xs| - 1]), xs[..|xs| - 1], insns);
    }
  }

  lemma {:induction false} SaveFromEmits(t: Target, s: Status, callSets: set<nat>, r: nat, insns: seq<Insn>)
    requires t.moveWords >= 1 && Originals(s.out, insns)
    ensures Originals(SaveFrom(t, s, callSets, r).out, insns)
    decreases t.regCount - r
  {
    if r < t.regCount && !s.aborted {
      var (s1, k) := SaveAt(t, s, callSets, r);
      assert Originals(s1.out, insns);
      hide SaveAt;
      SaveFromEmits(t, s1, callSets, r + k, insns);
    }
  }

  lemma RestoreBeforeEmits(t: Target, s: Status, i: Insn, insns: seq<Insn>)
    requires t.moveWords >= 1 && Originals(s.out, insns)
    ensures Originals(RestoreBefore(t, s, i).out, insns)
  {
    hide Originals;
    RestoreReferencedEmits(t, s, i.pattern, insns);
  }

  lemma ScanInsnEmits(t: Target, s: Status, i: Insn, insns: seq<Insn>)
    requires t.moveWords >= 1 && Originals(s.out, insns)
    ensures Originals(ScanInsn(t, s, i).out, insns + [i])
  {
    if i.kind != NotAnInsn {
      RestoreBeforeEmits(t, s, i, insns);
      var s2 := ClearLive(RestoreBefore(t, s, i), i.dead);
      hide RestoreBefore, AllRegs;
      if i.kind == Call {
        var x := AllRegs(i.stores);
        SaveFromEmits(t, s2.(saved := s2.saved - x, need := s2.need - x), x, 0, insns);
        hide SaveFrom;
      }
    }
  }

  lemma {:induction false} ScanBlockEmits(t: Target, live: set<nat>, insns: seq<Insn>)
    requires t.moveWords >= 1
    ensures Originals(ScanBlock(t, StartOfBlock(live), insns).out, insns)
  {
    hide ScanInsn, Originals;
    if insns == [] {
      assert Originals([], []) by { NoOriginals(); }
    } else {
      var before, i := insns[..|insns| - 1], insns[|insns| - 1];
      ScanBlockEmits(t, live, before);
      ScanInsnEmits(t, ScanBlock(t, StartOfBlock(live), before), i, before);
      assert before + [i] == insns;
    }
  }

  lemma NoOriginals()
    ensures Originals([], [])
  {
  }

  // ---------------------------------------------------------------- stale registers hold other values

  lemma {:induction false} StaleIsLive(t: Target, live: set<nat>, insns: seq<Insn>)
    requires t.moveWords >= 1
    ensures Stale(t, live, insns) <= LiveAt(live, insns)
  {
    if insns != [] {
      hide SavedBefore, ScanBlock, AllRegs;
      StaleIsLive(t, live, insns[..|insns| - 1]);
    }
  }

  ghost predicate HoldsNo(m: State, value: int) {
    forall q :: Get(m.regs, q) != value
  }

  /** Before the last insn of a block no register holds what that insn will store. */
  lemma NotYetStored(t: Target, live: set<nat>, insns: seq<Insn>)
    requires t.moveWords >= 1 && insns != [] && Distinct(insns)
    ensures var before, i := insns[..|insns| - 1], insns[|insns| - 1];
      HoldsNo(Run(t, OWN, RestoreBefore(t, ScanBlock(t, StartOfBlock(live), before), i).out, BLANK), i.id + 1)
  {
    hide Run, ScanBlock, RestoreBefore;
    var before, i := insns[..|insns| - 1], insns[|insns| - 1];
    var s := ScanBlock(t, StartOfBlock(live), before);
    ScanBlockEmits(t, live, before);
    RestoreBeforeEmits(t, s, i, before);
    var values: set<int> := {0} + set j | j in before :: j.id + 1;
    RunHolds(t, RestoreBefore(t, s, i).out, values);
  }

  ghost predicate Differ(stale: set<nat>, a: State, b: State) {
    forall q :: q in stale ==> Get(a.regs, q) != Get(b.regs, q)
  }

  lemma StaleStep(t: Target, s: Status, stale: set<nat>, i: Insn, a: State, b: State)
    requires t.moveWords >= 1 && Differ(stale, a, b) && stale <= Range(0, t.regCount)
    requires i.kind != NotAnInsn ==> AllRegs(i.stores) <= Range(0, t.regCount)
    requires HoldsNo(Run(t, OWN, RestoreBefore(t, s, i).out, BLANK), i.id + 1)
    ensures Differ(StaleAfter(t, s, stale, i), ExecuteKeeping(t, OWN, s, i, a, BLANK), Execute(t, OWN, i, b, false))
  {
    hide SavedBefore, AllRegs, Run, RestoreBefore, Inputs;
    if i.kind != NotAnInsn {
      var m, kept := Execute(t, OWN, i, a, false), Overwritten(t, s, i);
      var was := Run(t, OWN, RestoreBefore(t, s, i).out, BLANK);
      hide Execute;
      forall q | q in StaleAfter(t, s, stale, i)
        ensures Get(ExecuteKeeping(t, OWN, s, i, a, BLANK).regs, q) != Get(Execute(t, OWN, i, b, false).regs, q)
      {
        Kept(m, kept, was, q);
        Executed(t, OWN, i, a, false, q);
        Executed(t, OWN, i, b, false, q);
      }
    }
  }

  lemma StoresInside(t: Target, live: set<nat>, i: Insn)
    requires InsnOk(t, live, i) && i.kind != NotAnInsn
    ensures AllRegs(i.stores) <= Range(0, t.regCount)
  {
  }

  lemma DistinctPrefix(insns: seq<Insn>)
    requires insns != [] && Distinct(insns)
    ensures Distinct(insns[..|insns| - 1])
  {
  }

  lemma {:induction false} StaleDiffers(t: Target, live: set<nat>, insns: seq<Insn>)
    requires t.moveWords >= 1 && BlockOk(t, live, insns) && Distinct(insns)
    ensures Differ(Stale(t, live, insns), RunKeeping(t, OWN, live, insns, BLANK, BLANK), RunIdeal(t, OWN, insns, BLANK))
  {
    if insns != [] {
      var before, i := insns[..|insns| - 1], insns[|insns| - 1];
      hide InsnOk, Execute, ExecuteKeeping, StaleAfter, ScanBlock, LiveAfter, RestoreBefore, Run, AllRegs;
      BlockOkPrefix(t, live, insns);
      DistinctPrefix(insns);
      LiveInside(t, live, before);
      StaleIsLive(t, live, before);
      hide BlockOk;
      StaleDiffers(t, live, before);
      NotYetStored(t, live, insns);
      if i.kind != NotAnInsn {
        StoresInside(t, LiveAt(live, before), i);
      }
      hide Distinct, Differ;
      StaleStep(t, ScanBlock(t, StartOfBlock(live), before), Stale(t, live, before), i,
                RunKeeping(t, OWN, live, before, BLANK, BLANK), RunIdeal(t, OWN, before, BLANK));
    }
  }

  // ---------------------------------------------------------------- stale reads show

  lemma LastLogged(t: Target, f: Meaning, s: Status, i: Insn, a: State, b: State, start: State)
    requires t.moveWords >= 1
    requires ExecuteKeeping(t, f, s, i, a, start).log == Execute(t, f, i, b, false).log
    ensures a.log == b.log && (i.kind != NotAnInsn ==> Inputs(i, a.regs) == Inputs(i, b.regs))
  {
    if i.kind != NotAnInsn {
      var m := Execute(t, f, i, a, false);
      assert m.log == a.log + [Inputs(i, a.regs)];
      assert Execute(t, f, i, b, false).log == b.log + [Inputs(i, b.regs)];
      hide Inputs, AllRegs, Run, Overwritten;
      KeepLog(m, Overwritten(t, s, i), Run(t, f, RestoreBefore(t, s, i).out, start));
      hide Execute, Keep;
      assert a.log == (a.log + [Inputs(i, a.regs)])[..|a.log|];
      assert b.log == (b.log + [Inputs(i, b.regs)])[..|b.log|];
    }
  }

  lemma SameInputsRead(i: Insn, a: State, b: State, stale: set<nat>)
    requires Inputs(i, a.regs) == Inputs(i, b.regs) && Differ(stale, a, b)
    ensures stale !! i.inputs
  {
    forall r | r in i.inputs
      ensures r !in stale
    {
      assert Inputs(i, a.regs)[r] == Inputs(i, b.regs)[r];
    }
  }

  /** If all insns read the same values, none reads a stale register. */
  lemma {:induction false} ReadsShow(t: Target, live: set<nat>, insns: seq<Insn>)
    requires t.moveWords >= 1 && BlockOk(t, live, insns) && Distinct(insns)
    requires RunKeeping(t, OWN, live, insns, BLANK, BLANK).log == RunIdeal(t, OWN, insns, BLANK).log
    ensures NoStaleReads(t, live, insns)
  {
    if insns != [] {
      var before, i := insns[..|insns| - 1], insns[|insns| - 1];
      hide InsnOk, Execute, ExecuteKeeping, Stale, ScanBlock, LiveAt, Inputs;
      BlockOkPrefix(t, live, insns);
      DistinctPrefix(insns);
      NoStaleReadsPrefix(t, live, insns);
      var a, b := RunKeeping(t, OWN, live, before, BLANK, BLANK), RunIdeal(t, OWN, before, BLANK);
      LastLogged(t, OWN, ScanBlock(t, StartOfBlock(live), before), i, a, b, BLANK);
      hide BlockOk, Distinct, NoStaleReads;
      ReadsShow(t, live, before);
      StaleDiffers(t, live, before);
      if i.kind != NotAnInsn {
        SameInputsRead(i, a, b, Stale(t, live, before));
      }
    }
  }

  lemma NoneLeft(t: Target, live: set<nat>, insns: seq<Insn>, a: State, b: State, c: State)
    requires t.moveWords >= 1 && Differ(Stale(t, live, insns), a, b)
    requires StartsAlike(LiveAt(live, insns), a, c) && StartsAlike(LiveAt(live, insns), b, c)
    ensures Stale(t, live, insns) == {} && a.log == b.log
  {
    hide Stale, LiveAt;
    StaleIsLive(t, live, insns);
  }

  /** A block that is preserved when every insn stores its own number has no stale registers. */
  lemma PreservedIsSafe(t: Target, live: set<nat>, insns: seq<Insn>)
    requires TargetOk(t) && BlockOk(t, live, insns) && Distinct(insns) && !SaveBlock(t, live, insns).aborted
    requires Preserved(t, OWN, live, insns, BLANK, BLANK)
    ensures NoneStale(t, live, insns)
  {
    hide TargetOk, BlockOk, Distinct, RunKeeping, RunIdeal, Stale, LiveAt, SaveBlock, Run, NoStaleReads;
    MoveWordsPositive(t);
    assert StartsAlike(live, BLANK, BLANK);
    BlockKeeps(t, OWN, live, insns, BLANK, BLANK);
    StaleDiffers(t, live, insns);
    hide StartsAlike;
    NoneLeft(t, live, insns, RunKeeping(t, OWN, live, insns, BLANK, BLANK), RunIdeal(t, OWN, insns, BLANK),
             Run(t, OWN, SaveBlock(t, live, insns).out, BLANK));
    ReadsShow(t, live, insns);
  }

  /** A block is preserved for all meanings of its insns and from all states if and only if no insn
      uses a stale register and none is live at the end. */
  lemma PreservedExactly(t: Target, live: set<nat>, insns: seq<Insn>)
    requires TargetOk(t) && BlockOk(t, live, insns) && Distinct(insns) && !SaveBlock(t, live, insns).aborted
    ensures NoneStale(t, live, insns) <==>
            forall f, ideal, start :: StartsAlike(live, ideal, start) ==> Preserved(t, f, live, insns, ideal, start)
  {
    MoveWordsPositive(t);
    assert StartsAlike(live, BLANK, BLANK);
    hide TargetOk, BlockOk, Distinct, SaveBlock, Preserved, StartsAlike, NoneStale;
    if NoneStale(t, live, insns) {
      forall f, ideal, start | StartsAlike(live, ideal, start)
        ensures Preserved(t, f, live, insns, ideal, start)
      {
        BlockPreserved(t, f, live, insns, ideal, start);
      }
    }
    if Preserved(t, OWN, live, insns, BLANK, BLANK) {
      PreservedIsSafe(t, live, insns);
    }
  }
}
