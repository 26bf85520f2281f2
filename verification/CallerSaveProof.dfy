/**
 The emitted block agrees with the original one: a simulation over the scan of the block.
 */
module CallerSaveProof {
  import opened Helpers
  import opened SaveAreas
  import opened CallerSave
  import opened CallerSaveRun

  /** The set invariant of the scan: `need <= saved <= live`, every saved register has a slot, and
      `n_regs_saved` never undercounts the registers that need a restore. */
  ghost predicate SetsOk(t: Target, s: Status) {
    && s.need <= s.saved <= s.live <= Range(0, t.regCount)
    && (forall r :: r in s.saved ==> r in t.slots.word)
    && |s.need| <= s.n
  }

  /** Slots of saved registers, and live registers that need no restore, hold the ideal values. */
  ghost predicate ValuesOk(t: Target, s: Status, ideal: State, actual: State) {
    && (forall r :: r in s.saved && r in t.slots.word ==> Get(actual.frame, t.slots.word[r]) == Get(ideal.regs, r))
    && (forall r :: r in s.live && r !in s.need ==> Get(actual.regs, r) == Get(ideal.regs, r))
    && actual.log == ideal.log
  }

  // ---------------------------------------------------------------- restores

  lemma SlotWord(t: Target, r: nat, k: nat, q: nat)
    requires TargetOk(t) && t.slots.Has(r, k) && r <= q < r + k
    ensures q in t.slots.word && t.slots.word[q] == t.slots.At(r, k) + (q - r)
  {
  }

  lemma RestoreSets(t: Target, s: Status, r: nat, k: nat)
    requires SetsOk(t, s) && CanRestore(t, s, r, k)
    ensures SetsOk(t, AfterRestore(t, s, r, k))
  {
    SubsetSize(Range(r, k), s.need);
  }

  lemma RestoredRegister(t: Target, f: Meaning, g: RegRange, a: nat, q: nat, m: State)
    requires q < t.regCount
    ensures Get(Step(t, f, Restore(g, a), m).regs, q) ==
            if q in Regs(g) then Get(m.frame, a + (q - g.first)) else Get(m.regs, q)
  {
  }

  lemma RestoreValues(t: Target, f: Meaning, s: Status, r: nat, k: nat, ideal: State, actual: State)
    requires TargetOk(t) && SetsOk(t, s) && ValuesOk(t, s, ideal, actual) && CanRestore(t, s, r, k)
    ensures ValuesOk(t, AfterRestore(t, s, r, k), ideal,
                     Step(t, f, Restore(RegRange(r, k), t.slots.At(r, k)), actual))
  {
    hide TargetOk, GroupsAreConsecutive, WordsAreDisjoint;
    var a := t.slots.At(r, k);
    var after := Step(t, f, Restore(RegRange(r, k), a), actual);
    assert after.frame == actual.frame && after.log == actual.log;
    forall q | q in s.live && q !in s.need - Range(r, k)
      ensures Get(after.regs, q) == Get(ideal.regs, q)
    {
      RestoredRegister(t, f, RegRange(r, k), a, q, actual);
      if r <= q < r + k {
        SlotWord(t, r, k, q);
        assert q in s.need && q in s.saved;
      }
    }
    hide Step;
  }

  /** What a run of restores does to the sets: only `need` and the count change. */
  ghost predicate OnlyRestores(s: Status, s': Status) {
    && s'.live == s.live && s'.saved == s.saved && s'.need <= s.need
    && s.out <= s'.out && s'.aborted == s.aborted
  }

  /** The relation between status and machines, with the machine run on the code emitted so far. */
  ghost predicate Sim(t: Target, f: Meaning, s: Status, ideal: State, start: State) {
    SetsOk(t, s) && ValuesOk(t, s, ideal, Run(t, f, s.out, start))
  }

  lemma RestoreSim(t: Target, f: Meaning, s: Status, r: nat, k: nat, ideal: State, start: State)
    requires TargetOk(t) && Sim(t, f, s, ideal, start) && CanRestore(t, s, r, k)
    ensures Sim(t, f, AfterRestore(t, s, r, k), ideal, start)
    ensures OnlyRestores(s, AfterRestore(t, s, r, k))
  {
    hide ValuesOk, Step;
    RestoreSets(t, s, r, k);
    RestoreValues(t, f, s, r, k, ideal, Run(t, f, s.out, start));
    RunAppend(t, f, s.out, Restore(RegRange(r, k), t.slots.At(r, k)), start);
  }

  lemma NeedHasSlot(t: Target, f: Meaning, s: Status, r: nat, ideal: State, start: State)
    requires Sim(t, f, s, ideal, start) && r in s.need
    ensures CanRestore(t, s, r, 1) && r in t.slots.word
  {
  }

  lemma RestoredNotNeeded(t: Target, s: Status, r: nat, k: nat, q: nat)
    requires t.slots.Has(r, k) && r <= q < r + k
    ensures q !in AfterRestore(t, s, r, k).need
  {
  }

  lemma {:induction false} RestoreRangeSim(t: Target, f: Meaning, s: Status, r: nat, last: nat, w: nat,
                                           ideal: State, start: State)
    requires TargetOk(t) && Sim(t, f, s, ideal, start) && !s.aborted && w >= 1
    ensures var s' := RestoreRange(t, s, r, last, w);
      Sim(t, f, s', ideal, start) && OnlyRestores(s, s') && forall q :: r <= q < last ==> q !in s'.need
    decreases last - r
  {
    hide Sim, AfterRestore;
    if r >= last {
    } else if r !in s.need {
      RestoreRangeSim(t, f, s, r + 1, last, w, ideal, start);
    } else {
      NeedHasSlot(t, f, s, r, ideal, start);
      var k := RestoreWidth(t, s, r, w);
      var s1 := AfterRestore(t, s, r, k);
      RestoreSim(t, f, s, r, k, ideal, start);
      RestoreRangeSim(t, f, s1, r + k, last, w, ideal, start);
      var s' := RestoreRange(t, s1, r + k, last, w);
      forall q | r <= q < last
        ensures q !in s'.need
      {
        if q < r + k {
          RestoredNotNeeded(t, s, r, k, q);
        }
      }
    }
  }

  lemma {:induction false} RestoreReferencedSim(t: Target, f: Meaning, s: Status, e: Rtx, ideal: State, start: State)
    requires TargetOk(t) && Sim(t, f, s, ideal, start) && !s.aborted
    ensures var s' := RestoreReferenced(t, s, e);
      Sim(t, f, s', ideal, start) && OnlyRestores(s, s') && s'.need !! Referenced(e)
    decreases e, 1
  {
    hide Sim;
    match e
    case Clobber(_) =>
    case HardReg(g) =>
      if g.count != 0 {
        RestoreRangeSim(t, f, s, g.first, g.first + g.count, Min(g.count, t.moveWords), ideal, start);
      }
    case Pseudo(args) => RestoreAllSim(t, f, s, args, ideal, start);
    case Expr(args) => RestoreAllSim(t, f, s, args, ideal, start);
  }

  lemma {:induction false} RestoreAllSim(t: Target, f: Meaning, s: Status, xs: seq<Rtx>, ideal: State, start: State)
    requires TargetOk(t) && Sim(t, f, s, ideal, start) && !s.aborted
    ensures var s' := RestoreAllReferenced(t, s, xs);
      Sim(t, f, s', ideal, start) && OnlyRestores(s, s') && s'.need !! AllReferenced(xs)
    decreases xs, 0
  {
    hide Sim;
    if xs != [] {
      var e, rest := xs[|xs| - 1], xs[..|xs| - 1];
      RestoreReferencedSim(t, f, s, e, ideal, start);
      RestoreAllSim(t, f, RestoreReferenced(t, s, e), rest, ideal, start);
    }
  }

  // ---------------------------------------------------------------- death notes and stores

  lemma ClearLiveSim(t: Target, s: Status, xs: seq<RegRange>, ideal: State, actual: State)
    requires SetsOk(t, s) && ValuesOk(t, s, ideal, actual)
    ensures SetsOk(t, ClearLive(s, xs)) && ValuesOk(t, ClearLive(s, xs), ideal, actual)
  {
    NeedShrinks(s.need, AllRegs(xs));
  }

  lemma NeedShrinks(a: set<nat>, b: set<nat>)
    ensures |a - b| <= |a|
  {
    SubsetSize(a - b, a);
  }

  // ---------------------------------------------------------------- saves

  lemma SaveSets(t: Target, s: Status, r: nat, k: nat)
    requires TargetOk(t) && SetsOk(t, s) && CanSave(t, s, r, k)
    ensures SetsOk(t, AfterSave(t, s, r, k))
  {
    forall q | q in Range(r, k)
      ensures q in t.slots.word
    {
      SlotWord(t, r, k, q);
    }
    hide TargetOk, GroupsAreConsecutive, WordsAreDisjoint;
    UnionSize(s.need, Range(r, k));
  }

  lemma UnionSize(a: set<nat>, b: set<nat>)
    ensures |a + b| <= |a| + |b|
  {
    assert a + b == a + (b - a);
    NeedShrinks(b, a);
  }

  lemma SavedWord(t: Target, f: Meaning, g: RegRange, a: nat, w: nat, m: State)
    ensures Get(Step(t, f, Save(g, a), m).frame, w) ==
            if a <= w < a + g.count then Get(m.regs, g.first + (w - a)) else Get(m.frame, w)
  {
  }

  /** The word slot of `q` lies in the slot of `r`, ..., `r + k - 1` only if `q` is one of them. */
  lemma SlotOwner(t: Target, r: nat, k: nat, q: nat)
    requires TargetOk(t) && k > 0 && t.slots.Has(r, k) && q in t.slots.word
    requires t.slots.At(r, k) <= t.slots.word[q] < t.slots.At(r, k) + k
    ensures r <= q < r + k && t.slots.word[q] - t.slots.At(r, k) == q - r
  {
    var p := r + (t.slots.word[q] - t.slots.At(r, k));
    SlotWord(t, r, k, p);
    assert t.slots.word[p] == t.slots.word[q];
  }

  lemma SavedValue(t: Target, f: Meaning, s: Status, r: nat, k: nat, q: nat, ideal: State, actual: State)
    requires TargetOk(t) && SetsOk(t, s) && ValuesOk(t, s, ideal, actual) && k > 0 && CanSave(t, s, r, k)
    requires q in t.slots.word && (q in s.saved || r <= q < r + k)
    ensures Get(Step(t, f, Save(RegRange(r, k), t.slots.At(r, k)), actual).frame, t.slots.word[q]) == Get(ideal.regs, q)
  {
    hide TargetOk, Step;
    var a, w := t.slots.At(r, k), t.slots.word[q];
    SavedWord(t, f, RegRange(r, k), a, w, actual);
    if r <= q < r + k {
      SlotWord(t, r, k, q);
      assert q in s.live && q !in s.saved && q !in s.need;
    } else if a <= w < a + k {
      SlotOwner(t, r, k, q);
    }
  }

  lemma SaveValues(t: Target, f: Meaning, s: Status, r: nat, k: nat, ideal: State, actual: State)
    requires TargetOk(t) && SetsOk(t, s) && ValuesOk(t, s, ideal, actual) && k > 0 && CanSave(t, s, r, k)
    ensures ValuesOk(t, AfterSave(t, s, r, k), ideal,
                     Step(t, f, Save(RegRange(r, k), t.slots.At(r, k)), actual))
  {
    hide TargetOk, SetsOk;
    var after := Step(t, f, Save(RegRange(r, k), t.slots.At(r, k)), actual);
    assert after.regs == actual.regs && after.log == actual.log;
    hide Step;
    forall q | q in s.saved + Range(r, k) && q in t.slots.word
      ensures Get(after.frame, t.slots.word[q]) == Get(ideal.regs, q)
    {
      SavedValue(t, f, s, r, k, q, ideal, actual);
    }
  }

  lemma SaveSim(t: Target, f: Meaning, s: Status, r: nat, k: nat, ideal: State, start: State)
    requires TargetOk(t) && Sim(t, f, s, ideal, start) && k > 0 && CanSave(t, s, r, k)
    ensures Sim(t, f, AfterSave(t, s, r, k), ideal, start)
    ensures Run(t, f, AfterSave(t, s, r, k).out, start).regs == Run(t, f, s.out, start).regs
  {
    hide ValuesOk, CanSave, SetsOk, TargetOk;
    assert t.slots.Has(r, k) by { SaveHas(t, s, r, k); }
    SaveSets(t, s, r, k);
    SaveValues(t, f, s, r, k, ideal, Run(t, f, s.out, start));
    RunAppend(t, f, s.out, Save(RegRange(r, k), t.slots.At(r, k)), start);
  }

  lemma SaveHas(t: Target, s: Status, r: nat, k: nat)
    requires CanSave(t, s, r, k)
    ensures t.slots.Has(r, k)
  {
  }

  /** Registers `r`, ..., `next - 1` have been dealt with. */
  ghost predicate Handled(t: Target, s: Status, callSets: set<nat>, r: nat, next: nat) {
    forall q :: r <= q < next && t.Clobbered(q) && q in s.live && q !in callSets ==> q in s.saved
  }

  lemma SaveAtSim(t: Target, f: Meaning, s: Status, callSets: set<nat>, r: nat, ideal: State, start: State)
    requires TargetOk(t) && Sim(t, f, s, ideal, start) && !s.aborted
    ensures var (s1, k) := SaveAt(t, s, callSets, r);
      !s1.aborted ==>
        && Sim(t, f, s1, ideal, start)
        && s1.live == s.live && s.saved <= s1.saved && Handled(t, s1, callSets, r, r + k)
        && Run(t, f, s1.out, start).regs == Run(t, f, s.out, start).regs
  {
    hide Sim, Run, TargetOk, SaveAt, Handled, AfterSave;
    MoveWordsPositive(t);
    var (s1, k) := SaveAt(t, s, callSets, r);
    SaveAtIs(t, s, callSets, r);
    if s1 == s {
    } else if !s1.aborted {
      SaveSim(t, f, s, r, k, ideal, start);
    }
  }

  /** Nothing is done, the pass aborts, or a group from `r` on is saved. */
  lemma SaveAtIs(t: Target, s: Status, callSets: set<nat>, r: nat)
    requires t.moveWords >= 1 && !s.aborted
    ensures var (s1, k) := SaveAt(t, s, callSets, r);
      s1.aborted || (
        && (s1 == s || (k > 0 && CanSave(t, s, r, k) && s1 == AfterSave(t, s, r, k)))
        && s1.live == s.live && s.saved <= s1.saved && Handled(t, s1, callSets, r, r + k))
  {
  }

  lemma {:induction false} SaveFromSim(t: Target, f: Meaning, s: Status, callSets: set<nat>, r: nat,
                                       ideal: State, start: State)
    requires TargetOk(t) && Sim(t, f, s, ideal, start) && !s.aborted
    ensures var s' := SaveFrom(t, s, callSets, r);
      !s'.aborted ==>
        && Sim(t, f, s', ideal, start)
        && s'.live == s.live && s.saved <= s'.saved && Handled(t, s', callSets, r, t.regCount)
        && Run(t, f, s'.out, start).regs == Run(t, f, s.out, start).regs
    decreases t.regCount - r
  {
    hide Sim, TargetOk, Run, SaveAt, Handled;
    MoveWordsPositive(t);
    if r < t.regCount {
      var (s1, k) := SaveAt(t, s, callSets, r);
      SaveAtSim(t, f, s, callSets, r, ideal, start);
      if !s1.aborted {
        SaveFromSim(t, f, s1, callSets, r + k, ideal, start);
        var s' := SaveFrom(t, s1, callSets, r + k);
        if !s'.aborted {
          HandledJoin(t, s1, s', callSets, r, r + k, t.regCount);
        }
      }
    } else {
      NoneToHandle(t, s, callSets, r, t.regCount);
    }
  }

  lemma HandledJoin(t: Target, s: Status, s': Status, callSets: set<nat>, r: nat, mid: nat, next: nat)
    requires Handled(t, s, callSets, r, mid) && s'.live == s.live && s.saved <= s'.saved
    ensures Handled(t, s', callSets, mid, next) ==> Handled(t, s', callSets, r, next)
  {
  }

  lemma NoneToHandle(t: Target, s: Status, callSets: set<nat>, r: nat, next: nat)
    requires r >= next
    ensures Handled(t, s, callSets, r, next)
  {
  }

  lemma MoveWordsPositive(t: Target)
    requires TargetOk(t)
    ensures t.moveWords >= 1
  {
  }

  // ---------------------------------------------------------------- one insn

  lemma Executed(t: Target, f: Meaning, i: Insn, m: State, real_: bool, r: nat)
    requires i.kind != NotAnInsn && r < t.regCount
    ensures Get(Execute(t, f, i, m, real_).regs, r) ==
            if r in AllRegs(i.stores) then f.result(i.id, Inputs(i, m.regs), r)
            else if real_ && i.kind == Call && r in t.callUsed && r !in t.callFixed then f.garbage(|m.log|, r)
            else Get(m.regs, r)
  {
  }

  /** The values an insn reads are the ideal ones. */
  ghost predicate ReadsAgree(i: Insn, ideal: State, actual: State) {
    forall r :: r in i.inputs ==> Get(actual.regs, r) == Get(ideal.regs, r)
  }

  lemma SameInputs(i: Insn, ideal: State, actual: State)
    requires ReadsAgree(i, ideal, actual)
    ensures Inputs(i, actual.regs) == Inputs(i, ideal.regs)
  {
  }

  /** An insn other than a call, between machines that agree on what it reads. */
  lemma PlainValues(t: Target, f: Meaning, s: Status, i: Insn, ideal: State, actual: State)
    requires SetsOk(t, s) && ValuesOk(t, s, ideal, actual) && ReadsAgree(i, ideal, actual)
    requires i.kind != NotAnInsn && i.kind != Call && AllRegs(i.stores) <= Range(0, t.regCount)
    ensures ValuesOk(t, SetLive(s, i.stores), Execute(t, f, i, ideal, false), Execute(t, f, i, actual, true))
  {
    SameInputs(i, ideal, actual);
    var ideal', actual' := Execute(t, f, i, ideal, false), Execute(t, f, i, actual, true);
    assert actual'.frame == actual.frame && actual'.log == ideal'.log;
    hide Execute;
    forall r | r in s.live + AllRegs(i.stores)
      ensures (r in s.saved && r in t.slots.word && r !in AllRegs(i.stores) ==>
                Get(actual'.frame, t.slots.word[r]) == Get(ideal'.regs, r))
      ensures r !in s.need - AllRegs(i.stores) ==> Get(actual'.regs, r) == Get(ideal'.regs, r)
    {
      Executed(t, f, i, ideal, false, r);
      Executed(t, f, i, actual, true, r);
    }
  }

  /** A call, when all clobbered registers live across it are saved; it leaves the saved registers
      that it sets as they were. */
  lemma CallValues(t: Target, f: Meaning, s: Status, i: Insn, ideal: State, actual: State)
    requires SetsOk(t, s) && ValuesOk(t, s, ideal, actual) && ReadsAgree(i, ideal, actual)
    requires Handled(t, s, AllRegs(i.stores), 0, t.regCount)
    requires forall r :: r in s.saved && r in AllRegs(i.stores) ==> Get(ideal.regs, r) == Get(actual.regs, r)
    requires i.kind == Call && AllRegs(i.stores) <= Range(0, t.regCount)
    ensures ValuesOk(t, s.(live := s.live + AllRegs(i.stores), need := s.saved, n := |s.saved|),
                     Keep(Execute(t, f, i, ideal, false), s.saved * AllRegs(i.stores), actual),
                     Execute(t, f, i, actual, true))
  {
    SameInputs(i, ideal, actual);
    var called, actual' := Execute(t, f, i, ideal, false), Execute(t, f, i, actual, true);
    assert actual'.frame == actual.frame && actual'.log == called.log;
    hide Execute;
    forall r | r in s.live + AllRegs(i.stores)
      ensures var ideal' := Keep(called, s.saved * AllRegs(i.stores), actual);
        && (r in s.saved && r in t.slots.word ==> Get(actual'.frame, t.slots.word[r]) == Get(ideal'.regs, r))
        && (r !in s.saved ==> Get(actual'.regs, r) == Get(ideal'.regs, r))
    {
      Kept(called, s.saved * AllRegs(i.stores), actual, r);
      Executed(t, f, i, ideal, false, r);
      Executed(t, f, i, actual, true, r);
    }
  }

  lemma Kept(m: State, kept: set<nat>, was: State, r: nat)
    ensures Get(Keep(m, kept, was).regs, r) == if r in kept then Get(was.regs, r) else Get(m.regs, r)
  {
  }

  /** Before the saves, the registers that the call sets lose theirs; for the saves, the ideal values
      of these registers are what they hold. */
  lemma EmptySim(t: Target, f: Meaning, s: Status, callSets: set<nat>, ideal: State, start: State)
    requires Sim(t, f, s, ideal, start)
    ensures Sim(t, f, s.(saved := s.saved - callSets, need := s.need - callSets),
                Keep(ideal, callSets, Run(t, f, s.out, start)), start)
  {
    NeedShrinks(s.need, callSets);
    hide Run, Keep;
    forall r
      ensures var was := Run(t, f, s.out, start);
        Get(Keep(ideal, callSets, was).regs, r) == if r in callSets then Get(was.regs, r) else Get(ideal.regs, r)
    {
      Kept(ideal, callSets, Run(t, f, s.out, start), r);
    }
    KeepLog(ideal, callSets, Run(t, f, s.out, start));
  }

  lemma KeepLog(m: State, kept: set<nat>, was: State)
    ensures Keep(m, kept, was).log == m.log && Keep(m, kept, was).frame == m.frame
  {
  }

  /** A call does not see what the registers that it sets held, unless it uses them. */
  lemma KeptExecution(t: Target, f: Meaning, i: Insn, ideal: State, actual: State)
    requires ReadsAgree(i, ideal, actual) && i.kind != NotAnInsn
    ensures ReadsAgree(i, Keep(ideal, AllRegs(i.stores), actual), actual)
    ensures Execute(t, f, i, Keep(ideal, AllRegs(i.stores), actual), false) == Execute(t, f, i, ideal, false)
  {
    hide AllRegs, Get;
    var other := Keep(ideal, AllRegs(i.stores), actual);
    forall r
      ensures Get(other.regs, r) == if r in AllRegs(i.stores) then Get(actual.regs, r) else Get(ideal.regs, r)
    {
      Kept(ideal, AllRegs(i.stores), actual, r);
    }
    KeepLog(ideal, AllRegs(i.stores), actual);
    hide Keep;
    assert Inputs(i, other.regs) == Inputs(i, ideal.regs);
    SameExecution(t, f, i, other, ideal);
  }

  lemma SameExecution(t: Target, f: Meaning, i: Insn, a: State, b: State)
    requires Inputs(i, a.regs) == Inputs(i, b.regs) && a.frame == b.frame && a.log == b.log
    requires forall r :: r !in AllRegs(i.stores) ==> Get(a.regs, r) == Get(b.regs, r)
    requires i.kind != NotAnInsn
    ensures Execute(t, f, i, a, false) == Execute(t, f, i, b, false)
  {
    hide AllRegs, Get, Inputs;
  }

  lemma CallSets(t: Target, s: Status, callSets: set<nat>)
    requires SetsOk(t, s) && callSets <= Range(0, t.regCount)
    ensures SetsOk(t, s.(live := s.live + callSets, need := s.saved, n := |s.saved|))
    ensures SetsOk(t, SetLiveSet(s, callSets))
  {
    NeedShrinks(s.need, callSets);
  }

  /** `SetLive` on the set of the registers. */
  function SetLiveSet(s: Status, xs: set<nat>): Status {
    s.(live := s.live + xs, saved := s.saved - xs, need := s.need - xs)
  }

  /** One more insn emitted, with the sets and values of `s'` afterwards. */
  lemma EmitSim(t: Target, f: Meaning, s: Status, s': Status, i: Insn, ideal: State, start: State)
    requires SetsOk(t, s')
    requires ValuesOk(t, s', ideal, Execute(t, f, i, Run(t, f, s.out, start), true))
    ensures Sim(t, f, s'.(out := s.out + [Original(i)]), ideal, start)
  {
    hide Execute;
    RunAppend(t, f, s.out, Original(i), start);
    hide Run;
  }

  lemma CallSim(t: Target, f: Meaning, s: Status, i: Insn, ideal: State, start: State)
    requires TargetOk(t) && Sim(t, f, s, ideal, start) && !s.aborted
    requires i.kind == Call && AllRegs(i.stores) <= Range(0, t.regCount)
    requires ReadsAgree(i, ideal, Run(t, f, s.out, start))
    requires !ScanCall(t, s, AllRegs(i.stores)).aborted
    ensures var s3 := ScanCall(t, s, AllRegs(i.stores));
      Sim(t, f, s3.(out := s3.out + [Original(i)]),
          Keep(Execute(t, f, i, ideal, false), BeforeCall(t, s, AllRegs(i.stores)).saved * AllRegs(i.stores),
               Run(t, f, s.out, start)), start)
  {
    MoveWordsPositive(t);
    hide TargetOk, Run, Execute, Handled, ValuesOk, SetsOk, ReadsAgree, AllRegs, SaveFrom, Keep;
    var callSets := AllRegs(i.stores);
    var was := Run(t, f, s.out, start);
    var other := Keep(ideal, callSets, was);
    EmptySim(t, f, s, callSets, ideal, start);
    SaveFromSim(t, f, s.(saved := s.saved - callSets, need := s.need - callSets), callSets, 0, other, start);
    var s1 := BeforeCall(t, s, callSets);
    hide BeforeCall;
    var actual := Run(t, f, s1.out, start);
    KeptExecution(t, f, i, ideal, was);
    ReadsKept(i, other, was, actual);
    forall r | r in callSets
      ensures Get(other.regs, r) == Get(actual.regs, r)
    {
      Kept(ideal, callSets, was, r);
    }
    CallValues(t, f, s1, i, other, actual);
    CallSets(t, s1, callSets);
    SameKeep(Execute(t, f, i, ideal, false), s1.saved * callSets, was, actual);
    EmitSim(t, f, s1, s1.(live := s1.live + callSets, need := s1.saved, n := |s1.saved|), i,
            Keep(Execute(t, f, i, ideal, false), s1.saved * callSets, was), start);
  }

  lemma SameKeep(m: State, kept: set<nat>, a: State, b: State)
    requires a.regs == b.regs
    ensures Keep(m, kept, a) == Keep(m, kept, b)
  {
  }

  lemma ReadsKept(i: Insn, ideal: State, a: State, b: State)
    requires ReadsAgree(i, ideal, a) && a.regs == b.regs
    ensures ReadsAgree(i, ideal, b)
  {
  }

  lemma PlainSim(t: Target, f: Meaning, s: Status, i: Insn, ideal: State, start: State)
    requires Sim(t, f, s, ideal, start)
    requires i.kind != Call && i.kind != NotAnInsn && AllRegs(i.stores) <= Range(0, t.regCount)
    requires ReadsAgree(i, ideal, Run(t, f, s.out, start))
    ensures var s3 := SetLive(s, i.stores);
      Sim(t, f, s3.(out := s3.out + [Original(i)]), Execute(t, f, i, ideal, false), start)
  {
    hide Run, Execute, ValuesOk, SetsOk, ReadsAgree;
    CallSets(t, s, AllRegs(i.stores));
    PlainValues(t, f, s, i, ideal, Run(t, f, s.out, start));
    EmitSim(t, f, s, SetLive(s, i.stores), i, Execute(t, f, i, ideal, false), start);
  }

  /** After the restores in front of an insn, the registers it reads hold the ideal values. */
  lemma RestoreBeforeSim(t: Target, f: Meaning, s: Status, i: Insn, ideal: State, start: State)
    requires TargetOk(t) && Sim(t, f, s, ideal, start) && !s.aborted
    requires i.kind != NotAnInsn && InsnOk(t, s.live, i)
    ensures var s1 := RestoreBefore(t, s, i);
      && Sim(t, f, s1, ideal, start) && OnlyRestores(s, s1)
      && ReadsAgree(i, ideal, Run(t, f, s1.out, start))
  {
    hide Run, TargetOk;
    MoveWordsPositive(t);
    var s1 := RestoreBefore(t, s, i);
    if s.n != 0 {
      RestoreReferencedSim(t, f, s, i.pattern, ideal, start);
    }
    hide RestoreBefore;
    assert s1.need !! i.inputs;
  }

  lemma ClearSim(t: Target, f: Meaning, s: Status, xs: seq<RegRange>, ideal: State, start: State)
    requires Sim(t, f, s, ideal, start)
    ensures Sim(t, f, ClearLive(s, xs), ideal, start)
  {
    hide Run, ValuesOk, SetsOk;
    ClearLiveSim(t, s, xs, ideal, Run(t, f, s.out, start));
  }

  lemma NoteSim(t: Target, f: Meaning, s: Status, i: Insn, ideal: State, start: State)
    requires Sim(t, f, s, ideal, start) && i.kind == NotAnInsn
    ensures Sim(t, f, s.(out := s.out + [Original(i)]), ideal, start)
  {
    RunAppend(t, f, s.out, Original(i), start);
    hide Run;
  }

  /** The status after the insn itself, before its REG_UNUSED notes. */
  function Scanned(t: Target, s: Status, i: Insn): Status
    requires t.moveWords >= 1 && i.kind != NotAnInsn
  {
    var s2 := ClearLive(RestoreBefore(t, s, i), i.dead);
    var s3 := if i.kind == Call then ScanCall(t, s2, AllRegs(i.stores)) else SetLive(s2, i.stores);
    s3.(out := s3.out + [Original(i)])
  }

  lemma ScannedSim(t: Target, f: Meaning, s: Status, i: Insn, ideal: State, start: State)
    requires TargetOk(t) && Sim(t, f, s, ideal, start) && !s.aborted
    requires i.kind != NotAnInsn && InsnOk(t, s.live, i) && !Scanned(t, s, i).aborted
    ensures Sim(t, f, Scanned(t, s, i), ExecuteKeeping(t, f, s, i, ideal, start), start)
  {
    RestoreBeforeSim(t, f, s, i, ideal, start);
    var s1 := RestoreBefore(t, s, i);
    hide Sim, TargetOk, RestoreBefore, Run, Execute, BeforeCall, ReadsAgree, OnlyRestores, Keep;
    ClearSim(t, f, s1, i.dead, ideal, start);
    var s2 := ClearLive(s1, i.dead);
    if i.kind == Call {
      assert s2.aborted == s1.aborted == s.aborted by { NotAborted(s, s1); }
      CallSim(t, f, s2, i, ideal, start);
    } else {
      PlainSim(t, f, s2, i, ideal, start);
    }
  }

  lemma NotAborted(s: Status, s': Status)
    requires OnlyRestores(s, s')
    ensures s'.aborted == s.aborted && s'.live == s.live
  {
  }

  /** The simulation is kept by every insn, if calls leave the registers with saves as they are. */
  lemma ScanInsnSim(t: Target, f: Meaning, s: Status, i: Insn, ideal: State, start: State)
    requires TargetOk(t) && Sim(t, f, s, ideal, start) && !s.aborted
    requires InsnOk(t, s.live, i) && !ScanInsn(t, s, i).aborted
    ensures Sim(t, f, ScanInsn(t, s, i), ExecuteKeeping(t, f, s, i, ideal, start), start)
  {
    MoveWordsPositive(t);
    hide Sim, TargetOk, Run, RestoreBefore, ScanCall, InsnOk, BeforeCall, Overwritten, Keep;
    if i.kind == NotAnInsn {
      NoteSim(t, f, s, i, ideal, start);
    } else {
      hide Execute;
      ScannedSim(t, f, s, i, ideal, start);
      ClearSim(t, f, Scanned(t, s, i), i.unused, ExecuteKeeping(t, f, s, i, ideal, start), start);
    }
  }
}
