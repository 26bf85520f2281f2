/**
 When caller-save may be relied on: groups that overlap a call's stores, and missing slots.
 */
module CallerSaveLimits {
  import opened Helpers
  import opened SaveAreas
  import opened CallerSave
  import opened CallerSaveRun
  import opened CallerSaveProof
  import opened CallerSaveTheorem

  // ---------------------------------------------------------------- overlapping groups

  /** No multi-register slot mixes registers that the call sets with others. */
  ghost predicate NoGroupOverlaps(t: Target, callSets: set<nat>) {
    forall r, j :: (r, j) in t.slots.group ==> Range(r, j) !! callSets
  }

  lemma {:induction false} SaveAvoids(t: Target, s: Status, callSets: set<nat>, r: nat)
    requires t.moveWords >= 1 && NoGroupOverlaps(t, callSets) && s.saved !! callSets
    ensures SaveFrom(t, s, callSets, r).saved !! callSets
    decreases t.regCount - r
  {
    hide SaveAt, NoGroupOverlaps;
    if r < t.regCount && !s.aborted {
      var (s1, k) := SaveAt(t, s, callSets, r);
      SaveAtAvoids(t, s, callSets, r);
      SaveAvoids(t, s1, callSets, r + k);
    }
  }

  lemma SaveAtAvoids(t: Target, s: Status, callSets: set<nat>, r: nat)
    requires t.moveWords >= 1 && NoGroupOverlaps(t, callSets) && s.saved !! callSets
    ensures SaveAt(t, s, callSets, r).0.saved !! callSets
  {
    var (s1, k) := SaveAt(t, s, callSets, r);
    if MustSave(t, s, callSets, r) && r in t.slots.word && k > 1 {
      assert (r, k) in t.slots.group;
    }
  }

  lemma OverwritesNone(t: Target, s: Status, i: Insn)
    requires t.moveWords >= 1 && (i.kind == Call ==> NoGroupOverlaps(t, AllRegs(i.stores)))
    ensures Overwritten(t, s, i) == {}
  {
    hide RestoreBefore, SaveFrom, AllRegs, NoGroupOverlaps;
    if i.kind == Call {
      var s2 := ClearLive(RestoreBefore(t, s, i), i.dead);
      var x := AllRegs(i.stores);
      SaveAvoids(t, s2.(saved := s2.saved - x, need := s2.need - x), x, 0);
    }
  }

  /** A sufficient condition on the target alone: with width-1 slots only (or groups that avoid what
      calls set), no register of any block is ever stale. */
  lemma {:induction false} NoOverlapIsSafe(t: Target, live: set<nat>, insns: seq<Insn>)
    requires t.moveWords >= 1
    requires forall i :: i in insns && i.kind == Call ==> NoGroupOverlaps(t, AllRegs(i.stores))
    ensures Stale(t, live, insns) == {} && NoneStale(t, live, insns)
  {
    if insns == [] {
      assert NoStaleReads(t, live, insns);
    } else {
      hide Overwritten, ScanBlock, AllRegs, NoGroupOverlaps;
      var before, i := insns[..|insns| - 1], insns[|insns| - 1];
      assert forall j :: j in before ==> j in insns;
      NoOverlapIsSafe(t, live, before);
      OverwritesNone(t, ScanBlock(t, StartOfBlock(live), before), i);
      NoStaleReadsPrefix(t, live, insns);
    }
  }

  /** The target and the call of the smallest example below. */
  const PAIR := Target(2, 2, {0, 1}, {}, Slots(map[0 := 0, 1 := 1], map[(0, 2) := 0]))
  const CALL_SETTING_ONE := Insn(0, Call, Expr([]), {}, [RegRange(1, 1)], [], [])

  lemma PairScanned()
    ensures ScanCall(PAIR, StartOfBlock({0, 1}), {1}) ==
            Status({0, 1}, {0, 1}, {0, 1}, 2, [Save(RegRange(0, 2), 0)], false)
  {
    var s0 := StartOfBlock({0, 1});
    assert Range(0, 2) == {0, 1};
    assert CanSave(PAIR, s0, 0, 2);
    var s1 := AfterSave(PAIR, s0, 0, 2);
    assert SaveAt(PAIR, s0, {1}, 0) == (s1, 2);
    hide SaveAt;
    assert SaveFrom(PAIR, s0, {1}, 0) == SaveFrom(PAIR, s1, {1}, 2) == s1;
    assert BeforeCall(PAIR, s0, {1}) == s1;
    assert s1.saved == {0, 1} && |s1.saved| == 2;
    hide BeforeCall;
    assert s1.(live := {0, 1}, need := {0, 1}, n := 2).out == [Save(RegRange(0, 2), 0)];
  }

  lemma PairSaved()
    ensures ScanBlock(PAIR, StartOfBlock({0, 1}), [CALL_SETTING_ONE]) ==
            Status({0, 1}, {0, 1}, {0, 1}, 2, [Save(RegRange(0, 2), 0), Original(CALL_SETTING_ONE)], false)
  {
    hide ScanCall;
    PairScanned();
    var s0 := StartOfBlock({0, 1});
    assert AllRegs([]) == {} && AllRegs(CALL_SETTING_ONE.stores) == {1};
    assert [CALL_SETTING_ONE][..0] == [];
    assert ClearLive(s0, []) == s0;
    assert ScanInsn(PAIR, s0, CALL_SETTING_ONE) ==
      Status({0, 1}, {0, 1}, {0, 1}, 2, [Save(RegRange(0, 2), 0), Original(CALL_SETTING_ONE)], false);
  }

  lemma PairRestores(s: Status)
    requires s.need == {0, 1} && s.n == 2 && !s.aborted
    ensures EndRestores(PAIR, s).out == s.out + [Restore(RegRange(0, 2), 0)] && !EndRestores(PAIR, s).aborted
  {
    assert CanRestore(PAIR, s, 0, 2);
    var s1 := AfterRestore(PAIR, s, 0, 2);
    assert RestoreWidth(PAIR, s, 0, 2) == 2;
    hide CanRestore, RestoreWidth, AfterRestore;
    assert RestoreRange(PAIR, s, 0, 2, 2) == RestoreRange(PAIR, s1, 2, 2, 2) == s1;
  }

  lemma PairCode()
    ensures var b := SaveBlock(PAIR, {0, 1}, [CALL_SETTING_ONE]);
      !b.aborted && b.out == [Save(RegRange(0, 2), 0), Original(CALL_SETTING_ONE), Restore(RegRange(0, 2), 0)]
  {
    hide ScanBlock, EndRestores, ScanInsn;
    PairSaved();
    var s := ScanBlock(PAIR, StartOfBlock({0, 1}), [CALL_SETTING_ONE]);
    PairRestores(s);
    PlacedLast(s.out, EndRestores(PAIR, s).out, Restore(RegRange(0, 2), 0));
    assert !EndsInJump([CALL_SETTING_ONE]);
  }

  lemma PlacedLast(out: seq<Code>, all: seq<Code>, c: Code)
    requires all == out + [c]
    ensures PlaceRestores(out, all[|out|..], false) == out + [c]
  {
  }

  lemma PairOk()
    ensures TargetOk(PAIR) && BlockOk(PAIR, {0, 1}, [CALL_SETTING_ONE]) && LiveAt({0, 1}, [CALL_SETTING_ONE]) == {0, 1}
  {
    var live: set<nat> := {0, 1};
    PairTarget();
    hide TargetOk;
    assert AllRegs(CALL_SETTING_ONE.stores) == {1} && Range(0, 2) == live && AllRegs([]) == {};
    assert [CALL_SETTING_ONE][..0] == [];
    assert LiveAt(live, []) == live;
    assert InsnOkAt(PAIR, live, [CALL_SETTING_ONE], 0);
  }

  lemma PairTarget()
    ensures TargetOk(PAIR)
  {
  }

  lemma RunThree(t: Target, f: Meaning, a: Code, b: Code, c: Code, m: State)
    ensures Run(t, f, [a, b, c], m) == Step(t, f, c, Step(t, f, b, Step(t, f, a, m)))
  {
    hide Step;
    RunAppend(t, f, [], a, m);
    RunAppend(t, f, [a], b, m);
    RunAppend(t, f, [a, b], c, m);
    assert [] + [a] == [a] && [a] + [b] == [a, b] && [a, b] + [c] == [a, b, c];
  }

  lemma FrameKept(t: Target, f: Meaning, i: Insn, m: State)
    ensures Step(t, f, Original(i), m).frame == m.frame
  {
  }

  /** The smallest example: registers 0 and 1 share a two-word slot, both are live, and a call sets
      register 1.  Both are saved as a group and restored at the end, so register 1 ends with its old
      value instead of the call's. */
  lemma GroupSaveLosesResult() returns (f: Meaning, m: State)
    ensures TargetOk(PAIR) && BlockOk(PAIR, {0, 1}, [CALL_SETTING_ONE]) && StartsAlike({0, 1}, m, m)
    ensures LiveAt({0, 1}, [CALL_SETTING_ONE]) == {0, 1} && !SaveBlock(PAIR, {0, 1}, [CALL_SETTING_ONE]).aborted
    ensures Get(Run(PAIR, f, SaveBlock(PAIR, {0, 1}, [CALL_SETTING_ONE]).out, m).regs, 1) == 0
    ensures Get(RunIdeal(PAIR, f, [CALL_SETTING_ONE], m).regs, 1) == 1
  {
    hide TargetOk, BlockOk, LiveAt, SaveBlock, Step, Execute, Run;
    f := Meaning((_, _, _) => 1, (_, _) => 0);
    m := State(map[], map[], []);
    PairOk();
    PairCode();
    assert AllRegs(CALL_SETTING_ONE.stores) == {1};
    hide AllRegs;
    assert [CALL_SETTING_ONE][..0] == [];
    Executed(PAIR, f, CALL_SETTING_ONE, m, false, 1);
    var save, call, restore := Save(RegRange(0, 2), 0), Original(CALL_SETTING_ONE), Restore(RegRange(0, 2), 0);
    RunThree(PAIR, f, save, call, restore, m);
    hide RunIdeal;
    var m1 := Step(PAIR, f, save, m);
    SavedWord(PAIR, f, RegRange(0, 2), 0, 1, m);
    FrameKept(PAIR, f, CALL_SETTING_ONE, m1);
    RestoredRegister(PAIR, f, RegRange(0, 2), 0, 1, Step(PAIR, f, call, m1));
  }

  // ---------------------------------------------------------------- missing slots

  ghost predicate Covered(t: Target, s: Status) {
    s.need <= s.saved && (forall r :: r in s.saved ==> r in t.slots.word) && !s.aborted
  }

  lemma {:induction false} RestoreRangeCovered(t: Target, s: Status, r: nat, last: nat, w: nat)
    requires w >= 1 && Covered(t, s)
    ensures Covered(t, RestoreRange(t, s, r, last, w))
    decreases last - r
  {
    if r < last {
      if r !in s.need {
        RestoreRangeCovered(t, s, r + 1, last, w);
      } else {
        assert CanRestore(t, s, r, 1);
        var k := RestoreWidth(t, s, r, w);
        RestoreRangeCovered(t, AfterRestore(t, s, r, k), r + k, last, w);
      }
    }
  }

  lemma {:induction false} RestoreReferencedCovered(t: Target, s: Status, e: Rtx)
    requires t.moveWords >= 1 && Covered(t, s)
    ensures Covered(t, RestoreReferenced(t, s, e))
    decreases e, 1
  {
    hide Covered;
    match e
    case Clobber(_) =>
    case HardReg(g) =>
      if g.count != 0 {
        RestoreRangeCovered(t, s, g.first, g.first + g.count, Min(g.count, t.moveWords));
      }
    case Pseudo(args) => RestoreAllCovered(t, s, args);
    case Expr(args) => RestoreAllCovered(t, s, args);
  }

  lemma {:induction false} RestoreAllCovered(t: Target, s: Status, xs: seq<Rtx>)
    requires t.moveWords >= 1 && Covered(t, s)
    ensures Covered(t, RestoreAllReferenced(t, s, xs))
    decreases xs, 0
  {
    hide Covered;
    if xs != [] {
      RestoreReferencedCovered(t, s, xs[|xs| - 1]);
      RestoreAllCovered(t, RestoreReferenced(t, s, xs[|xs| - 1]), xs[..|xs| - 1]);
    }
  }

  /** Some register from `r` on must survive the call and has no save slot. */
  ghost predicate Missing(t: Target, live: set<nat>, callSets: set<nat>, r: nat) {
    exists q :: r <= q < t.regCount && q in t.callUsed && q !in t.callFixed && q in live && q !in callSets && q !in t.slots.word
  }

  /** None of `r`, ..., `next - 1` is such a register. */
  ghost predicate NoneMissing(t: Target, live: set<nat>, callSets: set<nat>, r: nat, next: nat) {
    forall q :: r <= q < next && q !in t.slots.word ==> !(q in t.callUsed && q !in t.callFixed && q in live && q !in callSets)
  }

  lemma MissingLater(t: Target, live: set<nat>, callSets: set<nat>, r: nat, next: nat)
    requires NoneMissing(t, live, callSets, r, next) && r <= next
    ensures Missing(t, live, callSets, r) <==> Missing(t, live, callSets, next)
  {
  }

  lemma SaveAtCovered(t: Target, s: Status, callSets: set<nat>, r: nat)
    requires TargetOk(t) && Covered(t, s)
    ensures var (s1, k) := SaveAt(t, s, callSets, r);
      && s1.live == s.live
      && (s1.aborted <==> MustSave(t, s, callSets, r) && r !in t.slots.word)
      && (!s1.aborted ==> Covered(t, s1) && NoneMissing(t, s.live, callSets, r, r + k))
  {
    MoveWordsPositive(t);
    if !MustSave(t, s, callSets, r) {
      NotMissing(t, s, callSets, r);
    } else if r in t.slots.word {
      var k := SaveAt(t, s, callSets, r).1;
      assert t.slots.Has(r, k);
      hide SaveAt, NoneMissing, Covered;
      GroupCovered(t, s, callSets, r, k);
    }
  }

  lemma NotMissing(t: Target, s: Status, callSets: set<nat>, r: nat)
    requires Covered(t, s) && !MustSave(t, s, callSets, r)
    ensures NoneMissing(t, s.live, callSets, r, r + 1)
  {
  }

  lemma GroupCovered(t: Target, s: Status, callSets: set<nat>, r: nat, k: nat)
    requires TargetOk(t) && Covered(t, s) && t.slots.Has(r, k)
    ensures Covered(t, AfterSave(t, s, r, k)) && NoneMissing(t, s.live, callSets, r, r + k)
  {
    hide TargetOk;
    forall q | r <= q < r + k
      ensures q in t.slots.word
    {
      SlotWord(t, r, k, q);
    }
  }

  lemma {:induction false} SaveFromAborts(t: Target, s: Status, callSets: set<nat>, r: nat)
    requires TargetOk(t) && Covered(t, s)
    ensures SaveFrom(t, s, callSets, r).aborted <==> Missing(t, s.live, callSets, r)
    ensures !SaveFrom(t, s, callSets, r).aborted ==> Covered(t, SaveFrom(t, s, callSets, r))
    decreases t.regCount - r
  {
    hide SaveAt, TargetOk, NoneMissing;
    MoveWordsPositive(t);
    if r < t.regCount {
      var (s1, k) := SaveAt(t, s, callSets, r);
      SaveAtCovered(t, s, callSets, r);
      if s1.aborted {
        assert Missing(t, s.live, callSets, r);
      } else {
        hide Missing, Covered;
        SaveFromAborts(t, s1, callSets, r + k);
        MissingLater(t, s.live, callSets, r, r + k);
      }
    }
  }

  ghost predicate MissingAt(t: Target, live: set<nat>, i: Insn) {
    i.kind == Call && Missing(t, live - AllRegs(i.dead), AllRegs(i.stores), 0)
  }

  lemma ScanInsnAborts(t: Target, s: Status, i: Insn)
    requires TargetOk(t) && Covered(t, s)
    ensures ScanInsn(t, s, i).aborted <==> MissingAt(t, s.live, i)
    ensures !ScanInsn(t, s, i).aborted ==> Covered(t, ScanInsn(t, s, i))
  {
    MoveWordsPositive(t);
    if i.kind != NotAnInsn {
      RestoreReferencedCovered(t, s, i.pattern);
      RestoreKeeps(t, s, i.pattern);
      var s2 := ClearLive(RestoreBefore(t, s, i), i.dead);
      hide RestoreBefore, TargetOk, AllRegs, RestoreReferenced;
      if i.kind == Call {
        var x := AllRegs(i.stores);
        SaveFromAborts(t, s2.(saved := s2.saved - x, need := s2.need - x), x, 0);
        hide SaveFrom, Missing;
      }
    }
  }

  lemma {:induction false} ScanBlockAborts(t: Target, live: set<nat>, insns: seq<Insn>)
    requires TargetOk(t)
    ensures var s := ScanBlock(t, StartOfBlock(live), insns);
      && (s.aborted <==> exists k :: 0 <= k < |insns| && MissingAt(t, LiveAt(live, insns[..k]), insns[k]))
      && (!s.aborted ==> Covered(t, s))
  {
    MoveWordsPositive(t);
    hide ScanInsn, MissingAt, TargetOk, LiveAt;
    if insns == [] {
      assert Covered(t, StartOfBlock(live));
    } else {
      hide Covered;
      var before, i := insns[..|insns| - 1], insns[|insns| - 1];
      var s := ScanBlock(t, StartOfBlock(live), before);
      ScanBlockAborts(t, live, before);
      BlockLive(t, live, before);
      ScanKeeps(t, s, i);
      if !s.aborted {
        ScanInsnAborts(t, s, i);
      }
      PrefixMissing(t, live, insns);
    }
  }

  lemma PrefixMissing(t: Target, live: set<nat>, insns: seq<Insn>)
    requires insns != []
    ensures var before := insns[..|insns| - 1];
      (exists k :: 0 <= k < |insns| && MissingAt(t, LiveAt(live, insns[..k]), insns[k])) <==>
      (exists k :: 0 <= k < |before| && MissingAt(t, LiveAt(live, before[..k]), before[k])) ||
      MissingAt(t, LiveAt(live, before), insns[|insns| - 1])
  {
    hide MissingAt, LiveAt;
    var before := insns[..|insns| - 1];
    forall k | 0 <= k < |before|
      ensures before[..k] == insns[..k] && before[k] == insns[k]
    {
      Prefixes(insns, k);
    }
  }

  /** The pass aborts on a block exactly when some register that is live across a call, clobbered by
      it and not set by it, has no save slot. */
  lemma AbortsExactly(t: Target, live: set<nat>, insns: seq<Insn>)
    requires TargetOk(t)
    ensures SaveBlock(t, live, insns).aborted <==>
            exists k :: 0 <= k < |insns| && MissingAt(t, LiveAt(live, insns[..k]), insns[k])
  {
    hide MissingAt, ScanBlock, LiveAt;
    MoveWordsPositive(t);
    ScanBlockAborts(t, live, insns);
    var s := ScanBlock(t, StartOfBlock(live), insns);
    if s.aborted {
      EndSticky(t, s);
    } else {
      RestoreRangeCovered(t, s, 0, t.regCount, t.moveWords);
    }
  }
}
