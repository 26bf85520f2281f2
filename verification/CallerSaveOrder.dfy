/**
 Where the saves and restores stand among the insns of the block, and what they do when its final jump is
 taken.
 */
module CallerSaveOrder {
  import opened Helpers
  import opened SaveAreas
  import opened CallerSave
  import opened CallerSaveRun
  import opened CallerSaveProof
  import opened CallerSaveTheorem
  import opened CallerSaveExact

  // ---------------------------------------------------------------- the insns in order

  /** The insns of the original block among the code. */
  function InsnsOf(out: seq<Code>): seq<Insn> {
    if out == [] then []
    else InsnsOf(out[..|out| - 1]) + (if out[|out| - 1].Original? then [out[|out| - 1].insn] else [])
  }

  lemma InsnsSnoc(out: seq<Code>, c: Code)
    ensures InsnsOf(out + [c]) == InsnsOf(out) + (if c.Original? then [c.insn] else [])
  {
    assert (out + [c])[..|out|] == out;
  }

  /** Only registers that a call may change are saved. */
  ghost predicate SavesFit(t: Target, out: seq<Code>) {
    forall c :: c in out && c.Save? ==> forall q :: q in Regs(c.reg) ==> q in t.callUsed && q !in t.callFixed
  }

  lemma RestoreFits(t: Target, out: seq<Code>, c: Code)
    requires !c.Save?
    ensures SavesFit(t, out + [c]) <==> SavesFit(t, out)
  {
    assert forall d :: d in out ==> d in out + [c];
  }

  lemma {:induction false} RestoreRangeInsns(t: Target, s: Status, r: nat, last: nat, w: nat)
    requires w >= 1
    ensures InsnsOf(RestoreRange(t, s, r, last, w).out) == InsnsOf(s.out)
    ensures SavesFit(t, RestoreRange(t, s, r, last, w).out) <==> SavesFit(t, s.out)
    decreases last - r
  {
    hide InsnsOf, SavesFit;
    if r < last && !s.aborted {
      if r !in s.need {
        RestoreRangeInsns(t, s, r + 1, last, w);
      } else if r in t.slots.word {
        assert CanRestore(t, s, r, 1);
        var k := RestoreWidth(t, s, r, w);
        InsnsSnoc(s.out, Restore(RegRange(r, k), t.slots.At(r, k)));
        RestoreFits(t, s.out, Restore(RegRange(r, k), t.slots.At(r, k)));
        RestoreRangeInsns(t, AfterRestore(t, s, r, k), r + k, last, w);
      }
    }
  }

  lemma {:induction false} RestoreReferencedInsns(t: Target, s: Status, e: Rtx)
    requires t.moveWords >= 1
    ensures InsnsOf(RestoreReferenced(t, s, e).out) == InsnsOf(s.out)
    ensures SavesFit(t, RestoreReferenced(t, s, e).out) <==> SavesFit(t, s.out)
    decreases e, 1
  {
    hide InsnsOf, SavesFit;
    match e
    case Clobber(_) =>
    case HardReg(g) =>
      if g.count != 0 {
        RestoreRangeInsns(t, s, g.first, g.first + g.count, Min(g.count, t.moveWords));
      }
    case Pseudo(args) => RestoreAllInsns(t, s, args);
    case Expr(args) => RestoreAllInsns(t, s, args);
  }

  lemma {:induction false} RestoreAllInsns(t: Target, s: Status, xs: seq<Rtx>)
    requires t.moveWords >= 1
    ensures InsnsOf(RestoreAllReferenced(t, s, xs).out) == InsnsOf(s.out)
    ensures SavesFit(t, RestoreAllReferenced(t, s, xs).out) <==> SavesFit(t, s.out)
    decreases xs, 0
  {
    hide InsnsOf, SavesFit;
    if xs != [] {
      RestoreReferencedInsns(t, s, xs[|xs| - 1]);
      RestoreAllInsns(t, RestoreReferenced(t, s, xs[|xs| - 1]), xs[..|xs| - 1]);
    }
  }

  lemma SaveAtInsns(t: Target, s: Status, callSets: set<nat>, r: nat)
    requires t.moveWords >= 1
    ensures InsnsOf(SaveAt(t, s, callSets, r).0.out) == InsnsOf(s.out)
    ensures SavesFit(t, s.out) ==> SavesFit(t, SaveAt(t, s, callSets, r).0.out)
  {
    if MustSave(t, s, callSets, r) && r in t.slots.word {
      var k := SaveAt(t, s, callSets, r).1;
      InsnsSnoc(s.out, Save(RegRange(r, k), t.slots.At(r, k)));
    }
    hide InsnsOf;
  }

  lemma {:induction false} SaveFromInsns(t: Target, s: Status, callSets: set<nat>, r: nat)
    requires t.moveWords >= 1
    ensures InsnsOf(SaveFrom(t, s, callSets, r).out) == InsnsOf(s.out)
    ensures SavesFit(t, s.out) ==> SavesFit(t, SaveFrom(t, s, callSets, r).out)
    decreases t.regCount - r
  {
    hide InsnsOf, SaveAt, SavesFit;
    if r < t.regCount && !s.aborted {
      var (s1, k) := SaveAt(t, s, callSets, r);
      SaveAtInsns(t, s, callSets, r);
      SaveFromInsns(t, s1, callSets, r + k);
    }
  }

  lemma ScanInsnInsns(t: Target, s: Status, i: Insn)
    requires t.moveWords >= 1
    ensures InsnsOf(ScanInsn(t, s, i).out) == InsnsOf(s.out) + [i]
    ensures SavesFit(t, s.out) ==> SavesFit(t, ScanInsn(t, s, i).out)
    ensures var out := ScanInsn(t, s, i).out; out != [] && out[|out| - 1] == Original(i)
  {
    hide InsnsOf, AllRegs, RestoreReferenced, SaveFrom, SavesFit;
    if i.kind == NotAnInsn {
      InsnsSnoc(s.out, Original(i));
      RestoreFits(t, s.out, Original(i));
    } else {
      RestoreReferencedInsns(t, s, i.pattern);
      var s2 := ClearLive(RestoreBefore(t, s, i), i.dead);
      if i.kind == Call {
        var x := AllRegs(i.stores);
        SaveFromInsns(t, s2.(saved := s2.saved - x, need := s2.need - x), x, 0);
        InsnsSnoc(BeforeCall(t, s2, x).out, Original(i));
        RestoreFits(t, BeforeCall(t, s2, x).out, Original(i));
      } else {
        InsnsSnoc(s2.out, Original(i));
        RestoreFits(t, s2.out, Original(i));
      }
    }
  }

  lemma {:induction false} ScanBlockInsns(t: Target, live: set<nat>, insns: seq<Insn>)
    requires t.moveWords >= 1
    ensures SavesFit(t, ScanBlock(t, StartOfBlock(live), insns).out)
    ensures var out := ScanBlock(t, StartOfBlock(live), insns).out;
      InsnsOf(out) == insns && (insns != [] ==> out != [] && out[|out| - 1] == Original(insns[|insns| - 1]))
  {
    hide ScanInsn;
    if insns != [] {
      var before, i := insns[..|insns| - 1], insns[|insns| - 1];
      ScanBlockInsns(t, live, before);
      hide InsnsOf;
      ScanInsnInsns(t, ScanBlock(t, StartOfBlock(live), before), i);
      assert before + [i] == insns;
    }
  }

  lemma {:induction false} InsnsConcat(a: seq<Code>, b: seq<Code>)
    ensures InsnsOf(a + b) == InsnsOf(a) + InsnsOf(b)
    decreases |b|
  {
    if b == [] {
      assert a + b == a;
    } else {
      var b', c := b[..|b| - 1], b[|b| - 1];
      assert a + b == (a + b') + [c];
      InsnsSnoc(a + b', c);
      InsnsConcat(a, b');
    }
  }

  /** The restores at the end of the block. */
  function Final(t: Target, live: set<nat>, insns: seq<Insn>): seq<Code>
    requires t.moveWords >= 1
  {
    var s := ScanBlock(t, StartOfBlock(live), insns);
    EndRestores(t, s).out[|s.out|..]
  }

  lemma FinalHasNoInsns(t: Target, live: set<nat>, insns: seq<Insn>)
    requires t.moveWords >= 1
    ensures InsnsOf(Final(t, live, insns)) == []
  {
    var s := ScanBlock(t, StartOfBlock(live), insns);
    var e := EndRestores(t, s);
    hide ScanBlock, InsnsOf;
    RestoreRangeInsns(t, s, 0, t.regCount, t.moveWords);
    hide RestoreRange, EndRestores;
    assert s.out + e.out[|s.out|..] == e.out;
    InsnsConcat(s.out, e.out[|s.out|..]);
    assert |InsnsOf(Final(t, live, insns))| == 0;
  }

  lemma Placed(t: Target, live: set<nat>, insns: seq<Insn>)
    requires t.moveWords >= 1
    ensures SaveBlock(t, live, insns).out
         == PlaceRestores(ScanBlock(t, StartOfBlock(live), insns).out, Final(t, live, insns), EndsInJump(insns))
  {
    hide ScanBlock, EndRestores, PlaceRestores;
  }

  lemma PlacedInsns(out: seq<Code>, restores: seq<Code>, beforeLast: bool)
    requires InsnsOf(restores) == []
    ensures InsnsOf(PlaceRestores(out, restores, beforeLast)) == InsnsOf(out)
  {
    hide InsnsOf;
    if beforeLast && out != [] {
      var before, last := out[..|out| - 1], out[|out| - 1];
      assert out == before + [last];
      InsnsConcat(before, [last]);
      InsnsConcat(before, restores);
      InsnsConcat(before + restores, [last]);
    } else {
      InsnsConcat(out, restores);
    }
  }

  /** The emitted block has the insns of the original one, all of them and in their order. */
  lemma InsnsInOrder(t: Target, live: set<nat>, insns: seq<Insn>)
    requires t.moveWords >= 1
    ensures InsnsOf(SaveBlock(t, live, insns).out) == insns
  {
    var s := ScanBlock(t, StartOfBlock(live), insns);
    var cs := Final(t, live, insns);
    ScanBlockInsns(t, live, insns);
    FinalHasNoInsns(t, live, insns);
    Placed(t, live, insns);
    hide ScanBlock, EndRestores, InsnsOf, PlaceRestores, Final, SavesFit;
    PlacedInsns(s.out, cs, EndsInJump(insns));
  }

  /** A register is saved only if a call may change it. */
  lemma OnlyClobberedSaved(t: Target, live: set<nat>, insns: seq<Insn>, g: RegRange, slot: nat)
    requires t.moveWords >= 1 && Save(g, slot) in SaveBlock(t, live, insns).out
    ensures Regs(g) <= t.callUsed - t.callFixed
  {
    var s := ScanBlock(t, StartOfBlock(live), insns);
    ScanBlockInsns(t, live, insns);
    hide ScanBlock, InsnsOf;
    OnlyRestoresEmitted(t, s, 0, t.regCount, t.moveWords);
    hide RestoreRange;
    assert Save(g, slot) in s.out;
  }

  // ---------------------------------------------------------------- the place of the final restores

  lemma {:induction false} OnlyRestoresEmitted(t: Target, s: Status, r: nat, last: nat, w: nat)
    requires w >= 1
    ensures s.out <= RestoreRange(t, s, r, last, w).out
    ensures forall c :: c in RestoreRange(t, s, r, last, w).out[|s.out|..] ==> c.Restore?
    decreases last - r
  {
    if r < last && !s.aborted {
      if r !in s.need {
        OnlyRestoresEmitted(t, s, r + 1, last, w);
      } else if r in t.slots.word {
        assert CanRestore(t, s, r, 1);
        var k := RestoreWidth(t, s, r, w);
        var s1 := AfterRestore(t, s, r, k);
        OnlyRestoresEmitted(t, s1, r + k, last, w);
        var s' := RestoreRange(t, s1, r + k, last, w);
        assert s'.out[|s.out|..] == [Restore(RegRange(r, k), t.slots.At(r, k))] + s'.out[|s1.out|..];
      }
    }
  }

  lemma FinalRestores(t: Target, live: set<nat>, insns: seq<Insn>)
    requires t.moveWords >= 1
    ensures forall c :: c in Final(t, live, insns) ==> c.Restore?
  {
    hide ScanBlock;
    OnlyRestoresEmitted(t, ScanBlock(t, StartOfBlock(live), insns), 0, t.regCount, t.moveWords);
    hide RestoreRange;
  }

  /** Restores put at the end or in front of the last insn. */
  lemma PlacedLast(out: seq<Code>, restores: seq<Code>, beforeLast: bool, last: Code)
    requires out != [] && out[|out| - 1] == last && forall c :: c in restores ==> c.Restore?
    ensures var all := PlaceRestores(out, restores, beforeLast);
      if beforeLast then all != [] && all[|all| - 1] == last
      else exists k :: 0 <= k < |all| && all[k] == last && forall c :: c in all[k + 1..] ==> c.Restore?
  {
    if !beforeLast {
      var all := out + restores;
      assert all[|out| - 1] == last && all[|out| - 1 + 1..] == restores;
    }
  }

  /** A final jump stands behind everything, the restores included; behind any other last insn there are
      restores only. */
  lemma LastInsn(t: Target, live: set<nat>, insns: seq<Insn>)
    requires t.moveWords >= 1 && insns != []
    ensures var out, last := SaveBlock(t, live, insns).out, insns[|insns| - 1];
      if last.kind == Jump then out != [] && out[|out| - 1] == Original(last)
      else exists k :: 0 <= k < |out| && out[k] == Original(last) && forall c :: c in out[k + 1..] ==> c.Restore?
  {
    var s := ScanBlock(t, StartOfBlock(live), insns);
    ScanBlockInsns(t, live, insns);
    FinalRestores(t, live, insns);
    hide ScanBlock, EndRestores, Final, PlaceRestores, InsnsOf, SavesFit;
    PlacedLast(s.out, Final(t, live, insns), EndsInJump(insns), Original(insns[|insns| - 1]));
    Placed(t, live, insns);
  }

  // ---------------------------------------------------------------- a jump that is taken

  /** The code up to the first jump, which is left there if it is taken. */
  function UpToJump(code: seq<Code>): seq<Code> {
    if code == [] then []
    else if code[0].Original? && code[0].insn.kind == Jump then [code[0]]
    else [code[0]] + UpToJump(code[1..])
  }

  /** Jumps stand only at the end of a basic block. */
  ghost predicate BasicBlock(insns: seq<Insn>) {
    forall k :: 0 <= k < |insns| - 1 ==> insns[k].kind != Jump
  }

  lemma {:induction false} InsnIn(code: seq<Code>, k: nat)
    requires k < |code| && code[k].Original?
    ensures code[k].insn in InsnsOf(code)
    decreases |code|
  {
    if k < |code| - 1 {
      InsnIn(code[..|code| - 1], k);
    }
  }

  lemma {:induction false} NoJumpBefore(code: seq<Code>)
    requires forall k :: 0 <= k < |code| - 1 && code[k].Original? ==> code[k].insn.kind != Jump
    ensures UpToJump(code) == code
  {
    if code != [] {
      assert forall k :: 0 <= k < |code[1..]| ==> code[1..][k] == code[k + 1];
      if |code| > 1 {
        NoJumpBefore(code[1..]);
      } else {
        assert code[1..] == [] && code == [code[0]];
      }
    }
  }

  /** Nothing stands behind the jump of the emitted block. */
  lemma LeavesAtEnd(t: Target, live: set<nat>, insns: seq<Insn>)
    requires t.moveWords >= 1 && BasicBlock(insns)
    ensures UpToJump(SaveBlock(t, live, insns).out) == SaveBlock(t, live, insns).out
  {
    var out := SaveBlock(t, live, insns).out;
    InsnsInOrder(t, live, insns);
    if insns == [] {
      assert out == [];
    } else {
      LastInsn(t, live, insns);
      hide SaveBlock, InsnsOf;
      JumpIsLast(out, insns);
    }
    hide SaveBlock, InsnsOf;
    NoJumpBefore(out);
  }

  lemma JumpIsLast(out: seq<Code>, insns: seq<Insn>)
    requires InsnsOf(out) == insns != [] && BasicBlock(insns)
    requires insns[|insns| - 1].kind == Jump ==> out != [] && out[|out| - 1] == Original(insns[|insns| - 1])
    ensures forall k :: 0 <= k < |out| - 1 && out[k].Original? ==> out[k].insn.kind != Jump
  {
    forall k | 0 <= k < |out| - 1 && out[k].Original?
      ensures out[k].insn.kind != Jump
    {
      if insns[|insns| - 1].kind == Jump {
        assert InsnsOf(out[..|out| - 1]) == insns[..|insns| - 1];
        InsnIn(out[..|out| - 1], k);
      } else {
        InsnIn(out, k);
      }
    }
  }

  /** The emitted block, left where its jump is taken, agrees with the original one. */
  ghost predicate PreservedTaken(t: Target, f: Meaning, live: set<nat>, insns: seq<Insn>, ideal: State, start: State)
    requires t.moveWords >= 1
  {
    StartsAlike(LiveAt(live, insns), RunIdeal(t, f, insns, ideal),
                Run(t, f, UpToJump(SaveBlock(t, live, insns).out), start))
  }

  /** The theorem on blocks for a jump that is taken: exactly the same condition. */
  lemma TakenExactly(t: Target, live: set<nat>, insns: seq<Insn>)
    requires TargetOk(t) && BlockOk(t, live, insns) && BasicBlock(insns) && Distinct(insns)
    requires !SaveBlock(t, live, insns).aborted
    ensures NoneStale(t, live, insns) <==>
            forall f, ideal, start :: StartsAlike(live, ideal, start) ==> PreservedTaken(t, f, live, insns, ideal, start)
  {
    MoveWordsPositive(t);
    LeavesAtEnd(t, live, insns);
    forall f, ideal, start
      ensures PreservedTaken(t, f, live, insns, ideal, start) <==> Preserved(t, f, live, insns, ideal, start)
    {
    }
    hide TargetOk, BlockOk, Distinct, SaveBlock, Preserved, PreservedTaken, StartsAlike, NoneStale, UpToJump;
    PreservedExactly(t, live, insns);
  }
}
