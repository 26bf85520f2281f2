/**
 The pass as it is written: static register sets and a counter, updated insn by insn, with saves and
 restores inserted in front of a given position of the insn stream.  Each method is proved against
 the function of module `CallerSave` that describes it.
 */
module CallerSavePass {
  import opened Helpers
  import opened SaveAreas
  import opened CallerSave
  import opened CallerSaveRun
  import opened CallerSaveProof
  import opened CallerSaveTheorem

  lemma Insert(out: seq<Code>, pos: nat, c: Code)
    requires pos <= |out|
    ensures var all := out[..pos] + [c] + out[pos..]; all[..pos + 1] == out[..pos] + [c] && all[pos + 1..] == out[pos..]
  {
  }

  /** The insns already emitted do not influence which restores are made. */
  lemma {:induction false} RestoreRangeOut(t: Target, s: Status, o: seq<Code>, r: nat, last: nat, w: nat)
    requires w >= 1
    ensures var s' := RestoreRange(t, s, r, last, w);
      s.out <= s'.out && RestoreRange(t, s.(out := o), r, last, w) == s'.(out := o + s'.out[|s.out|..])
    decreases last - r
  {
    if r >= last || s.aborted {
    } else if r !in s.need {
      RestoreRangeOut(t, s, o, r + 1, last, w);
    } else if r in t.slots.word {
      assert CanRestore(t, s, r, 1);
      var k := RestoreWidth(t, s, r, w);
      SameWidth(t, s, s.(out := o), r, w);
      hide RestoreWidth, CanRestore;
      var c := Restore(RegRange(r, k), t.slots.At(r, k));
      var s1 := AfterRestore(t, s, r, k);
      RestoreRangeOut(t, s1, o + [c], r + k, last, w);
      var s' := RestoreRange(t, s1, r + k, last, w);
      assert s'.out[|s.out|..] == [c] + s'.out[|s1.out|..];
      assert o + [c] + s'.out[|s1.out|..] == o + ([c] + s'.out[|s1.out|..]);
    }
  }

  lemma RestoreStep(t: Target, s: Status, r: nat, last: nat, w: nat)
    requires w >= 1
    ensures var all := RestoreRange(t, s, r, last, w);
      && (r >= last || s.aborted ==> all == s)
      && (r < last && !s.aborted && r !in s.need ==> all == RestoreRange(t, s, r + 1, last, w))
      && (r < last && !s.aborted && r in s.need && r !in t.slots.word ==>
            all == s.(aborted := true) == RestoreRange(t, s.(aborted := true), r, last, w))
      && (r < last && !s.aborted && r in s.need && r in t.slots.word ==>
            var k := RestoreWidth(t, s, r, w);
            t.slots.Has(r, k) && all == RestoreRange(t, AfterRestore(t, s, r, k), r + k, last, w))
  {
    if r in s.need && r in t.slots.word {
      assert CanRestore(t, s, r, 1);
    }
  }

  lemma {:induction false} SameWidth(t: Target, s: Status, s': Status, r: nat, w: nat)
    requires s'.need == s.need
    ensures RestoreWidth(t, s', r, w) == RestoreWidth(t, s, r, w)
  {
    if w != 0 {
      SameWidth(t, s, s', r, w - 1);
    }
  }

  lemma SetLiveFirst(s: Status, xs: seq<RegRange>)
    requires xs != []
    ensures SetLive(s, xs) == SetLive(SetLive(s, [xs[0]]), xs[1..])
    ensures ClearLive(s, xs) == ClearLive(ClearLive(s, [xs[0]]), xs[1..])
  {
    assert AllRegs(xs) == Regs(xs[0]) + AllRegs(xs[1..]);
    assert AllRegs([xs[0]]) == Regs(xs[0]) + AllRegs([]);
  }

  lemma RangeStep(first: nat, count: nat)
    ensures Range(first, count + 1) == Range(first, count) + {first + count}
    ensures Range(first, 0) == {}
  {
  }

  lemma CountStep(s: set<nat>, r: nat)
    ensures |s * Range(0, r + 1)| == |s * Range(0, r)| + (if r in s then 1 else 0)
  {
    RangeStep(0, r);
    assert s * Range(0, r + 1) == if r in s then s * Range(0, r) + {r} else s * Range(0, r);
  }

  lemma SetLiveStep(s: Status, first: nat, count: nat)
    ensures var s1 := SetLiveSet(s, Range(first, count));
      SetLiveSet(s, Range(first, count + 1)) ==
      s1.(live := s1.live + {first + count}, saved := s1.saved - {first + count}, need := s1.need - {first + count})
  {
    RangeStep(first, count);
    hide Range;
    var a, b := SetLiveSet(s, Range(first, count)), SetLiveSet(s, Range(first, count + 1));
    assert b.live == a.live + {first + count};
    assert b.saved == a.saved - {first + count};
    assert b.need == a.need - {first + count};
  }

  function ClearLiveSet(s: Status, xs: set<nat>): Status {
    s.(live := s.live - xs, saved := s.saved - xs, need := s.need - xs)
  }

  lemma ClearLiveStep(s: Status, first: nat, count: nat)
    ensures var s1 := ClearLiveSet(s, Range(first, count));
      ClearLiveSet(s, Range(first, count + 1)) ==
      s1.(live := s1.live - {first + count}, saved := s1.saved - {first + count}, need := s1.need - {first + count})
  {
    RangeStep(first, count);
    hide Range;
    var a, b := ClearLiveSet(s, Range(first, count)), ClearLiveSet(s, Range(first, count + 1));
    assert b.live == a.live - {first + count};
    assert b.saved == a.saved - {first + count};
    assert b.need == a.need - {first + count};
  }

  lemma OneOperand(g: RegRange)
    ensures AllRegs([g]) == Range(g.first, g.count)
  {
    assert AllRegs([g]) == Regs(g) + AllRegs([]);
  }

  lemma GroupInRange(t: Target, r: nat, k: nat)
    requires TargetOk(t) && t.slots.Has(r, k) && k >= 1
    ensures Range(r, k) <= Range(0, t.regCount)
  {
    SlotWord(t, r, k, r + k - 1);
  }

  lemma NothingDone(s: Status, first: nat)
    ensures SetLiveSet(s, Range(first, 0)) == s && ClearLiveSet(s, Range(first, 0)) == s
  {
    assert Range(first, 0) == {};
  }

  lemma {:induction false} SavedInRange(t: Target, s: Status, callSets: set<nat>, r: nat)
    requires TargetOk(t) && s.saved <= Range(0, t.regCount)
    ensures SaveFrom(t, s, callSets, r).saved <= Range(0, t.regCount)
    decreases t.regCount - r
  {
    MoveWordsPositive(t);
    if r < t.regCount && !s.aborted {
      var (s1, k) := SaveAt(t, s, callSets, r);
      SaveAtInRange(t, s, callSets, r);
      hide SaveAt, TargetOk, Range;
      SavedInRange(t, s1, callSets, r + k);
    }
  }

  lemma SaveAtInRange(t: Target, s: Status, callSets: set<nat>, r: nat)
    requires TargetOk(t) && s.saved <= Range(0, t.regCount)
    ensures SaveAt(t, s, callSets, r).0.saved <= Range(0, t.regCount)
  {
    MoveWordsPositive(t);
    if MustSave(t, s, callSets, r) && r in t.slots.word {
      GroupInRange(t, r, SaveAt(t, s, callSets, r).1);
    }
  }

  class Pass {
    const t: Target
    var live: set<nat>
    var saved: set<nat>
    var need: set<nat>
    var n: int
    var out: seq<Code>
    var aborted: bool

    constructor (t: Target)
      ensures this.t == t
    {
      this.t := t;
      live, saved, need, n, out, aborted := {}, {}, {}, 0, [], false;
    }

    /** The status, with the insns in front of position `pos`. */
    ghost function Before(pos: nat): Status
      reads this
      requires pos <= |out|
    {
      Status(live, saved, need, n, out[..pos], aborted)
    }

    ghost function View(): Status reads this { Status(live, saved, need, n, out, aborted) }

    /** `insert_save_restore` with SAVE_P nonzero: in front of position `pos`. */
    method InsertSave(pos: nat, r: nat) returns (extra: int)
      requires pos <= |out| && t.moveWords >= 1 && r in t.slots.word && CanSave(t, Before(pos), r, 1)
      modifies this
      ensures extra >= 0 && pos + 1 <= |out| && out[pos + 1..] == old(out[pos..])
      ensures extra + 1 == SaveWidth(t, old(Before(pos)), r, t.moveWords)
      ensures t.slots.Has(r, extra + 1) && Before(pos + 1) == AfterSave(t, old(Before(pos)), r, extra + 1)
    {
      hide SaveWidth, CanSave, AfterSave;
      var i := WidestSave(pos, r);
      PutSave(pos, r, i);
      extra := i - 1;
    }

    /** The widest group from `r` on that can be saved. */
    method WidestSave(pos: nat, r: nat) returns (i: nat)
      requires pos <= |out| && t.moveWords >= 1 && r in t.slots.word && CanSave(t, Before(pos), r, 1)
      ensures i >= 1 && i == SaveWidth(t, Before(pos), r, t.moveWords) && t.slots.Has(r, i)
    {
      ghost var s := Before(pos);
      hide CanSave, Before;
      i := t.moveWords;
      while !CanSaveGroup(r, i)
        invariant 1 <= i <= t.moveWords && SaveWidth(t, s, r, t.moveWords) == SaveWidth(t, s, r, i)
        decreases i
      {
        i := i - 1;
      }
      SavedHas(s, r, i);
    }

    lemma SavedHas(s: Status, r: nat, i: nat)
      requires CanSave(t, s, r, i)
      ensures t.slots.Has(r, i)
    {
    }

    /** The save insn, and the sets and the counter after it. */
    method PutSave(pos: nat, r: nat, i: nat)
      requires pos <= |out| && t.slots.Has(r, i)
      modifies this
      ensures pos + 1 <= |out| && out[pos + 1..] == old(out[pos..])
      ensures Before(pos + 1) == AfterSave(t, old(Before(pos)), r, i)
    {
      var c := Save(RegRange(r, i), t.slots.At(r, i));
      Insert(out, pos, c);
      out := out[..pos] + [c] + out[pos..];
      saved := saved + Range(r, i);
      need := need + Range(r, i);
      n := n + i;
    }

    predicate CanSaveGroup(r: nat, w: nat)
      reads this
      ensures forall pos :: 0 <= pos <= |out| ==> CanSaveGroup(r, w) == CanSave(t, Before(pos), r, w)
    {
      t.slots.Has(r, w) &&
      forall q: nat | r <= q < r + w :: t.Clobbered(q) && q in live && q !in saved
    }

    predicate CanRestoreGroup(r: nat, w: nat)
      reads this
      ensures forall pos :: 0 <= pos <= |out| ==> CanRestoreGroup(r, w) == CanRestore(t, Before(pos), r, w)
    {
      t.slots.Has(r, w) && forall q: nat | r <= q < r + w :: q in need
    }

    /** `insert_save_restore` with SAVE_P zero. */
    method InsertRestore(pos: nat, r: nat, maxRestore: nat) returns (extra: int)
      requires pos <= |out| && r in t.slots.word && r in need && maxRestore >= 1
      modifies this
      ensures extra >= 0 && pos + 1 <= |out| && out[pos + 1..] == old(out[pos..]) && saved == old(saved)
      ensures extra + 1 == RestoreWidth(t, old(Before(pos)), r, maxRestore)
      ensures t.slots.Has(r, extra + 1) && Before(pos + 1) == AfterRestore(t, old(Before(pos)), r, extra + 1)
    {
      ghost var s := Before(pos);
      var i := maxRestore;
      while !CanRestoreGroup(r, i)
        invariant 1 <= i <= maxRestore && RestoreWidth(t, s, r, maxRestore) == RestoreWidth(t, s, r, i)
        invariant Before(pos) == s
        decreases i
      {
        i := i - 1;
      }
      out := out[..pos] + [Restore(RegRange(r, i), t.slots.At(r, i))] + out[pos..];
      need := need - Range(r, i);
      n := n - i;
      extra := i - 1;
    }

    /** Restore what is needed of the registers `first`, ..., `last - 1`. */
    method RestoreRegs(pos: nat, first: nat, last: nat, w: nat) returns (end: nat)
      requires pos <= |out| && w >= 1
      modifies this
      ensures end <= |out| && out[end..] == old(out[pos..]) && saved == old(saved)
      ensures Before(end) == RestoreRange(t, old(Before(pos)), first, last, w)
    {
      end := pos;
      var i := first;
      ghost var goal := RestoreRange(t, Before(pos), first, last, w);
      hide RestoreRange, RestoreWidth, AfterRestore;
      while i < last && !aborted
        invariant end <= |out| && out[end..] == old(out[pos..]) && saved == old(saved)
        invariant RestoreRange(t, Before(end), i, last, w) == goal
        decreases last - i, !aborted
      {
        RestoreStep(t, Before(end), i, last, w);
        if i in need {
          if i !in t.slots.word {
            aborted := true;
          } else {
            var extra := InsertRestore(end, i, w);
            end := end + 1;
            i := i + extra + 1;
          }
        } else {
          i := i + 1;
        }
      }
      RestoreStep(t, Before(end), i, last, w);
    }

    /** `restore_referenced_regs` */
    method RestoreReferencedRegs(e: Rtx)
      requires t.moveWords >= 1
      modifies this
      ensures View() == RestoreReferenced(t, old(View()), e) && saved == old(saved)
      decreases e, 1
    {
      assert Before(|out|) == View();
      match e
      case Clobber(_) =>
      case HardReg(g) =>
        if g.count != 0 {
          var end := RestoreRegs(|out|, g.first, g.first + g.count, Min(g.count, t.moveWords));
          assert Before(end) == View();
        }
      case Pseudo(args) => RestoreOperands(args);
      case Expr(args) => RestoreOperands(args);
    }

    method RestoreOperands(args: seq<Rtx>)
      requires t.moveWords >= 1
      modifies this
      ensures View() == RestoreAllReferenced(t, old(View()), args) && saved == old(saved)
      decreases args, 0
    {
      var i := |args| - 1;
      ghost var goal := RestoreAllReferenced(t, View(), args);
      assert args[..i + 1] == args;
      while i >= 0
        invariant -1 <= i < |args| && saved == old(saved)
        invariant RestoreAllReferenced(t, View(), args[..i + 1]) == goal
      {
        assert args[..i + 1][..i] == args[..i];
        RestoreReferencedRegs(args[i]);
        i := i - 1;
      }
    }

    /** `set_reg_live` */
    method SetRegLive(g: RegRange)
      modifies this
      ensures View() == SetLiveSet(old(View()), AllRegs([g]))
    {
      OneOperand(g);
      ghost var s := View();
      NothingDone(s, g.first);
      hide AllRegs, Range, Regs, SetLiveSet;
      var k := 0;
      while k < g.count
        invariant 0 <= k <= g.count && View() == SetLiveSet(s, Range(g.first, k))
      {
        SetLiveStep(s, g.first, k);
        live := live + {g.first + k};
        saved := saved - {g.first + k};
        need := need - {g.first + k};
        k := k + 1;
      }
    }

    /** `clear_reg_live` */
    method ClearRegLive(g: RegRange)
      modifies this
      ensures View() == ClearLiveSet(old(View()), AllRegs([g]))
    {
      OneOperand(g);
      ghost var s := View();
      NothingDone(s, g.first);
      hide AllRegs, Range, Regs, ClearLiveSet;
      var k := 0;
      while k < g.count
        invariant 0 <= k <= g.count && View() == ClearLiveSet(s, Range(g.first, k))
      {
        ClearLiveStep(s, g.first, k);
        live := live - {g.first + k};
        need := need - {g.first + k};
        saved := saved - {g.first + k};
        k := k + 1;
      }
    }

    /** `note_stores (PATTERN (insn), set_reg_live)` */
    method NoteStores(stores: seq<RegRange>)
      modifies this
      ensures View() == SetLive(old(View()), stores)
    {
      ghost var goal := SetLive(View(), stores);
      var k := 0;
      while k < |stores|
        invariant 0 <= k <= |stores| && SetLive(View(), stores[k..]) == goal
      {
        SetLiveFirst(View(), stores[k..]);
        assert stores[k..][1..] == stores[k + 1..];
        hide AllRegs;
        SetRegLive(stores[k]);
        k := k + 1;
      }
    }

    method ClearNotes(notes: seq<RegRange>)
      modifies this
      ensures View() == ClearLive(old(View()), notes)
    {
      ghost var goal := ClearLive(View(), notes);
      var k := 0;
      while k < |notes|
        invariant 0 <= k <= |notes| && ClearLive(View(), notes[k..]) == goal
      {
        SetLiveFirst(View(), notes[k..]);
        assert notes[k..][1..] == notes[k + 1..];
        hide AllRegs;
        ClearRegLive(notes[k]);
        k := k + 1;
      }
    }

    method CountSaved() returns (c: nat)
      requires saved <= Range(0, t.regCount)
      ensures c == |saved|
    {
      c := 0;
      for r := 0 to t.regCount
        invariant c == |saved * Range(0, r)|
      {
        CountStep(saved, r);
        if r in saved {
          c := c + 1;
        }
      }
      assert saved * Range(0, t.regCount) == saved;
    }

    /** The saves in front of a call: register `r`, and those saved along with it. */
    method SaveOne(callSets: set<nat>, r: nat) returns (k: nat)
      requires t.moveWords >= 1
      modifies this
      ensures (View(), k) == SaveAt(t, old(View()), callSets, r)
    {
      hide SaveWidth, AfterSave, Range;
      k := 1;
      assert Before(|out|) == View();
      if t.Clobbered(r) && r in live && r !in callSets && r !in saved {
        if r !in t.slots.word {
          aborted := true;
        } else {
          assert CanSave(t, View(), r, 1);
          var extra := InsertSave(|out|, r);
          assert Before(|out|) == View();
          k := extra + 1;
        }
      }
    }

    method SaveLiveRegs(callSets: set<nat>)
      requires t.moveWords >= 1
      modifies this
      ensures View() == SaveFrom(t, old(View()), callSets, 0)
    {
      hide SaveAt;
      var r := 0;
      ghost var goal := SaveFrom(t, View(), callSets, 0);
      while r < t.regCount && !aborted
        invariant SaveFrom(t, View(), callSets, r) == goal
      {
        var k := SaveOne(callSets, r);
        r := r + k;
      }
    }

    /** The part of the scan that handles a CALL_INSN. */
    method ScanCallInsn(stores: seq<RegRange>)
      requires TargetOk(t) && saved <= Range(0, t.regCount)
      modifies this
      ensures View() == ScanCall(t, old(View()), AllRegs(stores)) && saved <= Range(0, t.regCount)
    {
      MoveWordsPositive(t);
      ghost var s := View();
      hide Range, AllRegs, TargetOk, SaveFrom;
      var oldLive := live;
      live := {};
      NoteStores(stores);
      var callSets := live;
      live := oldLive;
      assert callSets == AllRegs(stores);
      SavedInRange(t, View(), callSets, 0);
      SaveLiveRegs(callSets);
      live := live + callSets;
      need := saved;
      n := CountSaved();
    }

    /** One turn of the scan. */
    method ScanOne(i: Insn)
      requires TargetOk(t) && saved <= Range(0, t.regCount)
      modifies this
      ensures View() == ScanInsn(t, old(View()), i) && saved <= Range(0, t.regCount)
    {
      MoveWordsPositive(t);
      hide TargetOk, Range, AllRegs, RestoreReferenced, ScanCall;
      if i.kind != NotAnInsn {
        if n != 0 {
          RestoreReferencedRegs(i.pattern);
        }
        ClearNotes(i.dead);
        if i.kind == Call {
          ScanCallInsn(i.stores);
        } else {
          NoteStores(i.stores);
        }
        out := out + [Original(i)];
        ClearNotes(i.unused);
      } else {
        out := out + [Original(i)];
      }
    }

    /** The scan of a basic block with the given registers live at its start. */
    method ScanInsns(liveAtStart: set<nat>, insns: seq<Insn>)
      requires TargetOk(t)
      modifies this
      ensures View() == ScanBlock(t, StartOfBlock(liveAtStart), insns)
    {
      MoveWordsPositive(t);
      hide TargetOk, Range, ScanInsn, RestoreRange;
      live, saved, need, n, out, aborted := liveAtStart, {}, {}, 0, [], false;
      var k := 0;
      while k < |insns|
        invariant 0 <= k <= |insns| && saved <= Range(0, t.regCount)
        invariant View() == ScanBlock(t, StartOfBlock(liveAtStart), insns[..k])
      {
        assert insns[..k + 1][..k] == insns[..k];
        ScanOne(insns[k]);
        k := k + 1;
      }
      assert insns[..k] == insns;
    }

    /** `save_call_clobbered_regs` on one basic block with the given registers live at its start. */
    method SaveClobbered(liveAtStart: set<nat>, insns: seq<Insn>)
      requires TargetOk(t)
      modifies this
      ensures View() == SaveBlock(t, liveAtStart, insns)
    {
      hide TargetOk, Range, ScanInsn, RestoreRange, ScanBlock;
      MoveWordsPositive(t);
      ScanInsns(liveAtStart, insns);
      ghost var s := View();
      OutGrows(t, liveAtStart, insns);
      // In front of a final jump, otherwise after the last insn.
      var pos := if EndsInJump(insns) then |out| - 1 else |out|;
      ghost var tail := out[pos..];
      if n != 0 {
        RestoreRangeOut(t, s, s.out[..pos], 0, t.regCount, t.moveWords);
        var end := RestoreRegs(pos, 0, t.regCount, t.moveWords);
        Halves(out, end);
      }
      Placed(s.out, pos, EndRestores(t, s).out, out, EndsInJump(insns));
    }
  }

  lemma Halves(s: seq<Code>, k: nat)
    requires k <= |s|
    ensures s == s[..k] + s[k..]
  {
  }

  /** Inserting at the chosen position is what `PlaceRestores` says. */
  lemma Placed(before: seq<Code>, pos: nat, ended: seq<Code>, out: seq<Code>, beforeLast: bool)
    requires before <= ended && pos <= |before| && (beforeLast ==> |before| > 0)
    requires pos == if beforeLast then |before| - 1 else |before|
    requires out == before[..pos] + ended[|before|..] + before[pos..]
    ensures out == PlaceRestores(before, ended[|before|..], beforeLast)
  {
  }

  lemma OutGrows(t: Target, live: set<nat>, insns: seq<Insn>)
    requires t.moveWords >= 1
    ensures insns != [] ==> ScanBlock(t, StartOfBlock(live), insns).out != []
  {
    hide RestoreReferenced, ScanCall, ScanBlock;
    if insns != [] {
      var s := ScanBlock(t, StartOfBlock(live), insns[..|insns| - 1]);
      ScanBlockStep(t, StartOfBlock(live), insns);
      assert ScanInsn(t, s, insns[|insns| - 1]).out != [];
    }
  }

  lemma ScanBlockStep(t: Target, s: Status, insns: seq<Insn>)
    requires t.moveWords >= 1 && insns != []
    ensures ScanBlock(t, s, insns) == ScanInsn(t, ScanBlock(t, s, insns[..|insns| - 1]), insns[|insns| - 1])
  {
  }
}
