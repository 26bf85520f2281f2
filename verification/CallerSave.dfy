/**
 Insertion of saves and restores around calls (m3cc/gcc/caller-save.c, `save_call_clobbered_regs`).

 The functions below give the pass as a transformation of its status, in the order of the source's
 loops; class `Pass` of CallerSavePass is the pass itself, on static register sets updated insn by insn.
 */
module CallerSave {
  import opened Helpers
  import opened SaveAreas

  /** A register operand, by its first hard register and its number of words. */
  datatype RegRange = RegRange(first: nat, count: nat)

  function Regs(x: RegRange): set<nat> { Range(x.first, x.count) }

  function AllRegs(xs: seq<RegRange>): set<nat> {
    if xs == [] then {} else Regs(xs[0]) + AllRegs(xs[1..])
  }

  /** The parts of an insn pattern that `restore_referenced_regs` looks at.  A pseudo register stands
      for its equivalent memory address, if it has one. */
  datatype Rtx =
    | HardReg(reg: RegRange)
    | Pseudo(equiv: seq<Rtx>)
    | Clobber(what: Rtx)
    | Expr(args: seq<Rtx>)

  datatype Kind = Plain | Jump | Call | NotAnInsn

  /** `inputs` are the registers whose values the insn uses, `stores` what `note_stores` reports, and
      `dead` and `unused` its REG_DEAD and REG_UNUSED notes. */
  datatype Insn = Insn(id: nat, kind: Kind, pattern: Rtx, inputs: set<nat>,
                       stores: seq<RegRange>, dead: seq<RegRange>, unused: seq<RegRange>)

  datatype Code =
    | Original(insn: Insn)
    | Save(reg: RegRange, slot: nat)
    | Restore(reg: RegRange, slot: nat)

  /** `call_used_regs`, `call_fixed_regs` and the save slots. */
  datatype Target = Target(regCount: nat, moveWords: nat, callUsed: set<nat>, callFixed: set<nat>, slots: Slots) {
    /** The registers that a call may change and that must be saved when live across it. */
    predicate Clobbered(r: nat) { r in callUsed && r !in callFixed }
  }

  /** `hard_regs_live`, `hard_regs_saved`, `hard_regs_need_restore`, `n_regs_saved`, the insns emitted
      so far, and whether `abort` was called. */
  datatype Status = Status(live: set<nat>, saved: set<nat>, need: set<nat>, n: int, out: seq<Code>, aborted: bool)

  // ---------------------------------------------------------------- insert_save_restore

  predicate CanSave(t: Target, s: Status, r: nat, w: nat) {
    t.slots.Has(r, w) &&
    forall q: nat | r <= q < r + w :: t.Clobbered(q) && q in s.live && q !in s.saved
  }

  predicate CanRestore(t: Target, s: Status, r: nat, w: nat) {
    t.slots.Has(r, w) && forall q: nat | r <= q < r + w :: q in s.need
  }

  /** The widest group, at most `w` registers, that can be saved at `r`; 0 when there is none. */
  function SaveWidth(t: Target, s: Status, r: nat, w: nat): (k: nat)
    ensures k <= w && (k > 0 ==> CanSave(t, s, r, k))
    ensures forall v :: k < v <= w ==> !CanSave(t, s, r, v)
  {
    if w == 0 then 0 else if CanSave(t, s, r, w) then w else SaveWidth(t, s, r, w - 1)
  }

  function RestoreWidth(t: Target, s: Status, r: nat, w: nat): (k: nat)
    ensures k <= w && (k > 0 ==> CanRestore(t, s, r, k))
    ensures forall v :: k < v <= w ==> !CanRestore(t, s, r, v)
  {
    if w == 0 then 0 else if CanRestore(t, s, r, w) then w else RestoreWidth(t, s, r, w - 1)
  }

  /** The status after a save of `k` registers, and after a restore of `k` registers. */
  function AfterSave(t: Target, s: Status, r: nat, k: nat): Status
    requires t.slots.Has(r, k)
  {
    s.(saved := s.saved + Range(r, k), need := s.need + Range(r, k), n := s.n + k,
       out := s.out + [Save(RegRange(r, k), t.slots.At(r, k))])
  }

  function AfterRestore(t: Target, s: Status, r: nat, k: nat): Status
    requires t.slots.Has(r, k)
  {
    s.(need := s.need - Range(r, k), n := s.n - k,
       out := s.out + [Restore(RegRange(r, k), t.slots.At(r, k))])
  }

  // ---------------------------------------------------------------- one insn

  /** Restore the registers of `r`, ..., `last - 1` that need it, at most `w` at a time. */
  function RestoreRange(t: Target, s: Status, r: nat, last: nat, w: nat): (s': Status)
    requires w >= 1
    ensures s.out <= s'.out && s'.live == s.live && s'.saved == s.saved
    decreases last - r
  {
    if r >= last || s.aborted then s
    else if r !in s.need then RestoreRange(t, s, r + 1, last, w)
    else if r !in t.slots.word then s.(aborted := true)
    else
      var k := RestoreWidth(t, s, r, w);
      assert k > 0 by { assert CanRestore(t, s, r, 1); }
      RestoreRange(t, AfterRestore(t, s, r, k), r + k, last, w)
  }

  /** `restore_referenced_regs`: operands are visited from the last to the first. */
  function RestoreReferenced(t: Target, s: Status, x: Rtx): Status
    requires t.moveWords >= 1
    decreases x, 1
  {
    match x
    case Clobber(_) => s
    case HardReg(g) =>
      if g.count == 0 then s else RestoreRange(t, s, g.first, g.first + g.count, Min(g.count, t.moveWords))
    case Pseudo(e) => RestoreAllReferenced(t, s, e)
    case Expr(args) => RestoreAllReferenced(t, s, args)
  }

  function RestoreAllReferenced(t: Target, s: Status, xs: seq<Rtx>): Status
    requires t.moveWords >= 1
    decreases xs, 0
  {
    if xs == [] then s
    else RestoreAllReferenced(t, RestoreReferenced(t, s, xs[|xs| - 1]), xs[..|xs| - 1])
  }

  /** `set_reg_live` and `clear_reg_live` over a list of register operands. */
  function SetLive(s: Status, xs: seq<RegRange>): Status {
    s.(live := s.live + AllRegs(xs), saved := s.saved - AllRegs(xs), need := s.need - AllRegs(xs))
  }

  function ClearLive(s: Status, xs: seq<RegRange>): Status {
    s.(live := s.live - AllRegs(xs), saved := s.saved - AllRegs(xs), need := s.need - AllRegs(xs))
  }

  /** Live across the call, clobbered by it, not set by it, and not saved yet. */
  predicate MustSave(t: Target, s: Status, callSets: set<nat>, r: nat) {
    t.Clobbered(r) && r in s.live && r !in callSets && r !in s.saved
  }

  /** What is done for register `r`, and how many registers that takes care of.  The group is chosen
      without looking at `callSets` again, as in the source. */
  function SaveAt(t: Target, s: Status, callSets: set<nat>, r: nat): (result: (Status, nat))
    requires t.moveWords >= 1
    ensures result.1 > 0
  {
    if !MustSave(t, s, callSets, r) then (s, 1)
    else if r !in t.slots.word then (s.(aborted := true), 1)
    else
      var k := SaveWidth(t, s, r, t.moveWords);
      assert k > 0 by { assert CanSave(t, s, r, 1); }
      (AfterSave(t, s, r, k), k)
  }

  /** Save every register from `r` on that must be. */
  function SaveFrom(t: Target, s: Status, callSets: set<nat>, r: nat): Status
    requires t.moveWords >= 1
    decreases t.regCount - r
  {
    if r >= t.regCount || s.aborted then s
    else var (s1, k) := SaveAt(t, s, callSets, r); SaveFrom(t, s1, callSets, r + k)
  }

  /** The saves before a call; `note_stores` is run on an empty `hard_regs_live` to find what the
      call sets, which also takes those registers out of the other two sets. */
  function BeforeCall(t: Target, s: Status, callSets: set<nat>): Status
    requires t.moveWords >= 1
  {
    SaveFrom(t, s.(saved := s.saved - callSets, need := s.need - callSets), callSets, 0)
  }

  function ScanCall(t: Target, s: Status, callSets: set<nat>): Status
    requires t.moveWords >= 1
  {
    var s1 := BeforeCall(t, s, callSets);
    s1.(live := s1.live + callSets, need := s1.saved, n := |s1.saved|)
  }

  /** Registers that the insn refers to are restored in front of it. */
  function RestoreBefore(t: Target, s: Status, i: Insn): Status
    requires t.moveWords >= 1
  {
    if s.n != 0 then RestoreReferenced(t, s, i.pattern) else s
  }

  /** One turn of the scan of a basic block. */
  function ScanInsn(t: Target, s: Status, i: Insn): Status
    requires t.moveWords >= 1
  {
    if i.kind == NotAnInsn then s.(out := s.out + [Original(i)])
    else
      var s2 := ClearLive(RestoreBefore(t, s, i), i.dead);
      var s3 := if i.kind == Call then ScanCall(t, s2, AllRegs(i.stores)) else SetLive(s2, i.stores);
      ClearLive(s3.(out := s3.out + [Original(i)]), i.unused)
  }

  // ---------------------------------------------------------------- one basic block

  function ScanBlock(t: Target, s: Status, insns: seq<Insn>): Status
    requires t.moveWords >= 1
  {
    if insns == [] then s
    else ScanInsn(t, ScanBlock(t, s, insns[..|insns| - 1]), insns[|insns| - 1])
  }

  function StartOfBlock(live: set<nat>): Status { Status(live, {}, {}, 0, [], false) }

  /** The restores at the end of the block. */
  function EndRestores(t: Target, s: Status): (s': Status)
    requires t.moveWords >= 1
    ensures s.out <= s'.out
  {
    if s.n != 0 then RestoreRange(t, s, 0, t.regCount, t.moveWords) else s
  }

  /** They go before a final jump, and otherwise after the last insn. */
  function PlaceRestores(out: seq<Code>, restores: seq<Code>, beforeLast: bool): seq<Code> {
    if beforeLast && |out| > 0 then out[..|out| - 1] + restores + [out[|out| - 1]] else out + restores
  }

  predicate EndsInJump(insns: seq<Insn>) {
    |insns| > 0 && insns[|insns| - 1].kind == Jump
  }

  function SaveBlock(t: Target, live: set<nat>, insns: seq<Insn>): Status
    requires t.moveWords >= 1
  {
    var s := ScanBlock(t, StartOfBlock(live), insns);
    var e := EndRestores(t, s);
    e.(out := PlaceRestores(s.out, e.out[|s.out|..], EndsInJump(insns)))
  }
}
