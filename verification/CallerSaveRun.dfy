/**
 What the code before and after `save_call_clobbered_regs` computes.

 The original block runs on an ideal machine where a call changes only the registers it sets; the
 emitted block runs on the real machine, where a call also destroys every clobbered register.
 */
module CallerSaveRun {
  import opened SaveAreas
  import opened CallerSave

  /** Register contents, save-area contents by word address, and the values read by each insn. */
  datatype State = State(regs: map<nat, int>, frame: map<nat, int>, log: seq<map<nat, int>>)

  function Get(m: map<nat, int>, k: nat): int { if k in m then m[k] else 0 }

  /** What insns compute: an insn stores `result(id, values read, register)`, and a clobbered register
      holds `garbage(time, register)` after a call.  Nothing is assumed of either function. */
  datatype Meaning = Meaning(result: (nat, map<nat, int>, nat) -> int, garbage: (nat, nat) -> int)

  function Inputs(i: Insn, regs: map<nat, int>): map<nat, int> {
    map r | r in i.inputs :: Get(regs, r)
  }

  function Execute(t: Target, f: Meaning, i: Insn, s: State, real_: bool): State {
    if i.kind == NotAnInsn then s
    else
      var x := Inputs(i, s.regs);
      State(
        map r | r in Range(0, t.regCount) ::
          if r in AllRegs(i.stores) then f.result(i.id, x, r)
          else if real_ && i.kind == Call && r in t.callUsed && r !in t.callFixed then f.garbage(|s.log|, r)
          else Get(s.regs, r),
        s.frame, s.log + [x])
  }

  function Step(t: Target, f: Meaning, c: Code, s: State): State {
    match c
    case Original(i) => Execute(t, f, i, s, true)
    case Save(g, a) =>
      s.(frame := s.frame + map w | w in Range(a, g.count) :: Get(s.regs, g.first + (w - a)))
    case Restore(g, a) =>
      s.(regs := map r | r in Range(0, t.regCount) ::
        if r in Regs(g) then Get(s.frame, a + (r - g.first)) else Get(s.regs, r))
  }

  /** Running the emitted code. */
  function Run(t: Target, f: Meaning, code: seq<Code>, s: State): State {
    if code == [] then s else Step(t, f, code[|code| - 1], Run(t, f, code[..|code| - 1], s))
  }

  /** Running the original insns. */
  function RunIdeal(t: Target, f: Meaning, insns: seq<Insn>, s: State): State {
    if insns == [] then s
    else Execute(t, f, insns[|insns| - 1], RunIdeal(t, f, insns[..|insns| - 1], s), false)
  }

  lemma RunAppend(t: Target, f: Meaning, code: seq<Code>, c: Code, s: State)
    ensures Run(t, f, code + [c], s) == Step(t, f, c, Run(t, f, code, s))
  {
    assert (code + [c])[..|code|] == code;
  }

  lemma {:induction false} RunConcat(t: Target, f: Meaning, a: seq<Code>, b: seq<Code>, s: State)
    ensures Run(t, f, a + b, s) == Run(t, f, b, Run(t, f, a, s))
    decreases |b|
  {
    if b == [] {
      assert a + b == a;
    } else {
      var b', c := b[..|b| - 1], b[|b| - 1];
      assert a + b == (a + b') + [c];
      RunAppend(t, f, a + b', c, s);
      RunConcat(t, f, a, b', s);
    }
  }

  // ---------------------------------------------------------------- what the pass may assume

  /** The registers under `restore_referenced_regs`. */
  function Referenced(x: Rtx): set<nat> {
    match x
    case HardReg(g) => Regs(g)
    case Clobber(_) => {}
    case Pseudo(e) => AllReferenced(e)
    case Expr(args) => AllReferenced(args)
  }

  function AllReferenced(xs: seq<Rtx>): set<nat> {
    if xs == [] then {} else AllReferenced(xs[..|xs| - 1]) + Referenced(xs[|xs| - 1])
  }

  /** Of a list of operands the registers of each are referenced. */
  lemma {:induction false} AllAreReferenced(xs: seq<Rtx>, r: nat)
    ensures r in AllReferenced(xs) <==> exists i :: 0 <= i < |xs| && r in Referenced(xs[i])
    decreases |xs|
  {
    hide Referenced;
    if xs != [] {
      var ys := xs[..|xs| - 1];
      AllAreReferenced(ys, r);
      assert r in AllReferenced(ys) <==> exists i :: 0 <= i < |xs| - 1 && r in Referenced(xs[i]) by {
        assert forall i :: 0 <= i < |ys| ==> ys[i] == xs[i];
      }
    }
  }

  /** Liveness, as the notes and stores of an insn change it. */
  function LiveAfter(live: set<nat>, i: Insn): set<nat> {
    if i.kind == NotAnInsn then live else (live - AllRegs(i.dead) + AllRegs(i.stores)) - AllRegs(i.unused)
  }

  function LiveAt(live: set<nat>, insns: seq<Insn>): set<nat> {
    if insns == [] then live else LiveAfter(LiveAt(live, insns[..|insns| - 1]), insns[|insns| - 1])
  }

  /** An insn uses only live registers, all of which occur in its pattern. */
  ghost predicate InsnOk(t: Target, live: set<nat>, i: Insn) {
    i.kind != NotAnInsn ==>
      i.inputs <= live && i.inputs <= Referenced(i.pattern) && AllRegs(i.stores) <= Range(0, t.regCount)
  }

  ghost predicate InsnOkAt(t: Target, live: set<nat>, insns: seq<Insn>, k: nat)
    requires k < |insns|
  {
    InsnOk(t, LiveAt(live, insns[..k]), insns[k])
  }

  ghost predicate BlockOk(t: Target, live: set<nat>, insns: seq<Insn>) {
    live <= Range(0, t.regCount) && forall k :: 0 <= k < |insns| ==> InsnOkAt(t, live, insns, k)
  }

  /** The save areas are as `setup_save_areas` leaves them. */
  ghost predicate TargetOk(t: Target) {
    && t.moveWords >= 1
    && (forall r :: r in t.slots.word ==> r < t.regCount)
    && (forall r, j :: (r, j) in t.slots.group ==> 1 < j)
    && GroupsAreConsecutive(t.slots)
    && WordsAreDisjoint(t.slots)
  }

  lemma AllocatedTargetOk(m: Machine, a: Areas, t: Target)
    requires m.Valid() && SlotsOk(m, a)
    requires t.slots == a.slots && t.moveWords == m.moveWords && t.regCount == m.regCount
    ensures TargetOk(t)
  {
  }

  // ---------------------------------------------------------------- groups that overlap what a call sets

  /** The registers with a save when the call `i` is made, and those of them that it sets: the group
      test does not look at what the call sets. */
  function SavedBefore(t: Target, s: Status, i: Insn): set<nat>
    requires t.moveWords >= 1
  {
    BeforeCall(t, ClearLive(RestoreBefore(t, s, i), i.dead), AllRegs(i.stores)).saved
  }

  function Overwritten(t: Target, s: Status, i: Insn): set<nat>
    requires t.moveWords >= 1
  {
    if i.kind == Call then SavedBefore(t, s, i) * AllRegs(i.stores) else {}
  }

  /** The registers whose save holds a value from before the call that set them: saved registers set
      by a call, until they are stored again, die or turn out unused. */
  function Stale(t: Target, live: set<nat>, insns: seq<Insn>): set<nat>
    requires t.moveWords >= 1
  {
    if insns == [] then {}
    else StaleAfter(t, ScanBlock(t, StartOfBlock(live), insns[..|insns| - 1]),
                    Stale(t, live, insns[..|insns| - 1]), insns[|insns| - 1])
  }

  function StaleAfter(t: Target, s: Status, stale: set<nat>, i: Insn): set<nat>
    requires t.moveWords >= 1
  {
    if i.kind == NotAnInsn then stale
    else (stale - AllRegs(i.dead) - AllRegs(i.stores) + Overwritten(t, s, i)) - AllRegs(i.unused)
  }

  ghost predicate NoStaleRead(t: Target, live: set<nat>, insns: seq<Insn>, k: nat)
    requires t.moveWords >= 1 && k < |insns|
  {
    insns[k].kind != NotAnInsn ==> Stale(t, live, insns[..k]) !! insns[k].inputs
  }

  ghost predicate NoStaleReads(t: Target, live: set<nat>, insns: seq<Insn>)
    requires t.moveWords >= 1
  {
    forall k :: 0 <= k < |insns| ==> NoStaleRead(t, live, insns, k)
  }

  /** No insn uses a stale register and none is live at the end. */
  ghost predicate NoneStale(t: Target, live: set<nat>, insns: seq<Insn>)
    requires t.moveWords >= 1
  {
    NoStaleReads(t, live, insns) && Stale(t, live, insns) == {}
  }

  /** `m` with the registers of `kept` as in `was`. */
  function Keep(m: State, kept: set<nat>, was: State): State {
    m.(regs := map r | r in m.regs.Keys + kept :: if r in kept then Get(was.regs, r) else Get(m.regs, r))
  }

  /** An ideal insn, except that a call leaves the registers it overwrites as they are in the emitted
      code before it. */
  function ExecuteKeeping(t: Target, f: Meaning, s: Status, i: Insn, m: State, start: State): State
    requires t.moveWords >= 1
  {
    if i.kind == Call
    then Keep(Execute(t, f, i, m, false), Overwritten(t, s, i), Run(t, f, RestoreBefore(t, s, i).out, start))
    else Execute(t, f, i, m, false)
  }

  /** The original insns on a machine whose calls do not set the registers with saves. */
  function RunKeeping(t: Target, f: Meaning, live: set<nat>, insns: seq<Insn>, ideal: State, start: State): State
    requires t.moveWords >= 1
  {
    if insns == [] then ideal
    else ExecuteKeeping(t, f, ScanBlock(t, StartOfBlock(live), insns[..|insns| - 1]), insns[|insns| - 1],
                        RunKeeping(t, f, live, insns[..|insns| - 1], ideal, start), start)
  }
}
