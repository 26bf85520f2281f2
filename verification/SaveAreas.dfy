/**
 Stack slots for call-clobbered hard registers (m3cc/gcc/caller-save.c, `setup_save_areas`).

 `regno_save_mem[r][1]` is `word[r]` and `regno_save_mem[r][j]` for j > 1 is `group[(r, j)]`, each
 a word address in the frame; an absent entry is the null rtx.
 */
module SaveAreas {

  datatype Slots = Slots(word: map<nat, nat>, group: map<(nat, nat), nat>) {
    /** Is `regno_save_mem[r][j]` set? */
    predicate Has(r: nat, j: nat) {
      if j == 1 then r in word else (r, j) in group
    }

    function At(r: nat, j: nat): nat
      requires Has(r, j)
    {
      if j == 1 then word[r] else group[(r, j)]
    }
  }

  /** The machine description: register count, widest move in words, and the (register, width)
      pairs for which a save mode exists.  A mode never runs past the last register. */
  datatype Machine = Machine(regCount: nat, moveWords: nat, modes: set<(nat, nat)>) {
    ghost predicate Valid() {
      && moveWords >= 1
      && forall r, j :: (r, j) in modes ==> 1 <= j <= moveWords && r + j <= regCount
    }
  }

  /** The slots allocated so far and the next free word of the frame. */
  datatype Areas = Areas(slots: Slots, frameTop: nat)

  const NO_AREAS := Areas(Slots(map[], map[]), 0)

  /** Each group slot is exactly the consecutive word slots of its registers. */
  ghost predicate GroupsAreConsecutive(slots: Slots) {
    forall r: nat, j: nat, q: nat :: (r, j) in slots.group && r <= q < r + j ==>
      q in slots.word && slots.word[q] == slots.group[(r, j)] + (q - r)
  }

  /** Different registers have different word slots. */
  ghost predicate WordsAreDisjoint(slots: Slots) {
    forall r, q :: r in slots.word && q in slots.word && r != q ==> slots.word[r] != slots.word[q]
  }

  ghost predicate SlotsOk(m: Machine, a: Areas) {
    && (forall r, j :: (r, j) in a.slots.group ==> 1 < j <= m.moveWords && r + j <= m.regCount)
    && (forall r :: r in a.slots.word ==> r < m.regCount && a.slots.word[r] < a.frameTop)
    && GroupsAreConsecutive(a.slots)
    && WordsAreDisjoint(a.slots)
  }

  /** The test made for the group of `j` registers starting at `i`. */
  predicate Eligible(m: Machine, slots: Slots, used: set<nat>, i: nat, j: nat) {
    && (i, j) in m.modes
    && i !in slots.word
    && (forall q: nat | i <= q < i + j :: q !in slots.word)
    && (forall q: nat | i <= q < i + j :: q in used)
  }

  /** The `count` registers from `first` on. */
  function Range(first: nat, count: nat): (r: set<nat>)
    ensures forall q :: q in r <==> first <= q < first + count
    ensures |r| == count
  {
    if count == 0 then {} else {first + count - 1} + Range(first, count - 1)
  }

  /** The slot for `j` registers at word address `base`, and the word slots carved out of it. */
  function WithGroup(slots: Slots, i: nat, j: nat, base: nat): Slots {
    Slots(
      slots.word + (map q | q in Range(i, j) :: base + (q - i)),
      if j == 1 then slots.group else slots.group[(i, j) := base])
  }

  function AllocAt(m: Machine, a: Areas, used: set<nat>, i: nat, j: nat): Areas {
    if Eligible(m, a.slots, used, i, j)
    then Areas(WithGroup(a.slots, i, j, a.frameTop), a.frameTop + j)
    else a
  }

  /** Widths `j`, `j-1`, ..., 1 for register `i`. */
  function SetupWidths(m: Machine, a: Areas, used: set<nat>, i: nat, j: nat): Areas
    decreases j
  {
    if j == 0 then a else SetupWidths(m, AllocAt(m, a, used, i, j), used, i, j - 1)
  }

  /** Registers `i`, `i+1`, ... in order, widest group first. */
  function SetupFrom(m: Machine, a: Areas, used: set<nat>, i: nat): Areas
    decreases m.regCount - i
  {
    if i >= m.regCount then a
    else SetupFrom(m, SetupWidths(m, a, used, i, m.moveWords), used, i + 1)
  }

  lemma SetupTurn(m: Machine, a: Areas, used: set<nat>, i: nat)
    ensures SetupFrom(m, a, used, i) ==
            if i >= m.regCount then a else SetupFrom(m, SetupWidths(m, a, used, i, m.moveWords), used, i + 1)
  {
    hide SetupWidths;
  }

  // ---------------------------------------------------------------- properties

  /** `b` keeps every slot of `a`, and gives new word slots to registers of `used` only, in
      fresh frame space. */
  ghost predicate Extends(a: Areas, b: Areas, used: set<nat>) {
    && (forall r :: r in a.slots.word ==> r in b.slots.word && b.slots.word[r] == a.slots.word[r])
    && (forall g :: g in a.slots.group ==> g in b.slots.group && b.slots.group[g] == a.slots.group[g])
    && (forall r :: r in b.slots.word && r !in a.slots.word ==> r in used && b.slots.word[r] >= a.frameTop)
    && a.frameTop <= b.frameTop
  }

  lemma ExtendsTransitive(a: Areas, b: Areas, c: Areas, used: set<nat>)
    requires Extends(a, b, used) && Extends(b, c, used)
    ensures Extends(a, c, used)
  {
    forall r | r in c.slots.word && r !in a.slots.word
      ensures r in used && c.slots.word[r] >= a.frameTop
    {
      if r in b.slots.word {
        assert c.slots.word[r] == b.slots.word[r];
      }
    }
  }

  lemma WithGroupConsecutive(slots: Slots, i: nat, j: nat, base: nat)
    requires GroupsAreConsecutive(slots)
    requires forall q: nat | i <= q < i + j :: q !in slots.word
    ensures GroupsAreConsecutive(WithGroup(slots, i, j, base))
  {
    var after := WithGroup(slots, i, j, base);
    forall r: nat, w: nat, q: nat | (r, w) in after.group && r <= q < r + w
      ensures q in after.word && after.word[q] == after.group[(r, w)] + (q - r)
    {
      if (r, w) != (i, j) || j == 1 {
        assert (r, w) in slots.group;
        assert q in slots.word && slots.word[q] == slots.group[(r, w)] + (q - r);
      }
    }
  }

  lemma WithGroupDisjoint(slots: Slots, i: nat, j: nat, base: nat)
    requires WordsAreDisjoint(slots)
    requires forall r :: r in slots.word ==> slots.word[r] < base
    ensures WordsAreDisjoint(WithGroup(slots, i, j, base))
  {
    var after := WithGroup(slots, i, j, base);
    forall r, q | r in after.word && q in after.word && r != q
      ensures after.word[r] != after.word[q]
    {
      if r !in Range(i, j) && q !in Range(i, j) {
        assert slots.word[r] != slots.word[q];
      }
    }
  }

  lemma AllocAtOk(m: Machine, a: Areas, used: set<nat>, i: nat, j: nat)
    requires m.Valid() && SlotsOk(m, a)
    ensures SlotsOk(m, AllocAt(m, a, used, i, j))
  {
    if Eligible(m, a.slots, used, i, j) {
      WithGroupConsecutive(a.slots, i, j, a.frameTop);
      WithGroupDisjoint(a.slots, i, j, a.frameTop);
    }
  }

  lemma AllocAtExtends(m: Machine, a: Areas, used: set<nat>, i: nat, j: nat)
    requires m.Valid() && SlotsOk(m, a)
    ensures Extends(a, AllocAt(m, a, used, i, j), used)
  {
    if Eligible(m, a.slots, used, i, j) {
      if (i, j) in a.slots.group {
        assert false;
      }
    }
  }

  lemma {:induction false} SetupWidthsOk(m: Machine, a: Areas, used: set<nat>, i: nat, j: nat)
    requires m.Valid() && SlotsOk(m, a)
    ensures SlotsOk(m, SetupWidths(m, a, used, i, j))
    ensures Extends(a, SetupWidths(m, a, used, i, j), used)
    decreases j
  {
    if j != 0 {
      var b := AllocAt(m, a, used, i, j);
      AllocAtOk(m, a, used, i, j);
      AllocAtExtends(m, a, used, i, j);
      SetupWidthsOk(m, b, used, i, j - 1);
      ExtendsTransitive(a, b, SetupWidths(m, b, used, i, j - 1), used);
    }
  }

  lemma {:induction false} UsedGetsSlot(m: Machine, a: Areas, used: set<nat>, i: nat, j: nat)
    requires m.Valid() && SlotsOk(m, a)
    requires j >= 1 && (i, 1) in m.modes && i in used
    ensures i in SetupWidths(m, a, used, i, j).slots.word
    decreases j
  {
    var b := AllocAt(m, a, used, i, j);
    AllocAtOk(m, a, used, i, j);
    AllocAtExtends(m, a, used, i, j);
    if i in b.slots.word {
      SetupWidthsOk(m, b, used, i, j - 1);
    } else {
      UsedGetsSlot(m, b, used, i, j - 1);
    }
  }

  /** Main result.  Starting from valid areas (none at first; `setup_save_areas` may be called again
      with more registers used), every used register that has a save mode gets a word slot, groups
      are the consecutive slots of their registers, slots of different registers are disjoint, no
      earlier slot moves, and no register outside `used` receives one. */
  lemma {:induction false} SetupFromOk(m: Machine, a: Areas, used: set<nat>, i: nat)
    requires m.Valid() && SlotsOk(m, a)
    ensures SlotsOk(m, SetupFrom(m, a, used, i))
    ensures Extends(a, SetupFrom(m, a, used, i), used)
    ensures forall r: nat :: i <= r < m.regCount && (r, 1) in m.modes && r in used ==>
              r in SetupFrom(m, a, used, i).slots.word
    decreases m.regCount - i
  {
    hide SlotsOk, SetupWidths;
    if i < m.regCount {
      var b := SetupWidths(m, a, used, i, m.moveWords);
      SetupWidthsOk(m, a, used, i, m.moveWords);
      if (i, 1) in m.modes && i in used {
        UsedGetsSlot(m, a, used, i, m.moveWords);
      }
      SetupFromOk(m, b, used, i + 1);
      ExtendsTransitive(a, b, SetupFrom(m, b, used, i + 1), used);
    }
  }

  /** Multi-register slots are made whenever they can be: when the `j` registers from `i` are all
      used and unslotted, and no wider mode qualifies at `i`, they receive one slot of `j` words. */
  lemma {:induction false} WidestGroupFirst(m: Machine, a: Areas, used: set<nat>, i: nat, w: nat, j: nat)
    requires m.Valid() && SlotsOk(m, a) && 1 <= j <= w
    requires Eligible(m, a.slots, used, i, j)
    requires forall v :: j < v <= w ==> !Eligible(m, a.slots, used, i, v)
    ensures SetupWidths(m, a, used, i, w).slots.Has(i, j)
    ensures SetupWidths(m, a, used, i, w).slots.At(i, j) == a.frameTop
    decreases w
  {
    hide SlotsOk, Eligible;
    if w == j {
      var b := AllocAt(m, a, used, i, j);
      AllocAtOk(m, a, used, i, j);
      assert b.slots.Has(i, j) && b.slots.At(i, j) == a.frameTop;
      SetupWidthsOk(m, b, used, i, j - 1);
      hide WithGroup;
    } else {
      WidestGroupFirst(m, a, used, i, w - 1, j);
    }
  }

  /** The allocator itself, in the order of the source's loops. */
  class SaveAreaAllocator {
    const machine: Machine
    var slots: Slots
    var frameTop: nat

    ghost function View(): Areas reads this { Areas(slots, frameTop) }

    /** `init_save_areas` */
    constructor (m: Machine)
      requires m.Valid()
      ensures machine == m && View() == NO_AREAS && SlotsOk(machine, View())
    {
      machine := m;
      slots := Slots(map[], map[]);
      frameTop := 0;
    }

    /** `setup_save_areas`, without the check of the eliminated addresses; `changed` is *PCHANGED. */
    method Setup(used: set<nat>) returns (changed: bool)
      requires machine.Valid() && SlotsOk(machine, View())
      modifies this
      ensures View() == SetupFrom(machine, old(View()), used, 0)
      ensures SlotsOk(machine, View()) && Extends(old(View()), View(), used)
      ensures forall r: nat :: r < machine.regCount && (r, 1) in machine.modes && r in used ==> r in slots.word
      ensures changed == (frameTop != old(frameTop))
    {
      hide *;
      changed := false;
      ghost var start := View();
      Shown();
      SetupFromOk(machine, start, used, 0);
      var i := 0;
      while i < machine.regCount
        invariant 0 <= i <= machine.regCount
        invariant SetupFrom(machine, View(), used, i) == SetupFrom(machine, start, used, 0)
        invariant changed == (frameTop != start.frameTop) && start.frameTop <= frameTop
      {
        SetupTurn(machine, View(), used, i);
        var grown := SetupRegister(used, i);
        changed := changed || grown;
        i := i + 1;
      }
      SetupTurn(machine, View(), used, i);
      Shown();
    }

    lemma Shown()
      ensures View().frameTop == frameTop && View().slots == slots
    {
    }

    /** The groups that start at register `i`, from the widest on. */
    method SetupRegister(used: set<nat>, i: nat) returns (changed: bool)
      modifies this
      ensures View() == SetupWidths(machine, old(View()), used, i, machine.moveWords)
      ensures changed == (frameTop != old(frameTop)) && old(frameTop) <= frameTop
    {
      hide WithGroup, Eligible;
      changed := false;
      var j := machine.moveWords;
      ghost var start := frameTop;
      ghost var target := SetupWidths(machine, View(), used, i, j);
      while j > 0
        invariant SetupWidths(machine, View(), used, i, j) == target
        invariant changed == (frameTop != start) && start <= frameTop
      {
        var grown := SetupGroup(used, i, j);
        changed := changed || grown;
        j := j - 1;
      }
    }

    /** A slot for the `j` registers from `i` on, if they are all used and none has one. */
    method SetupGroup(used: set<nat>, i: nat, j: nat) returns (grown: bool)
      requires j > 0
      modifies this
      ensures View() == AllocAt(machine, old(View()), used, i, j)
      ensures grown == (frameTop != old(frameTop)) && old(frameTop) <= frameTop
    {
      grown := false;
      if (i, j) in machine.modes && i !in slots.word {
        var doSave := NoneSaved(i, j);
        if doSave {
          var ok := AllUsed(used, i, j);
          if ok {
            slots := WithGroup(slots, i, j, frameTop);
            frameTop := frameTop + j;
            grown := true;
          }
        }
      }
    }

    method NoneSaved(i: nat, j: nat) returns (r: bool)
      ensures r == (forall q: nat | i <= q < i + j :: q !in slots.word)
    {
      var k := 0;
      while k < j
        invariant 0 <= k <= j
        invariant forall q: nat | i <= q < i + k :: q !in slots.word
      {
        if i + k in slots.word {
          return false;
        }
        k := k + 1;
      }
      return true;
    }

    method AllUsed(used: set<nat>, i: nat, j: nat) returns (ok: bool)
      ensures ok == (forall q: nat | i <= q < i + j :: q in used)
    {
      ok := true;
      for k := 0 to j
        invariant ok == (forall q: nat | i <= q < i + k :: q in used)
      {
        ok := ok && i + k in used;
      }
    }
  }
}
