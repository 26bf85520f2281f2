/**
 The chain of binding levels as it is kept: `struct binding_level` objects linked through
 `level_chain`, recycled through a free list, and one local and one global value per identifier.
 */
module ScopeChain {
  import opened Helpers
  import opened Scopes

  class BindingLevel {
    var scope: nat
    var names: seq<Decl>
    var shadowed: seq<Shadow>
    var blocks: seq<Block>
    var preallocated: bool
    var keep: bool
    var keepIfSubblocks: bool
    var levelChain: BindingLevel?

    constructor ()
      ensures levelChain == null && Info() == Level(0, [], [], [], false, false, false)
    {
      scope, names, shadowed, blocks := 0, [], [], [];
      preallocated, keep, keepIfSubblocks := false, false, false;
      levelChain := null;
    }

    /** The assignment of `clear_binding_level`, and of the two keep flags. */
    method Clear(scope: nat, keep: bool, keepIfSubblocks: bool)
      modifies this
      ensures Info() == Level(scope, [], [], [], false, keep, keepIfSubblocks)
    {
      this.scope, names, shadowed, blocks, preallocated := scope, [], [], [], false;
      this.keep, this.keepIfSubblocks := keep, keepIfSubblocks;
    }

    ghost function Info(): Level reads this {
      Level(scope, names, shadowed, blocks, preallocated, keep, keepIfSubblocks)
    }
  }

  /** `chain` is the list that starts at `first` and is linked through `level_chain`, without
      repetition. */
  ghost predicate Linked(first: BindingLevel?, chain: seq<BindingLevel>)
    reads chain`levelChain
  {
    if chain == [] then first == null
    else first == chain[0] && chain[0] !in chain[1..] && Linked(chain[0].levelChain, chain[1..])
  }

  ghost function Infos(chain: seq<BindingLevel>): (r: seq<Level>)
    reads chain
    ensures |r| == |chain|
  {
    if chain == [] then [] else [chain[0].Info()] + Infos(chain[1..])
  }

  ghost predicate Disjoint(a: seq<BindingLevel>, b: seq<BindingLevel>) {
    forall x :: x in a ==> x !in b
  }

  lemma {:induction false} LastOfLinked(first: BindingLevel?, chain: seq<BindingLevel>)
    requires Linked(first, chain) && chain != []
    ensures chain[|chain| - 1].levelChain == null
  {
    if |chain| > 1 {
      LastOfLinked(chain[0].levelChain, chain[1..]);
    }
  }

  lemma {:induction false} InfosSplit(a: seq<BindingLevel>, b: seq<BindingLevel>)
    ensures Infos(a + b) == Infos(a) + Infos(b)
  {
    if a == [] {
      assert a + b == b;
    } else {
      assert (a + b)[1..] == a[1..] + b;
      InfosSplit(a[1..], b);
    }
  }

  class BindingLevels {
    var current: BindingLevel
    var free: BindingLevel?
    var globalLevel: BindingLevel
    var localValue: map<Name, Decl>
    var globalValue: map<Name, Decl>
    var keepNext: bool
    var keepNextIfSubblocks: bool
    ghost var active: seq<BindingLevel>
    ghost var spare: seq<BindingLevel>

    /** The active levels and the free ones are two lists without a level in common. */
    ghost predicate Valid()
      reads this, active, spare
    {
      && active != [] && globalLevel == active[|active| - 1]
      && Linked(current, active) && Linked(free, spare)
      && Disjoint(active, spare)
    }

    ghost function View(): State
      reads this, active
    {
      State(Infos(active), localValue, globalValue, keepNext, keepNextIfSubblocks)
    }

    constructor ()
      ensures Valid() && View().levels == [Level(0, [], [], [], false, false, false)]
      ensures View().local == map[] == View().global && Inv(View())
    {
      var g := new BindingLevel();
      current, globalLevel, free := g, g, null;
      localValue, globalValue := map[], map[];
      keepNext, keepNextIfSubblocks := false, false;
      active, spare := [g], [];
    }

    /** `lookup_name` */
    method LookupDecl(n: Name) returns (r: Option<Decl>)
      requires Valid()
      ensures r == LookupName(View(), n)
      ensures Inv(View()) ==> r == Search(View().levels, n)
    {
      CurrentIsGlobal();
      if current != globalLevel && n in localValue {
        r := Some(localValue[n]);
      } else {
        r := Find(globalValue, n);
      }
      if Inv(View()) {
        LookupIsSearch(View(), n);
      }
    }

    lemma CurrentIsGlobal()
      requires Valid()
      ensures current == globalLevel <==> AtGlobal(View())
    {
      if |active| > 1 {
        assert globalLevel == active[1..][|active| - 2];
      }
    }

    /** A level from the free list, or a fresh one when the list is empty. */
    method Take() returns (l: BindingLevel)
      requires Valid()
      modifies this`free, this`spare
      ensures Valid() && l !in active && l !in spare && (l in old(spare) || fresh(l))
      ensures forall x :: x in spare ==> x in old(spare)
    {
      if free != null {
        l := free;
        assert spare == [l] + spare[1..];
        free := free.levelChain;
        spare := spare[1..];
      } else {
        l := new BindingLevel();
      }
    }

    /** The new level becomes the current one. */
    method Enter(l: BindingLevel)
      requires Valid() && l !in active && l !in spare
      modifies this`current, this`active, l`levelChain
      ensures Valid() && active == [l] + old(active)
      ensures View() == old(View()).(levels := [old(l.Info())] + old(View().levels))
    {
      l.levelChain := current;
      current := l;
      active := [l] + active;
      assert active[1..] == old(active);
    }

    /** A cleared level with the keep flags asked for. */
    method Prepare(scope: nat) returns (l: BindingLevel)
      requires Valid()
      modifies this`free, this`spare, spare
      ensures Valid() && l !in active && l !in spare && (l in old(spare) || fresh(l)) && View() == old(View())
      ensures active == old(active)
      ensures l.Info() == Level(scope, [], [], [], false, keepNext, keepNextIfSubblocks)
    {
      l := Take();
      l.Clear(scope, keepNext, keepNextIfSubblocks);
    }

    /** `pushlevel` */
    method Push(scope: nat)
      requires Valid()
      modifies this, spare
      ensures Valid() && View() == PushLevel(old(View()), scope) && active[1..] == old(active)
    {
      var newLevel := Prepare(scope);
      Enter(newLevel);
      keepNext := false;
      keepNextIfSubblocks := false;
    }

    /** The scan of one level's names. */
    method FirstNamed(names: seq<Decl>, n: Name) returns (t: Option<Decl>)
      ensures t == FirstOf(names, n)
    {
      var k := 0;
      while k < |names|
        invariant 0 <= k <= |names| && FirstOf(names, n) == FirstOf(names[k..], n)
      {
        if names[k].name == Some(n) {
          return Some(names[k]);
        }
        assert names[k..][1..] == names[k + 1..];
        k := k + 1;
      }
      t := None;
    }

    /** `lookup_name_current_level` and `lookup_name_current_level_global` */
    method PreviousDecl(x: Decl, n: Name) returns (t: Option<Decl>)
      requires Valid()
      ensures t == Previous(View(), x, n)
    {
      CurrentIsGlobal();
      if current == globalLevel {
        return Find(globalValue, n);
      }
      t := None;
      if n in localValue {
        t := FirstNamed(current.names, n);
      }
      if x.linked && t == None {
        t := Find(globalValue, n);
      }
    }

    /** Put a declaration at the front of the current level, with what it displaced. */
    method AddName(x: Decl, displaced: seq<Shadow>)
      requires Valid()
      modifies current`names, current`shadowed
      ensures Valid()
      ensures View() == var s := old(View());
        s.(levels := [s.levels[0].(names := [x] + s.levels[0].names, shadowed := displaced + s.levels[0].shadowed)] + s.levels[1..])
    {
      ghost var outer := active[1..];
      assert active == [current] + outer && current !in outer && current !in spare;
      current.shadowed := displaced + current.shadowed;
      current.names := [x] + current.names;
      hide Linked;
      assert Infos(outer) == old(Infos(outer));
    }

    /** Is the earlier declaration kept instead of the new one? */
    method MergesWith(x: Decl, n: Name, accepted: bool) returns (m: bool)
      requires Valid()
      ensures m == Merges(View(), x, n, accepted)
    {
      var t := PreviousDecl(x, n);
      var v := LookupDecl(n);
      m := t.Some? && accepted && (t.value.parm || !x.linked || v == t);
    }

    /** Install the new declaration, recording a local value that it displaces. */
    method InstallDecl(x: Decl, n: Name)
      requires Valid()
      modifies this`localValue, this`globalValue, current`names, current`shadowed
      ensures Valid() && View() == Install(old(View()), x, n)
    {
      ghost var s := View();
      CurrentIsGlobal();
      var displaced := [];
      if current == globalLevel {
        globalValue := globalValue[n := x];
      } else {
        if n in localValue {
          displaced := [Shadow(n, localValue[n])];
        }
        localValue := localValue[n := x];
      }
      assert Infos(active) == s.levels;
      hide Linked, Infos;
      AddName(x, displaced);
      assert [] + s.levels[0].shadowed == s.levels[0].shadowed;
    }

    /** `pushdecl`; `accepted` is what `duplicate_decls` says about the earlier declaration. */
    method Declare(x: Decl, accepted: bool)
      requires Valid()
      modifies this`localValue, this`globalValue, current`names, current`shadowed
      ensures Valid() && View() == PushDecl(old(View()), x, accepted)
    {
      hide Install, Merges;
      if x.name.Some? {
        var n := x.name.value;
        var merges := MergesWith(x, n, accepted);
        if !merges {
          InstallDecl(x, n);
        }
      } else {
        ghost var s := View();
        AddName(x, []);
        assert [] + s.levels[0].shadowed == s.levels[0].shadowed;
      }
    }

    /** Make the global level the current one; `inner` are the levels inside it. */
    method SwitchToGlobal(ghost inner: seq<BindingLevel>)
      requires Valid() && active == inner + [globalLevel]
      modifies this`current, this`active
      ensures Valid() && active == [globalLevel] && globalLevel !in inner
      ensures View() == old(View()).(levels := [old(View()).levels[|inner|]])
      ensures old(View()).levels == Infos(inner) + View().levels
      ensures Linked(old(current), inner + [globalLevel]) && Disjoint(inner, spare) && current == globalLevel
    {
      LastOfLinked(current, active);
      NoRepeat(current, inner, globalLevel);
      InfosSplit(inner, [globalLevel]);
      OneLevel(globalLevel);
      current := globalLevel;
      active := [globalLevel];
    }

    /** Make `b` the current level again. */
    method SwitchBack(b: BindingLevel, ghost inner: seq<BindingLevel>)
      requires Valid() && active == [globalLevel] && Linked(b, inner + [globalLevel]) && Disjoint(inner, spare)
      modifies this`current, this`active
      ensures Valid() && View() == old(View()).(levels := Infos(inner) + old(View()).levels)
    {
      current := b;
      active := inner + [globalLevel];
      hide Linked;
      InfosSplit(inner, [globalLevel]);
    }

    /** `pushdecl_top_level`: the current level is switched for the call and switched back. */
    method DeclareTop(x: Decl, accepted: bool)
      requires Valid()
      modifies this, globalLevel`names, globalLevel`shadowed
      ensures Valid() && View() == PushDeclTopLevel(old(View()), x, accepted)
    {
      hide Linked, PushDecl, Infos, Disjoint;
      var b := current;
      ghost var inner := active[..|active| - 1];
      assert active == inner + [globalLevel];
      ghost var s := View();
      SwitchToGlobal(inner);
      assert Infos(inner) == s.levels[..|inner|] && |s.levels| == |inner| + 1;
      ghost var t := View();
      Declare(x, accepted);
      assert View() == PushDecl(t, x, accepted);
      SwitchBack(b, inner);
      assert t == s.(levels := [s.levels[|s.levels| - 1]]);
      PushDeclKeeps(t, x, accepted);
    }
  
    /** The names of a level lose their local values. */
    method ClearNames(decls: seq<Decl>)
      modifies this`localValue
      ensures localValue == old(localValue) - Names(decls)
    {
      var k := 0;
      while k < |decls|
        invariant 0 <= k <= |decls| && localValue == old(localValue) - Names(decls[..k])
      {
        assert decls[..k + 1] == decls[..k] + [decls[k]];
        NamesAppend(decls[..k], [decls[k]]);
        assert Names([decls[k]]) == if decls[k].name.Some? then {decls[k].name.value} else {};
        if decls[k].name.Some? {
          localValue := localValue - {decls[k].name.value};
        }
        k := k + 1;
      }
      assert decls[..k] == decls;
    }

    /** The declarations that a level displaced become local values again. */
    method RestoreShadowed(shadowed: seq<Shadow>)
      modifies this`localValue
      ensures localValue == Restore(old(localValue), shadowed)
    {
      var k := 0;
      while k < |shadowed|
        invariant 0 <= k <= |shadowed| && Restore(localValue, shadowed[k..]) == Restore(old(localValue), shadowed)
      {
        assert shadowed[k..][1..] == shadowed[k + 1..];
        localValue := localValue[shadowed[k].name := shadowed[k].decl];
        k := k + 1;
      }
    }

    /** The enclosing level becomes current; the structure left goes in front of the free list. */
    method Leave()
      requires Valid() && |active| > 1
      modifies this`current, this`free, this`active, this`spare, current`levelChain
      ensures Valid() && old(active) == [old(current)] + active && spare == [old(current)] + old(spare)
      ensures View() == old(View()).(levels := old(View()).levels[1..])
    {
      var level := current;
      ghost var outer := active[1..];
      assert active == [level] + outer && level !in outer && level !in spare;
      assert globalLevel == outer[|outer| - 1];
      assert Linked(level.levelChain, outer);
      current := level.levelChain;
      level.levelChain := free;
      free := level;
      active := outer;
      assert ([level] + spare)[1..] == spare;
      spare := [level] + spare;
    }

    method AddBlocks(up: seq<Block>)
      requires Valid()
      modifies current`blocks
      ensures Valid()
      ensures var s := old(View());
        View() == s.(levels := [s.levels[0].(blocks := s.levels[0].blocks + up)] + s.levels[1..])
    {
      ghost var outer := active[1..];
      assert active == [current] + outer && current !in outer;
      current.blocks := current.blocks + up;
      hide Linked;
      assert Infos(outer) == old(Infos(outer));
    }

    /** Clear out the current level's names and bring back what they shadowed. */
    method Unbind(reverse: bool)
      requires Valid()
      modifies this`localValue
      ensures var s := old(View()); var l := s.levels[0];
        Valid() && View() == s.(local := Restore(s.local - Names(l.names), l.shadowed))
    {
      ghost var s := View();
      assert s.levels[0] == current.Info();
      var decls := if reverse then Reverse(current.names) else current.names;
      NamesReversed(current.names);
      hide Linked, Infos, Names, Restore;
      ClearNames(decls);
      RestoreShadowed(current.shadowed);
    }

    /** The block made for the current level, if any, and what its container gets. */
    method MakeBlock(keep: bool, reverse: bool, functionBody: bool) returns (block: Option<Block>, up: seq<Block>)
      ensures up == HandedUp(current.Info(), keep, reverse, functionBody)
      ensures var l := current.Info();
        block == if MakesBlock(l, keep, functionBody) then Some(MadeBlock(l, reverse, functionBody)) else None
    {
      var decls := if reverse then Reverse(current.names) else current.names;
      var subblocks := current.blocks;
      block := None;
      if current.preallocated || keep || current.keep || functionBody || (current.keepIfSubblocks && subblocks != []) {
        block := Some(Block(current.scope, if functionBody then [] else decls, subblocks));
      }
      up := if functionBody then [] else if block.None? then subblocks
            else if current.preallocated then [] else [block.value];
    }

    /** `poplevel`: the mapping of the enclosing level comes back, and the block, if one is made, or
        else the blocks gathered, go to it. */
    method Pop(keep: bool, reverse: bool, functionBody: bool) returns (block: Option<Block>)
      requires Valid() && current != globalLevel
      modifies this, active
      ensures Valid() && View() == PopLevel(old(View()), keep, reverse, functionBody)
      ensures old(active) == [old(current)] + active && spare == [old(current)] + old(spare)
      ensures var l := old(View()).levels[0];
        block == if MakesBlock(l, keep, functionBody) then Some(MadeBlock(l, reverse, functionBody)) else None
    {
      CurrentIsGlobal();
      ghost var s := View();
      assert s.levels[0] == current.Info() && |active| > 1;
      hide Linked, Infos, HandedUp, MakesBlock, MadeBlock, Names, Restore, Disjoint;
      var up;
      block, up := MakeBlock(keep, reverse, functionBody);
      Unbind(reverse);
      Leave();
      AddBlocks(up);
    }
  }

  lemma {:induction false} NamesAppend(a: seq<Decl>, b: seq<Decl>)
    ensures Names(a + b) == Names(a) + Names(b)
  {
    if a == [] {
      assert a + b == b;
    } else {
      assert (a + b)[1..] == a[1..] + b;
      NamesAppend(a[1..], b);
    }
  }

  lemma {:induction false} NamesReversed(a: seq<Decl>)
    ensures Names(Reverse(a)) == Names(a)
  {
    if a != [] {
      NamesReversed(a[1..]);
      NamesAppend(Reverse(a[1..]), [a[0]]);
      assert a == [a[0]] + a[1..];
      NamesAppend([a[0]], a[1..]);
    }
  }

  lemma PushDeclKeeps(s: State, x: Decl, accepted: bool)
    requires |s.levels| == 1
    ensures var t := PushDecl(s, x, accepted);
      t.local == s.local && t.keepNext == s.keepNext && t.keepNextIfSubblocks == s.keepNextIfSubblocks
  {
  }

  lemma OneLevel(l: BindingLevel)
    ensures Infos([l]) == [l.Info()] && (l.levelChain == null ==> Linked(l, [l]))
  {
    assert [l][1..] == [];
    assert Linked(null, []);
  }

  lemma {:induction false} NoRepeat(first: BindingLevel?, a: seq<BindingLevel>, x: BindingLevel)
    requires Linked(first, a + [x])
    ensures x !in a
  {
    if a != [] {
      assert (a + [x])[1..] == a[1..] + [x];
      NoRepeat(a[0].levelChain, a[1..], x);
    }
  }
}
