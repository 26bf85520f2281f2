/**
 Scopes of names by shallow binding (m3cc/gcc/c-decl.c: `pushlevel`, `pushdecl`, `poplevel`,
 `lookup_name`).

 Each identifier has one IDENTIFIER_LOCAL_VALUE; a level remembers in `shadowed` the local values
 that its declarations displaced.  The functions below give the operations on the chain of levels,
 innermost first; the last level is the global one.
 */
module Scopes {
  import opened Helpers

  type Name = nat

  /** A ..._DECL node.  `linked` stands for DECL_EXTERNAL and TREE_PUBLIC together. */
  datatype Decl = Decl(uid: nat, name: Option<Name>, linked: bool, parm: bool)

  datatype Shadow = Shadow(name: Name, decl: Decl)

  /** A BLOCK node for the scope labelled `scope`. */
  datatype Block = Block(scope: nat, vars: seq<Decl>, subblocks: seq<Block>)

  /** `struct binding_level`, without the parts that concern tags. */
  datatype Level = Level(scope: nat, names: seq<Decl>, shadowed: seq<Shadow>, blocks: seq<Block>,
                         preallocated: bool, keep: bool, keepIfSubblocks: bool)

  datatype State = State(levels: seq<Level>, local: map<Name, Decl>, global: map<Name, Decl>,
                         keepNext: bool, keepNextIfSubblocks: bool)

  function Find(m: map<Name, Decl>, n: Name): Option<Decl> {
    if n in m then Some(m[n]) else None
  }

  /** `global_bindings_p` */
  predicate AtGlobal(s: State) { |s.levels| <= 1 }

  // ---------------------------------------------------------------- lookups

  function LookupName(s: State, n: Name): Option<Decl> {
    if !AtGlobal(s) && n in s.local then Some(s.local[n]) else Find(s.global, n)
  }

  /** The first declaration of `n` in a chain of names. */
  function FirstOf(names: seq<Decl>, n: Name): Option<Decl> {
    if names == [] then None else if names[0].name == Some(n) then Some(names[0]) else FirstOf(names[1..], n)
  }

  /** `lookup_name_current_level` */
  function LookupCurrent(s: State, n: Name): Option<Decl> {
    if AtGlobal(s) then Find(s.global, n)
    else if n !in s.local then None
    else FirstOf(s.levels[0].names, n)
  }

  /** `lookup_name_current_level_global` */
  function LookupCurrentGlobal(s: State, n: Name): Option<Decl> {
    if AtGlobal(s) then Find(s.global, n)
    else
      var t := if n in s.local then FirstOf(s.levels[0].names, n) else None;
      if t.Some? then t else Find(s.global, n)
  }

  /** The rule of scope itself: search the levels from the innermost out. */
  function Search(levels: seq<Level>, n: Name): Option<Decl> {
    if levels == [] then None
    else
      var t := FirstOf(levels[0].names, n);
      if t.Some? then t else Search(levels[1..], n)
  }

  // ---------------------------------------------------------------- operations

  function PushLevel(s: State, scope: nat): State {
    s.(levels := [Level(scope, [], [], [], false, s.keepNext, s.keepNextIfSubblocks)] + s.levels,
       keepNext := false, keepNextIfSubblocks := false)
  }

  /** The earlier declaration that `pushdecl` compares the new one with. */
  function Previous(s: State, x: Decl, n: Name): Option<Decl> {
    if x.linked then LookupCurrentGlobal(s, n) else LookupCurrent(s, n)
  }

  /** Does `pushdecl` return the earlier declaration?  `accepted` is the result of `duplicate_decls`. */
  predicate Merges(s: State, x: Decl, n: Name, accepted: bool) {
    var t := Previous(s, x, n);
    t.Some? && accepted && (t.value.parm || !x.linked || LookupName(s, n) == t)
  }

  /** Bind `n` to `x` at the current level. */
  function Install(s: State, x: Decl, n: Name): State
    requires s.levels != []
  {
    var l := s.levels[0];
    if AtGlobal(s) then
      s.(levels := [l.(names := [x] + l.names)] + s.levels[1..], global := s.global[n := x])
    else
      var shadowed := if n in s.local then [Shadow(n, s.local[n])] + l.shadowed else l.shadowed;
      s.(levels := [l.(names := [x] + l.names, shadowed := shadowed)] + s.levels[1..], local := s.local[n := x])
  }

  function PushDecl(s: State, x: Decl, accepted: bool): State
    requires s.levels != []
  {
    match x.name
    case None => s.(levels := [s.levels[0].(names := [x] + s.levels[0].names)] + s.levels[1..])
    case Some(n) => if Merges(s, x, n, accepted) then s else Install(s, x, n)
  }

  /** `pushdecl_top_level`: the current level is the global one for the duration of the call. */
  function PushDeclTopLevel(s: State, x: Decl, accepted: bool): State
    requires s.levels != []
  {
    var last := |s.levels| - 1;
    var t := PushDecl(s.(levels := [s.levels[last]]), x, accepted);
    s.(levels := s.levels[..last] + t.levels, global := t.global)
  }

  function Names(decls: seq<Decl>): set<Name> {
    if decls == [] then {} else (if decls[0].name.Some? then {decls[0].name.value} else {}) + Names(decls[1..])
  }

  /** The restoring loop of `poplevel`. */
  function Restore(m: map<Name, Decl>, shadowed: seq<Shadow>): map<Name, Decl>
    decreases |shadowed|
  {
    if shadowed == [] then m else Restore(m[shadowed[0].name := shadowed[0].decl], shadowed[1..])
  }

  /** Is a BLOCK made for level `l`? */
  predicate MakesBlock(l: Level, keep: bool, functionBody: bool) {
    l.preallocated || keep || l.keep || functionBody || (l.keepIfSubblocks && l.blocks != [])
  }

  function MadeBlock(l: Level, reverse: bool, functionBody: bool): Block {
    Block(l.scope, if functionBody then [] else if reverse then Reverse(l.names) else l.names, l.blocks)
  }

  /** Leaving a level that keeps its block adds the block behind those of the enclosing level: with the
      names of the level, newest first or in the order of declaration, and with the blocks gathered
      in it.  The block of a function body has no names of its own. */
  lemma PoppedBlock(s: State, keep: bool, reverse: bool, functionBody: bool)
    requires !AtGlobal(s)
    ensures var l, at := s.levels[0], |s.levels[1].blocks|; var t := PopLevel(s, keep, reverse, functionBody);
      MakesBlock(l, keep, functionBody) && !l.preallocated && !functionBody ==>
        && |t.levels[0].blocks| == at + 1 && t.levels[0].blocks[..at] == s.levels[1].blocks
        && t.levels[0].blocks[at].scope == l.scope && t.levels[0].blocks[at].subblocks == l.blocks
        && |t.levels[0].blocks[at].vars| == |l.names|
        && forall i :: 0 <= i < |l.names| ==>
             t.levels[0].blocks[at].vars[i] == l.names[if reverse then |l.names| - 1 - i else i]
    ensures MadeBlock(s.levels[0], reverse, true) == Block(s.levels[0].scope, [], s.levels[0].blocks)
  {
    hide MakesBlock, Restore, Names;
    var l := s.levels[0];
    forall i | 0 <= i < |l.names|
      ensures Reverse(l.names)[i] == l.names[|l.names| - 1 - i]
    {
      ReverseAt(l.names, i);
    }
  }

  /** The blocks handed to the enclosing level. */
  function HandedUp(l: Level, keep: bool, reverse: bool, functionBody: bool): seq<Block> {
    if functionBody then []
    else if MakesBlock(l, keep, functionBody) then
      if l.preallocated then [] else [MadeBlock(l, reverse, functionBody)]
    else l.blocks
  }

  function PopLevel(s: State, keep: bool, reverse: bool, functionBody: bool): State
    requires !AtGlobal(s)
  {
    var l, outer := s.levels[0], s.levels[1];
    s.(levels := [outer.(blocks := outer.blocks + HandedUp(l, keep, reverse, functionBody))] + s.levels[2..],
       local := Restore(s.local - Names(l.names), l.shadowed))
  }

  // ---------------------------------------------------------------- the invariant

  /** The local values once `names` (newest first) have been declared over `outer`. */
  function Bound(names: seq<Decl>, outer: map<Name, Decl>): map<Name, Decl> {
    if names == [] then outer
    else
      var m := Bound(names[1..], outer);
      if names[0].name.Some? then m[names[0].name.value := names[0]] else m
  }

  /** The shadow list of those declarations. */
  function Displaced(names: seq<Decl>, outer: map<Name, Decl>): seq<Shadow> {
    if names == [] then []
    else
      var rest, m := Displaced(names[1..], outer), Bound(names[1..], outer);
      match names[0].name
      case None => rest
      case Some(n) => if n in m then [Shadow(n, m[n])] + rest else rest
  }

  /** The local values that a chain of levels amounts to. */
  function LocalOf(levels: seq<Level>): map<Name, Decl> {
    if |levels| <= 1 then map[] else Bound(levels[0].names, LocalOf(levels[1..]))
  }

  ghost predicate ShadowsOk(levels: seq<Level>) {
    |levels| <= 1 ||
    (levels[0].shadowed == Displaced(levels[0].names, LocalOf(levels[1..])) && ShadowsOk(levels[1..]))
  }

  ghost predicate Inv(s: State) {
    && s.levels != []
    && s.local == LocalOf(s.levels)
    && ShadowsOk(s.levels)
    && s.global == Bound(s.levels[|s.levels| - 1].names, map[])
  }

  // ---------------------------------------------------------------- lookups agree with the search

  lemma {:induction false} BoundFinds(names: seq<Decl>, outer: map<Name, Decl>, n: Name)
    ensures Find(Bound(names, outer), n) == if FirstOf(names, n).Some? then FirstOf(names, n) else Find(outer, n)
  {
    if names != [] {
      BoundFinds(names[1..], outer, n);
    }
  }

  lemma {:induction false} LocalSearch(levels: seq<Level>, n: Name)
    requires levels != []
    ensures Search(levels, n) ==
            if Find(LocalOf(levels), n).Some? then Find(LocalOf(levels), n)
            else FirstOf(levels[|levels| - 1].names, n)
  {
    if |levels| > 1 {
      LocalSearch(levels[1..], n);
      BoundFinds(levels[0].names, LocalOf(levels[1..]), n);
      hide Bound, LocalOf;
    } else {
      assert levels[1..] == [];
    }
  }

  /** `lookup_name` is the innermost-to-outermost search of the level chain. */
  lemma LookupIsSearch(s: State, n: Name)
    requires Inv(s)
    ensures LookupName(s, n) == Search(s.levels, n)
  {
    LocalSearch(s.levels, n);
    BoundFinds(s.levels[|s.levels| - 1].names, map[], n);
    hide LocalOf, Search, Bound;
  }

  /** Some level other than the global one declares `n`. */
  predicate DeclaredLocally(levels: seq<Level>, n: Name) {
    |levels| > 1 && (FirstOf(levels[0].names, n).Some? || DeclaredLocally(levels[1..], n))
  }

  lemma {:induction false} ZeroSlot(levels: seq<Level>, n: Name)
    ensures n in LocalOf(levels) <==> DeclaredLocally(levels, n)
  {
    if |levels| > 1 {
      ZeroSlot(levels[1..], n);
      BoundFinds(levels[0].names, LocalOf(levels[1..]), n);
    }
  }

  /** A zero local slot means that no active level other than the global one declares the name. */
  lemma ZeroSlotMeansUndeclared(s: State, n: Name)
    requires Inv(s)
    ensures n !in s.local <==> !DeclaredLocally(s.levels, n)
  {
    ZeroSlot(s.levels, n);
  }

  // ---------------------------------------------------------------- declaring keeps the invariant

  lemma PushLevelInv(s: State, scope: nat)
    requires Inv(s)
    ensures Inv(PushLevel(s, scope)) && PushLevel(s, scope).local == s.local
  {
    assert PushLevel(s, scope).levels[1..] == s.levels;
  }

  /** One declaration more at the front of a level. */
  lemma LocalGrows(levels: seq<Level>, x: Decl, n: Name, shadowed: seq<Shadow>)
    requires |levels| > 1 && x.name == Some(n) && ShadowsOk(levels)
    requires shadowed == if n in LocalOf(levels) then [Shadow(n, LocalOf(levels)[n])] + levels[0].shadowed
                         else levels[0].shadowed
    ensures var ls := [levels[0].(names := [x] + levels[0].names, shadowed := shadowed)] + levels[1..];
      LocalOf(ls) == LocalOf(levels)[n := x] && ShadowsOk(ls)
  {
    var names := [x] + levels[0].names;
    var ls := [levels[0].(names := names, shadowed := shadowed)] + levels[1..];
    assert ls[1..] == levels[1..] && names[1..] == levels[0].names;
    var outer := LocalOf(levels[1..]);
    assert Bound(names, outer) == Bound(levels[0].names, outer)[n := x];
    assert Displaced(names, outer) == shadowed;
  }

  lemma InstallInv(s: State, x: Decl, n: Name)
    requires Inv(s) && x.name == Some(n)
    ensures Inv(Install(s, x, n))
  {
    var t := Install(s, x, n);
    if AtGlobal(s) {
      assert t.levels[1..] == s.levels[1..];
      assert t.levels[0].names[1..] == s.levels[0].names;
    } else {
      LocalGrows(s.levels, x, n, t.levels[0].shadowed);
      assert t.levels[|t.levels| - 1] == s.levels[|s.levels| - 1];
      hide LocalOf, ShadowsOk, Bound, Displaced;
    }
  }

  lemma PushDeclInv(s: State, x: Decl, accepted: bool)
    requires Inv(s)
    ensures Inv(PushDecl(s, x, accepted))
  {
    match x.name
    case Some(n) => InstallInv(s, x, n);
    case None =>
      var t := PushDecl(s, x, accepted);
      assert t.levels[1..] == s.levels[1..];
      assert t.levels[0].names[1..] == s.levels[0].names;
  }

  lemma {:induction false} GlobalLevelIgnored(levels: seq<Level>, g: Level)
    requires levels != []
    ensures var ls := levels[..|levels| - 1] + [g];
      LocalOf(ls) == LocalOf(levels) && (ShadowsOk(ls) <==> ShadowsOk(levels))
  {
    if |levels| > 1 {
      GlobalLevelIgnored(levels[1..], g);
      assert (levels[..|levels| - 1] + [g])[1..] == levels[1..][..|levels| - 2] + [g];
    }
  }

  /** At the global level the local values play no part. */
  lemma GlobalIgnoresLocal(s: State, x: Decl, accepted: bool)
    requires |s.levels| == 1
    ensures var t, t0 := PushDecl(s, x, accepted), PushDecl(s.(local := map[]), x, accepted);
      t.levels == t0.levels && t.global == t0.global && |t.levels| == 1 && t.local == s.local
  {
    hide FirstOf;
    match x.name
    case None =>
    case Some(n) =>
      assert Merges(s, x, n, accepted) == Merges(s.(local := map[]), x, n, accepted);
      hide Merges;
  }

  lemma PushDeclTopLevelInv(s: State, x: Decl, accepted: bool)
    requires Inv(s)
    ensures Inv(PushDeclTopLevel(s, x, accepted)) && PushDeclTopLevel(s, x, accepted).local == s.local
  {
    var last := |s.levels| - 1;
    var s1 := s.(levels := [s.levels[last]]);
    assert Inv(s1.(local := map[]));
    PushDeclInv(s1.(local := map[]), x, accepted);
    GlobalIgnoresLocal(s1, x, accepted);
    var t := PushDecl(s1, x, accepted);
    hide PushDecl;
    assert t.levels == [t.levels[0]];
    GlobalLevelIgnored(s.levels, t.levels[0]);
    hide LocalOf, ShadowsOk, Bound;
  }

  // ---------------------------------------------------------------- leaving a level

  function Count(names: seq<Decl>, n: Name): nat {
    if names == [] then 0 else (if names[0].name == Some(n) then 1 else 0) + Count(names[1..], n)
  }

  /** The last entry for `n` in the shadow list: the one that decides what is restored. */
  function LastShadow(names: seq<Decl>, outer: map<Name, Decl>, n: Name): Option<Decl> {
    if names == [] then None
    else
      var r := LastShadow(names[1..], outer, n);
      if r.Some? then r
      else if names[0].name == Some(n) then Find(Bound(names[1..], outer), n) else None
  }

  lemma {:induction false} RestoreFinds(m: map<Name, Decl>, names: seq<Decl>, outer: map<Name, Decl>, n: Name)
    ensures Find(Restore(m, Displaced(names, outer)), n) ==
            if LastShadow(names, outer, n).Some? then LastShadow(names, outer, n) else Find(m, n)
    decreases names
  {
    if names != [] {
      var rest, b := Displaced(names[1..], outer), Bound(names[1..], outer);
      if names[0].name.Some? && names[0].name.value in b {
        var k := names[0].name.value;
        var all := Displaced(names, outer);
        assert all[0] == Shadow(k, b[k]) && all[1..] == rest;
        RestoreFinds(m[k := b[k]], names[1..], outer, n);
      } else {
        RestoreFinds(m, names[1..], outer, n);
      }
    }
  }

  /** A name with an outer local value gets that value back; one without is left with the oldest of
      two or more declarations at this level. */
  lemma {:induction false} LastShadowIs(names: seq<Decl>, outer: map<Name, Decl>, n: Name)
    ensures Count(names, n) == 0 ==> LastShadow(names, outer, n) == None && FirstOf(names, n) == None
    ensures Count(names, n) >= 1 && n in outer ==> LastShadow(names, outer, n) == Some(outer[n])
    ensures Count(names, n) == 1 && n !in outer ==> LastShadow(names, outer, n) == None
    ensures Count(names, n) >= 2 && n !in outer ==> LastShadow(names, outer, n).Some?
  {
    if names != [] {
      LastShadowIs(names[1..], outer, n);
      BoundFinds(names[1..], outer, n);
      if Count(names[1..], n) >= 1 {
        DeclaredFirst(names[1..], n);
      }
      hide Bound;
    }
  }

  lemma {:induction false} DeclaredFirst(names: seq<Decl>, n: Name)
    ensures Count(names, n) >= 1 <==> FirstOf(names, n).Some?
    ensures Count(names, n) >= 1 <==> n in Names(names)
  {
    if names != [] {
      DeclaredFirst(names[1..], n);
    }
  }

  /** Every name declared more than once at the level (after a rejected redeclaration) also had a local
      value outside it. */
  ghost predicate RedeclaresOnlyShadowed(names: seq<Decl>, outer: map<Name, Decl>) {
    forall n :: Count(names, n) >= 2 ==> n in outer
  }

  lemma PopFinds(names: seq<Decl>, outer: map<Name, Decl>, n: Name)
    ensures var m := Restore(Bound(names, outer) - Names(names), Displaced(names, outer));
      if Count(names, n) >= 2 && n !in outer then n in m else Find(m, n) == Find(outer, n)
  {
    RestoreFinds(Bound(names, outer) - Names(names), names, outer, n);
    LastShadowIs(names, outer, n);
    BoundFinds(names, outer, n);
    DeclaredFirst(names, n);
    hide Bound, LastShadow, Displaced, Restore, Count, FirstOf;
  }

  lemma SameFinds(a: map<Name, Decl>, b: map<Name, Decl>)
    requires forall n :: Find(a, n) == Find(b, n)
    ensures a == b
  {
    forall n
      ensures n in a <==> n in b
      ensures n in a && n in b ==> a[n] == b[n]
    {
      assert Find(a, n) == Find(b, n);
    }
  }

  /** `poplevel` restores the local mapping of the enclosing level exactly when every name declared
      more than once at the level was shadowing an outer local declaration. */
  lemma PopRestoresExactly(s: State, keep: bool, reverse: bool, functionBody: bool)
    requires Inv(s) && !AtGlobal(s)
    ensures PopLevel(s, keep, reverse, functionBody).local == LocalOf(s.levels[1..]) <==>
            RedeclaresOnlyShadowed(s.levels[0].names, LocalOf(s.levels[1..]))
  {
    var names, outer := s.levels[0].names, LocalOf(s.levels[1..]);
    var m := Restore(s.local - Names(names), s.levels[0].shadowed);
    assert m == Restore(Bound(names, outer) - Names(names), Displaced(names, outer));
    hide LocalOf, Restore, Bound, Displaced, Names, Count, ShadowsOk;
    if RedeclaresOnlyShadowed(names, outer) {
      forall n
        ensures Find(m, n) == Find(outer, n)
      {
        PopFinds(names, outer, n);
      }
      SameFinds(m, outer);
    } else {
      var n :| Count(names, n) >= 2 && n !in outer;
      PopFinds(names, outer, n);
    }
  }

  lemma PopLevelInv(s: State, keep: bool, reverse: bool, functionBody: bool)
    requires Inv(s) && !AtGlobal(s)
    ensures Inv(PopLevel(s, keep, reverse, functionBody)) <==>
            RedeclaresOnlyShadowed(s.levels[0].names, LocalOf(s.levels[1..]))
  {
    PopRestoresExactly(s, keep, reverse, functionBody);
    var t := PopLevel(s, keep, reverse, functionBody);
    SameNamesSameLocal(s.levels[1..], t.levels);
    assert t.levels[|t.levels| - 1].names == s.levels[|s.levels| - 1].names;
    hide RedeclaresOnlyShadowed, LocalOf, Bound, PopLevel;
  }

  /** The blocks of a level do not matter to the names. */
  lemma SameNamesSameLocal(ls: seq<Level>, ms: seq<Level>)
    requires |ls| == |ms| > 0 && ls[1..] == ms[1..]
    requires ls[0].names == ms[0].names && ls[0].shadowed == ms[0].shadowed
    ensures LocalOf(ls) == LocalOf(ms) && ShadowsOk(ls) == ShadowsOk(ms)
  {
  }

  /** Names distinct within each level: the case of a program without rejected redeclarations. */
  lemma DistinctIsFine(names: seq<Decl>, outer: map<Name, Decl>)
    requires forall n :: Count(names, n) <= 1
    ensures RedeclaresOnlyShadowed(names, outer)
  {
  }

  /** The smallest failure: two declarations of name 0 in one block, the second one rejected by
      `duplicate_decls`.  The first is still the local value of the name after the block. */
  lemma StaleLocalValue() returns (s: State, t: State)
    ensures Inv(s) && !AtGlobal(s) && s.local == map[]
    ensures var x, y := Decl(1, Some(0), false, false), Decl(2, Some(0), false, false);
      t == PopLevel(PushDecl(PushDecl(s, x, false), y, false), false, true, false) && Find(t.local, 0) == Some(x)
  {
    var level := Level(0, [], [], [], false, false, false);
    s := State([level, level], map[], map[], false, false);
    var x, y := Decl(1, Some(0), false, false), Decl(2, Some(0), false, false);
    var s1 := PushDecl(s, x, false);
    assert s1.levels[0].names == [x] && s1.levels[0].shadowed == [] && s1.local == map[0 := x];
    var s2 := PushDecl(s1, y, false);
    assert s2.levels[0].names == [y, x] && s2.levels[0].shadowed == [Shadow(0, x)] && s2.local == map[0 := y];
    assert Names([y, x]) == {0} by { assert Names([x]) == {0}; }
    t := PopLevel(s2, false, true, false);
    var cleared: map<Name, Decl> := map[];
    assert s2.local - Names([y, x]) == cleared;
    assert Restore(cleared[0 := x], []) == map[0 := x];
    assert Restore(cleared, [Shadow(0, x)]) == map[0 := x];
  }
}
