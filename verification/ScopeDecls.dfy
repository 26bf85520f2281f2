/**
 When `pushdecl` declares, said of the levels and their names: what it finds declared already, and what
 is visible afterwards.
 */
module ScopeDecls {
  import opened Helpers
  import opened Scopes
  import opened ScopeRuns

  /** Some declaration at the level has the name. */
  ghost predicate Declares(l: Level, n: Name) {
    exists d :: d in l.names && d.name == Some(n)
  }

  /** `d` is the newest declaration of the name at the level. */
  ghost predicate Newest(l: Level, n: Name, d: Decl) {
    exists i :: 0 <= i < |l.names| && l.names[i] == d && d.name == Some(n) && forall j :: 0 <= j < i ==> l.names[j].name != Some(n)
  }

  /** The declaration is new: it stands in front of the names of the innermost level, it is what its name
      means from now on, and nothing else changes. */
  ghost predicate Installed(s: State, x: Decl, n: Name, t: State) {
    && |t.levels| == |s.levels| > 0 && t.levels[1..] == s.levels[1..]
    && t.levels[0].names == [x] + s.levels[0].names
    && t.levels[0].blocks == s.levels[0].blocks && SameFrame(s.levels[0], t.levels[0])
    && t.keepNext == s.keepNext && t.keepNextIfSubblocks == s.keepNextIfSubblocks
    && forall m :: LookupName(t, m) == if m == n then Some(x) else LookupName(s, m)
  }

  // ---------------------------------------------------------------- what is found

  lemma {:induction false} FirstMeans(names: seq<Decl>, n: Name)
    ensures match FirstOf(names, n)
      case None => forall d :: d in names ==> d.name != Some(n)
      case Some(d) => exists i :: 0 <= i < |names| && names[i] == d && d.name == Some(n)
                                  && forall j :: 0 <= j < i ==> names[j].name != Some(n)
  {
    if names != [] && names[0].name != Some(n) {
      FirstMeans(names[1..], n);
      if FirstOf(names[1..], n).Some? {
        var i :| 0 <= i < |names[1..]| && names[1..][i] == FirstOf(names[1..], n).value
                 && forall j :: 0 <= j < i ==> names[1..][j].name != Some(n);
        assert names[i + 1] == names[1..][i];
        forall j | 0 <= j < i + 1
          ensures names[j].name != Some(n)
        {
          if j > 0 {
            assert names[j] == names[1..][j - 1];
          }
        }
      }
    }
  }

  lemma FirstIsNewest(l: Level, n: Name)
    ensures FirstOf(l.names, n).Some? <==> Declares(l, n)
    ensures forall d :: FirstOf(l.names, n) == Some(d) <==> Newest(l, n, d)
  {
    FirstMeans(l.names, n);
  }

  /** What the innermost level declares is what the name means. */
  lemma HereIsVisible(s: State, n: Name)
    requires Inv(s) && Declares(s.levels[0], n)
    ensures LookupName(s, n) == FirstOf(s.levels[0].names, n) && (AtGlobal(s) || n in s.local)
  {
    FirstIsNewest(s.levels[0], n);
    LookupIsSearch(s, n);
    if !AtGlobal(s) {
      BoundFinds(s.levels[0].names, LocalOf(s.levels[1..]), n);
    }
  }

  lemma GlobalIsLast(s: State, n: Name)
    requires Inv(s)
    ensures Find(s.global, n) == FirstOf(s.levels[|s.levels| - 1].names, n)
  {
    BoundFinds(s.levels[|s.levels| - 1].names, map[], n);
    hide Bound, LocalOf, ShadowsOk;
  }

  lemma CurrentMeans(s: State, n: Name)
    requires Inv(s)
    ensures LookupCurrent(s, n) == FirstOf(s.levels[0].names, n)
    ensures LookupCurrentGlobal(s, n) ==
      if Declares(s.levels[0], n) then FirstOf(s.levels[0].names, n) else FirstOf(s.levels[|s.levels| - 1].names, n)
  {
    GlobalIsLast(s, n);
    FirstIsNewest(s.levels[0], n);
    if Declares(s.levels[0], n) {
      HereIsVisible(s, n);
    }
    hide Inv, FirstOf;
  }

  // ---------------------------------------------------------------- what is declared

  lemma InstallMeans(s: State, x: Decl, n: Name)
    requires Inv(s) && x.name == Some(n)
    ensures Installed(s, x, n, Install(s, x, n))
  {
    var t := Install(s, x, n);
    forall m
      ensures LookupName(t, m) == if m == n then Some(x) else LookupName(s, m)
    {
    }
    hide LookupName, Inv;
  }

  /** A declaration that is not an external one replaces nothing but an accepted redeclaration at its own
      level. */
  lemma DeclaresUnlinked(s: State, x: Decl, n: Name, accepted: bool)
    requires Inv(s) && x.name == Some(n) && !x.linked
    ensures var t := PushDecl(s, x, accepted);
      if accepted && Declares(s.levels[0], n)
      then t == s && exists d :: Newest(s.levels[0], n, d) && LookupName(s, n) == Some(d)
      else Installed(s, x, n, t)
  {
    CurrentMeans(s, n);
    InstallMeans(s, x, n);
    FirstIsNewest(s.levels[0], n);
    hide Inv, Install, Installed, LookupCurrent, LookupCurrentGlobal, FirstOf, LookupName;
    if Declares(s.levels[0], n) {
      HereIsVisible(s, n);
      assert FirstOf(s.levels[0].names, n).Some?;
    }
  }

  /** An external one is also compared with the global declaration of its name, if its level has none; an
      accepted one is still declared if something else hides the global one. */
  lemma DeclaresLinked(s: State, x: Decl, n: Name, accepted: bool)
    requires Inv(s) && x.name == Some(n) && x.linked
    ensures var t := PushDecl(s, x, accepted);
      var global := FirstOf(s.levels[|s.levels| - 1].names, n);
      if accepted && Declares(s.levels[0], n)
      then t == s && exists d :: Newest(s.levels[0], n, d) && LookupName(s, n) == Some(d)
      else if accepted && global.Some? && (global.value.parm || Search(s.levels, n) == global) then t == s
      else Installed(s, x, n, t)
  {
    CurrentMeans(s, n);
    InstallMeans(s, x, n);
    FirstIsNewest(s.levels[0], n);
    LookupIsSearch(s, n);
    hide Inv, Install, Installed, LookupCurrent, LookupCurrentGlobal, FirstOf, LookupName, Search;
    if Declares(s.levels[0], n) {
      HereIsVisible(s, n);
      assert FirstOf(s.levels[0].names, n).Some?;
    }
  }

  /** Some level between the innermost and the global one declares the name. */
  ghost predicate Hidden(s: State, n: Name) {
    exists k :: 0 < k < |s.levels| - 1 && Declares(s.levels[k], n)
  }

  /** No declaration stands at two levels. */
  ghost predicate OneLevelEach(s: State) {
    forall j, k, d :: 0 <= j < k < |s.levels| && d in s.levels[j].names ==> d !in s.levels[k].names
  }

  lemma {:induction false} SearchGlobal(levels: seq<Level>, n: Name)
    requires levels != []
    ensures (forall k :: 0 <= k < |levels| - 1 ==> !Declares(levels[k], n)) ==>
            Search(levels, n) == FirstOf(levels[|levels| - 1].names, n)
    ensures (exists k :: 0 <= k < |levels| - 1 && Declares(levels[k], n)) ==>
            exists k, d :: 0 <= k < |levels| - 1 && d in levels[k].names && Search(levels, n) == Some(d)
  {
    FirstIsNewest(levels[0], n);
    if |levels| > 1 {
      SearchGlobal(levels[1..], n);
      assert forall k :: 0 <= k < |levels[1..]| ==> levels[1..][k] == levels[k + 1];
      if FirstOf(levels[0].names, n).None? && exists k :: 0 <= k < |levels| - 1 && Declares(levels[k], n) {
        var k :| 0 <= k < |levels| - 1 && Declares(levels[k], n);
        assert k > 0 && Declares(levels[1..][k - 1], n);
        var i, d :| 0 <= i < |levels[1..]| - 1 && d in levels[1..][i].names && Search(levels[1..], n) == Some(d);
        assert d in levels[i + 1].names;
      }
    } else {
      assert levels[1..] == [] && Search([], n) == None;
    }
  }

  /** So an accepted external declaration in an inner block that does not declare its name itself is left
      out if nothing hides the global one, and declared if an outer block does. */
  lemma DeclaresHidden(s: State, x: Decl, n: Name)
    requires Inv(s) && x.name == Some(n) && x.linked && !AtGlobal(s) && OneLevelEach(s) && !Declares(s.levels[0], n)
    requires var global := FirstOf(s.levels[|s.levels| - 1].names, n); global.Some? && !global.value.parm
    ensures var t := PushDecl(s, x, true); if Hidden(s, n) then Installed(s, x, n, t) else t == s
  {
    DeclaresLinked(s, x, n, true);
    SearchGlobal(s.levels, n);
    FirstMeans(s.levels[|s.levels| - 1].names, n);
    hide Inv, PushDecl, Installed, FirstOf, Search;
  }

  /** A declaration without a name is added and changes no meaning. */
  lemma DeclaresUnnamed(s: State, x: Decl, accepted: bool)
    requires Inv(s) && x.name == None
    ensures var t := PushDecl(s, x, accepted);
      && |t.levels| == |s.levels| && t.levels[0].names == [x] + s.levels[0].names && t.levels[1..] == s.levels[1..]
      && forall m :: LookupName(t, m) == LookupName(s, m)
  {
  }

  /** At the top level the global level gets the declaration, unless it is an accepted redeclaration there;
      the other levels stay. */
  lemma DeclaresTop(s: State, x: Decl, n: Name, accepted: bool)
    requires Inv(s) && x.name == Some(n)
    ensures var t := PushDeclTopLevel(s, x, accepted);
      var last := |s.levels| - 1;
      && |t.levels| == |s.levels| && t.levels[..last] == s.levels[..last] && t.local == s.local
      && t.levels[last].names == (if accepted && Declares(s.levels[last], n) then [] else [x]) + s.levels[last].names
  {
    var last := |s.levels| - 1;
    var s1 := s.(levels := [s.levels[last]]);
    GlobalIsLast(s, n);
    FirstIsNewest(s.levels[last], n);
    hide Inv, FirstOf, Bound, LocalOf;
    assert AtGlobal(s1);
  }

  // ---------------------------------------------------------------- runs

  /** What the lemmas above say of one declaration. */
  ghost predicate DeclaredRightly(s: State, x: Decl, accepted: bool, t: State)
    requires s.levels != []
  {
    match x.name
    case None =>
      && |t.levels| == |s.levels| && t.levels[0].names == [x] + s.levels[0].names && t.levels[1..] == s.levels[1..]
      && forall m :: LookupName(t, m) == LookupName(s, m)
    case Some(n) =>
      var global := FirstOf(s.levels[|s.levels| - 1].names, n);
      if accepted && Declares(s.levels[0], n) then t == s
      else if accepted && x.linked && global.Some? && (global.value.parm || Search(s.levels, n) == global) then t == s
      else Installed(s, x, n, t)
  }

  lemma DeclarationIsRight(s: State, x: Decl, accepted: bool)
    requires Inv(s)
    ensures DeclaredRightly(s, x, accepted, PushDecl(s, x, accepted))
  {
    hide Inv, PushDecl, Installed;
    match x.name
    case None => DeclaresUnnamed(s, x, accepted);
    case Some(n) => if x.linked { DeclaresLinked(s, x, n, accepted); } else { DeclaresUnlinked(s, x, n, accepted); }
  }

  lemma {:induction false} LegalPrefix(s: State, events: seq<Event>, k: nat)
    requires AllLegal(s, events) && k <= |events|
    ensures AllLegal(s, events[..k])
    decreases k
  {
    hide Legal, Step;
    if k > 0 {
      LegalPrefix(Step(s, events[0]), events[1..], k - 1);
      assert events[..k][1..] == events[1..][..k - 1];
    }
  }

  /** In every legal run each declaration is made exactly as the levels at that time demand. */
  lemma RunDeclares(s: State, events: seq<Event>, k: nat)
    requires Inv(s) && AllLegal(s, events) && k < |events| && events[k].Declare?
    ensures Run(s, events[..k]).levels != []
    ensures DeclaredRightly(Run(s, events[..k]), events[k].x, events[k].accepted, Run(s, events[..k + 1]))
  {
    LegalPrefix(s, events, k);
    RunInv(s, events[..k]);
    var a := Run(s, events[..k]);
    assert a.levels != [];
    assert events[..k + 1] == events[..k] + [events[k]];
    RunAppend(s, events[..k], [events[k]]);
    RunOne(a, events[k]);
    assert Step(a, events[k]) == PushDecl(a, events[k].x, events[k].accepted);
    hide Inv, PushDecl, Step, Run, AllLegal, DeclaredRightly;
    DeclarationIsRight(a, events[k].x, events[k].accepted);
  }
}
