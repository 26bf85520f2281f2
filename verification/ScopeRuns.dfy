/** Runs of scope operations: what whole programs of pushes, declarations and pops preserve. */
module ScopeRuns {
  import opened Scopes

  /** Entering a level comes with the calls that ask for its block: `keep_next_level`, and the setting of
      `keep_next_if_subblocks`. */
  datatype Event =
    | Push(scope: nat, keep: bool, keepIfSubblocks: bool)
    | Declare(x: Decl, accepted: bool)
    | DeclareTop(x: Decl, accepted: bool)
    | Pop(keep: bool, reverse: bool, functionBody: bool)

  /** May the event happen?  A level is left only if `poplevel` can restore the mapping. */
  ghost predicate Legal(s: State, e: Event) {
    s.levels != [] && (e.Pop? ==> !AtGlobal(s) && RedeclaresOnlyShadowed(s.levels[0].names, LocalOf(s.levels[1..])))
  }

  function Asked(s: State, keep: bool, sub: bool): State {
    s.(keepNext := s.keepNext || keep, keepNextIfSubblocks := s.keepNextIfSubblocks || sub)
  }

  function Step(s: State, e: Event): State {
    if s.levels == [] then s
    else
      match e
      case Push(scope, keep, sub) => PushLevel(Asked(s, keep, sub), scope)
      case Declare(x, accepted) => PushDecl(s, x, accepted)
      case DeclareTop(x, accepted) => PushDeclTopLevel(s, x, accepted)
      case Pop(keep, reverse, body) => if AtGlobal(s) then s else PopLevel(s, keep, reverse, body)
  }

  function Run(s: State, events: seq<Event>): State
    decreases events
  {
    if events == [] then s else Run(Step(s, events[0]), events[1..])
  }

  ghost predicate AllLegal(s: State, events: seq<Event>)
    decreases events
  {
    events == [] || (Legal(s, events[0]) && AllLegal(Step(s, events[0]), events[1..]))
  }

  lemma StepInv(s: State, e: Event)
    requires Inv(s) && Legal(s, e)
    ensures Inv(Step(s, e))
  {
    match e
    case Push(scope, keep, sub) => PushLevelInv(Asked(s, keep, sub), scope);
    case Declare(x, accepted) => PushDeclInv(s, x, accepted);
    case DeclareTop(x, accepted) => PushDeclTopLevelInv(s, x, accepted);
    case Pop(keep, reverse, body) => PopLevelInv(s, keep, reverse, body);
  }

  /** Every run keeps the invariant, so `lookup_name` agrees with the search throughout. */
  lemma {:induction false} RunInv(s: State, events: seq<Event>)
    requires Inv(s) && AllLegal(s, events)
    ensures Inv(Run(s, events))
    ensures forall n :: LookupName(Run(s, events), n) == Search(Run(s, events).levels, n)
    decreases events
  {
    hide Inv, Legal, LookupName;
    if events != [] {
      StepInv(s, events[0]);
      RunInv(Step(s, events[0]), events[1..]);
    } else {
      forall n
        ensures LookupName(s, n) == Search(s.levels, n)
      {
        LookupIsSearch(s, n);
      }
    }
  }

  // ---------------------------------------------------------------- matching push and pop

  /** The run never leaves the innermost `k + 1` levels' worth of nesting. */
  predicate StaysAbove(s: State, events: seq<Event>, k: nat)
    decreases events
  {
    |s.levels| > k && (events == [] || StaysAbove(Step(s, events[0]), events[1..], k))
  }

  function Outer(s: State, k: nat): seq<Level>
    requires |s.levels| >= k
  {
    s.levels[|s.levels| - k..]
  }

  /** A declaration touches the innermost level only. */
  lemma PushDeclShape(s: State, x: Decl, accepted: bool)
    requires s.levels != []
    ensures var t := PushDecl(s, x, accepted);
      |t.levels| == |s.levels| && t.levels[1..] == s.levels[1..]
      && t.levels[0].blocks == s.levels[0].blocks && t.levels[0].scope == s.levels[0].scope
      && t.levels[0].keep == s.levels[0].keep && t.levels[0].keepIfSubblocks == s.levels[0].keepIfSubblocks
      && t.levels[0].preallocated == s.levels[0].preallocated
      && t.keepNext == s.keepNext && t.keepNextIfSubblocks == s.keepNextIfSubblocks
  {
    hide Merges;
  }

  lemma SameTails<T>(a: seq<T>, b: seq<T>, i: nat, j: nat, k: nat)
    requires i <= |a| && j <= |b| && a[i..] == b[j..] && k <= |a| - i
    ensures a[|a| - k..] == b[|b| - k..]
  {
    assert a[|a| - k..] == a[i..][|a| - i - k..];
    assert b[|b| - k..] == b[j..][|b| - j - k..];
  }

  lemma StepOuter(s: State, e: Event, k: nat)
    requires |s.levels| > k >= 1 && |Step(s, e).levels| > k
    ensures LocalOf(Outer(Step(s, e), k)) == LocalOf(Outer(s, k))
  {
    var t := Step(s, e);
    hide LocalOf, PushDecl, PopLevel, PushDeclTopLevel;
    match e
    case Push(_, _, _) => SameTails(t.levels, s.levels, 1, 0, k);
    case Declare(x, accepted) => DeclareOuter(s, x, accepted, k);
    case Pop(_, _, _) => PopOuter(s, e, k);
    case DeclareTop(x, accepted) => TopOuter(s, x, accepted, k);
  }

  lemma DeclareOuter(s: State, x: Decl, accepted: bool, k: nat)
    requires |s.levels| > k >= 1
    ensures var t := PushDecl(s, x, accepted); |t.levels| == |s.levels| && Outer(t, k) == Outer(s, k)
  {
    hide PushDecl;
    PushDeclShape(s, x, accepted);
    SameTails(PushDecl(s, x, accepted).levels, s.levels, 1, 1, k);
  }

  lemma PopOuter(s: State, e: Event, k: nat)
    requires |s.levels| > k >= 1 && |Step(s, e).levels| > k && e.Pop?
    ensures Outer(Step(s, e), k) == Outer(s, k)
  {
    hide HandedUp, Restore, Names;
    var t := Step(s, e);
    if !AtGlobal(s) {
      assert t.levels[1..] == s.levels[2..];
      SameTails(t.levels, s.levels, 1, 2, k);
    }
  }

  lemma TopOuter(s: State, x: Decl, accepted: bool, k: nat)
    requires |s.levels| > k >= 1
    ensures var t := PushDeclTopLevel(s, x, accepted);
      |t.levels| == |s.levels| && LocalOf(Outer(t, k)) == LocalOf(Outer(s, k))
  {
    var last := |s.levels| - 1;
    var t := PushDeclTopLevel(s, x, accepted);
    var d := PushDecl(s.(levels := [s.levels[last]]), x, accepted);
    PushDeclShape(s.(levels := [s.levels[last]]), x, accepted);
    hide PushDecl, LocalOf;
    assert d.levels == [d.levels[0]];
    GlobalLevelIgnored(Outer(s, k), d.levels[0]);
    assert Outer(t, k) == Outer(s, k)[..k - 1] + [d.levels[0]];
  }

  lemma {:induction false} RunOuter(s: State, events: seq<Event>, k: nat)
    requires k >= 1 && StaysAbove(s, events, k)
    ensures |Run(s, events).levels| > k && LocalOf(Outer(Run(s, events), k)) == LocalOf(Outer(s, k))
    decreases events
  {
    hide LocalOf, Step;
    if events != [] {
      RunOuter(Step(s, events[0]), events[1..], k);
      StepOuter(s, events[0], k);
    }
  }

  /** `poplevel` restores the exact mapping held at the matching `pushlevel`, whatever happened in
      between: nested scopes, declarations at any level, declarations pushed to the top level. */
  lemma MatchingPopRestores(s: State, push: Event, mid: seq<Event>, pop: Event)
    requires Inv(s) && push.Push? && pop.Pop? && AllLegal(s, [push]) && AllLegal(Step(s, push), mid)
    requires StaysAbove(Step(s, push), mid, |s.levels|)
    requires |Run(Step(s, push), mid).levels| == |s.levels| + 1 && Legal(Run(Step(s, push), mid), pop)
    ensures Step(Run(Step(s, push), mid), pop).local == s.local
  {
    var s1 := Step(s, push);
    var f := Run(s1, mid);
    StepInv(s, push);
    RunInv(s1, mid);
    RunOuter(s1, mid, |s.levels|);
    assert Outer(s1, |s.levels|) == s.levels;
    assert Outer(f, |s.levels|) == f.levels[1..];
    hide Run, LocalOf, RedeclaresOnlyShadowed, PopLevel, AllLegal, StaysAbove, ShadowsOk, Bound;
    PopRestoresExactly(f, pop.keep, pop.reverse, pop.functionBody);
  }

  // ---------------------------------------------------------------- the BLOCK forest

  /** The scopes of a function: what is kept, and the declarations and nested scopes in order. The scope
      `body` of a function has a block of its own that belongs to the function. */
  datatype Scope = Scope(id: nat, keepNext: bool, keepIfSubblocks: bool, keepAtEnd: bool, reverse: bool, body: bool,
                         items: seq<Item>)
  datatype Item = Decl_(x: Decl, accepted: bool) | Top(x: Decl, accepted: bool) | Nested(scope: Scope)

  function Events(sc: Scope): seq<Event>
    decreases sc, 0
  {
    [Push(sc.id, sc.keepNext, sc.keepIfSubblocks)] + ItemEvents(sc.items) + [Pop(sc.keepAtEnd, sc.reverse, sc.body)]
  }

  function ItemEvents(items: seq<Item>): seq<Event>
    decreases items, 1
  {
    if items == [] then [] else ItemEvent(items[0]) + ItemEvents(items[1..])
  }

  function ItemEvent(item: Item): seq<Event>
    decreases item, 1
  {
    match item
    case Decl_(x, a) => [Declare(x, a)]
    case Top(x, a) => [DeclareTop(x, a)]
    case Nested(sc) => Events(sc)
  }

  /** The shape of a BLOCK. */
  datatype Tree = Tree(id: nat, subtrees: seq<Tree>)

  function Skeleton(b: Block): Tree { Tree(b.scope, Skeletons(b.subblocks)) }

  function Skeletons(bs: seq<Block>): seq<Tree> {
    if bs == [] then [] else [Skeleton(bs[0])] + Skeletons(bs[1..])
  }

  /** The scope tree with the scopes that are not kept spliced out, and without nested functions. */
  function Splice(sc: Scope): seq<Tree>
    decreases sc, 0
  {
    SpliceOne(sc, SpliceItems(sc.items))
  }

  function SpliceOne(sc: Scope, subs: seq<Tree>): seq<Tree> {
    if sc.body then []
    else if sc.keepNext || sc.keepAtEnd || (sc.keepIfSubblocks && subs != []) then [Tree(sc.id, subs)]
    else subs
  }

  function SpliceItems(items: seq<Item>): seq<Tree>
    decreases items, 1
  {
    if items == [] then [] else SpliceItem(items[0]) + SpliceItems(items[1..])
  }

  function SpliceItem(item: Item): seq<Tree>
    decreases item, 1
  {
    if item.Nested? then Splice(item.scope) else []
  }

  lemma {:induction false} SkeletonsAppend(a: seq<Block>, b: seq<Block>)
    ensures Skeletons(a + b) == Skeletons(a) + Skeletons(b)
    decreases |a|
  {
    if a == [] {
      assert a + b == b;
    } else {
      assert (a + b)[1..] == a[1..] + b;
      SkeletonsAppend(a[1..], b);
    }
  }

  lemma {:induction false} RunAppend(s: State, a: seq<Event>, b: seq<Event>)
    ensures Run(s, a + b) == Run(Run(s, a), b)
    decreases |a|
  {
    if a == [] {
      assert a + b == b;
    } else {
      assert (a + b)[1..] == a[1..] + b;
      RunAppend(Step(s, a[0]), a[1..], b);
    }
  }

  /** No block is asked for that no level has taken yet. */
  ghost predicate NothingAsked(s: State) { !s.keepNext && !s.keepNextIfSubblocks }

  ghost predicate SameFrame(a: Level, b: Level) {
    a.scope == b.scope && a.keep == b.keep && a.keepIfSubblocks == b.keepIfSubblocks && a.preallocated == b.preallocated
  }

  /** What a run inside a level does to the chain: it adds blocks of the given shape to the innermost
      level, and leaves the keep flags and the blocks of all other levels alone; nothing asked for a level
      is left over. */
  ghost predicate Adds(s: State, t: State, trees: seq<Tree>) {
    && NothingAsked(t)
    && |t.levels| == |s.levels| > 0
    && Skeletons(t.levels[0].blocks) == Skeletons(s.levels[0].blocks) + trees
    && SameFrame(s.levels[0], t.levels[0])
    && forall k :: 0 < k < |s.levels| ==> SameFrame(s.levels[k], t.levels[k]) && t.levels[k].blocks == s.levels[k].blocks
  }

  lemma AddsNothing(s: State, t: State)
    requires NothingAsked(t)
    requires |t.levels| == |s.levels| > 0
    requires forall k :: 0 <= k < |s.levels| ==> SameFrame(s.levels[k], t.levels[k]) && t.levels[k].blocks == s.levels[k].blocks
    ensures Adds(s, t, [])
  {
  }

  lemma AddsBoth(s: State, t: State, u: State, a: seq<Tree>, b: seq<Tree>)
    requires Adds(s, t, a) && Adds(t, u, b)
    ensures Adds(s, u, a + b)
  {
    hide Skeletons;
    assert (Skeletons(s.levels[0].blocks) + a) + b == Skeletons(s.levels[0].blocks) + (a + b);
  }

  lemma DeclareAdds(s: State, x: Decl, accepted: bool)
    requires s.levels != [] && NothingAsked(s)
    ensures Adds(s, PushDecl(s, x, accepted), [])
  {
    PushDeclShape(s, x, accepted);
    var t := PushDecl(s, x, accepted);
    hide PushDecl;
    forall k | 0 < k < |s.levels|
      ensures t.levels[k] == s.levels[k]
    {
      assert t.levels[k] == t.levels[1..][k - 1] && s.levels[k] == s.levels[1..][k - 1];
    }
    AddsNothing(s, t);
  }

  lemma DeclareTopAdds(s: State, x: Decl, accepted: bool)
    requires s.levels != [] && NothingAsked(s)
    ensures Adds(s, PushDeclTopLevel(s, x, accepted), [])
  {
    var last := |s.levels| - 1;
    PushDeclShape(s.(levels := [s.levels[last]]), x, accepted);
    hide PushDecl;
    AddsNothing(s, PushDeclTopLevel(s, x, accepted));
  }

  /** Leaving a scope whose level has gathered the blocks of shape `subs`. */
  lemma PopAdds(s: State, t: State, sc: Scope, subs: seq<Tree>)
    requires s.levels != [] && NothingAsked(s)
    requires Adds(Step(s, Push(sc.id, sc.keepNext, sc.keepIfSubblocks)), t, subs)
    ensures Adds(s, Step(t, Pop(sc.keepAtEnd, sc.reverse, sc.body)), SpliceOne(sc, subs))
  {
    var s1 := Step(s, Push(sc.id, sc.keepNext, sc.keepIfSubblocks));
    Entered(s, sc);
    hide Step, HandedUp, Skeletons, SpliceOne;
    var l := t.levels[0];
    NoSubblocks(l.blocks);
    assert Skeletons(l.blocks) == subs by { NoSubblocks([]); }
    HandedUpShape(l, sc);
    OuterKept(s, s1, t);
    var up := HandedUp(l, sc.keepAtEnd, sc.reverse, sc.body);
    Left(t, sc.keepAtEnd, sc.reverse, sc.body);
    HandedOver(s, t, Step(t, Pop(sc.keepAtEnd, sc.reverse, sc.body)), up);
  }

  lemma NoSubblocks(bs: seq<Block>)
    ensures Skeletons(bs) == [] <==> bs == []
  {
  }

  lemma Entered(s: State, sc: Scope)
    requires s.levels != [] && NothingAsked(s)
    ensures var t := Step(s, Push(sc.id, sc.keepNext, sc.keepIfSubblocks));
      NothingAsked(t) && t.levels == [Level(sc.id, [], [], [], false, sc.keepNext, sc.keepIfSubblocks)] + s.levels
  {
  }

  /** Inside a scope the levels around it keep their flags and blocks. */
  lemma OuterKept(s: State, s1: State, t: State)
    requires |s1.levels| == |s.levels| + 1 == |t.levels| && s1.levels[1..] == s.levels
    requires forall k :: 0 < k < |s1.levels| ==> SameFrame(s1.levels[k], t.levels[k]) && t.levels[k].blocks == s1.levels[k].blocks
    ensures forall k :: 0 <= k < |s.levels| ==>
      SameFrame(s.levels[k], t.levels[k + 1]) && t.levels[k + 1].blocks == s.levels[k].blocks
  {
    forall k | 0 <= k < |s.levels|
      ensures SameFrame(s.levels[k], t.levels[k + 1]) && t.levels[k + 1].blocks == s.levels[k].blocks
    {
      assert s1.levels[k + 1] == s.levels[k];
    }
  }

  lemma Left(t: State, keep: bool, reverse: bool, body: bool)
    requires |t.levels| >= 2
    ensures Step(t, Pop(keep, reverse, body)).levels
         == [t.levels[1].(blocks := t.levels[1].blocks + HandedUp(t.levels[0], keep, reverse, body))] + t.levels[2..]
    ensures NothingAsked(t) ==> NothingAsked(Step(t, Pop(keep, reverse, body)))
  {
    hide HandedUp, Restore, Names;
  }

  /** The blocks `up` come to the enclosing level and nothing else changes there. */
  lemma HandedOver(s: State, t: State, u: State, up: seq<Block>)
    requires |t.levels| == |s.levels| + 1 >= 2
    requires forall k :: 0 <= k < |s.levels| ==>
      SameFrame(s.levels[k], t.levels[k + 1]) && t.levels[k + 1].blocks == s.levels[k].blocks
    requires u.levels == [t.levels[1].(blocks := t.levels[1].blocks + up)] + t.levels[2..] && NothingAsked(u)
    ensures Adds(s, u, Skeletons(up))
  {
    hide Skeletons;
    SkeletonsAppend(t.levels[1].blocks, up);
    forall k | 0 < k < |s.levels|
      ensures SameFrame(s.levels[k], u.levels[k]) && u.levels[k].blocks == s.levels[k].blocks
    {
      assert u.levels[k] == t.levels[k + 1];
    }
    assert SameFrame(s.levels[0], t.levels[0 + 1]) && t.levels[0 + 1].blocks == s.levels[0].blocks;
  }

  lemma HandedUpShape(l: Level, sc: Scope)
    requires !l.preallocated && l.keep == sc.keepNext && l.keepIfSubblocks == sc.keepIfSubblocks && l.scope == sc.id
    ensures Skeletons(HandedUp(l, sc.keepAtEnd, sc.reverse, sc.body)) == SpliceOne(sc, Skeletons(l.blocks))
  {
    if !sc.body && MakesBlock(l, sc.keepAtEnd, false) {
      var b := MadeBlock(l, sc.reverse, false);
      assert [b][1..] == [];
      assert Skeletons([b]) == [Skeleton(b)];
    }
    NoSubblocks(l.blocks);
  }

  /** The block of a function body, which becomes that of the function, has the forest of the scopes
      inside it. */
  lemma FunctionBlock(s: State, sc: Scope)
    requires s.levels != [] && NothingAsked(s) && sc.body
    ensures var t := Run(Step(s, Push(sc.id, sc.keepNext, sc.keepIfSubblocks)), ItemEvents(sc.items));
      && t.levels != [] && MakesBlock(t.levels[0], sc.keepAtEnd, true)
      && Skeleton(MadeBlock(t.levels[0], sc.reverse, true)) == Tree(sc.id, SpliceItems(sc.items))
  {
    var s1 := Step(s, Push(sc.id, sc.keepNext, sc.keepIfSubblocks));
    Entered(s, sc);
    hide Step, Run, Skeletons;
    ItemsAdd(s1, sc.items);
    NoSubblocks([]);
  }

  /** The block forest that a run of a scope adds is the scope tree with unkept scopes spliced out. */
  lemma {:induction false} ScopeAdds(s: State, sc: Scope)
    requires s.levels != [] && NothingAsked(s)
    ensures Adds(s, Run(s, Events(sc)), Splice(sc))
    decreases sc, 0
  {
    var push, pop := Push(sc.id, sc.keepNext, sc.keepIfSubblocks), Pop(sc.keepAtEnd, sc.reverse, sc.body);
    var s1 := Step(s, push);
    var t := Run(s1, ItemEvents(sc.items));
    ItemsAdd(s1, sc.items);
    PopAdds(s, t, sc, SpliceItems(sc.items));
    RunAppend(s, [push] + ItemEvents(sc.items), [pop]);
    RunAppend(s, [push], ItemEvents(sc.items));
    RunOne(s, push);
    RunOne(t, pop);
    hide Run, Step, Adds;
  }

  lemma RunOne(s: State, e: Event)
    ensures Run(s, [e]) == Step(s, e)
  {
    hide Step;
    assert [e][1..] == [];
    assert Run(Step(s, e), []) == Step(s, e);
  }

  lemma {:induction false} ItemAdds(s: State, item: Item)
    requires s.levels != [] && NothingAsked(s)
    ensures Adds(s, Run(s, ItemEvent(item)), SpliceItem(item))
    decreases item, 1
  {
    match item
    case Decl_(x, a) => RunOne(s, Declare(x, a)); hide Run; DeclareAdds(s, x, a);
    case Top(x, a) => RunOne(s, DeclareTop(x, a)); hide Run; DeclareTopAdds(s, x, a);
    case Nested(sc) => ScopeAdds(s, sc);
  }

  lemma {:induction false} ItemsAdd(s: State, items: seq<Item>)
    requires s.levels != [] && NothingAsked(s)
    ensures Adds(s, Run(s, ItemEvents(items)), SpliceItems(items))
    decreases items, 1
  {
    if items == [] {
      AddsNothing(s, s);
    } else {
      var t := Run(s, ItemEvent(items[0]));
      ItemAdds(s, items[0]);
      KeepsLevels(s, t, SpliceItem(items[0]));
      ItemsAdd(t, items[1..]);
      hide Adds, Run;
      AddsBoth(s, t, Run(t, ItemEvents(items[1..])), SpliceItem(items[0]), SpliceItems(items[1..]));
      RunAppend(s, ItemEvent(items[0]), ItemEvents(items[1..]));
    }
  }

  lemma KeepsLevels(s: State, t: State, trees: seq<Tree>)
    requires Adds(s, t, trees)
    ensures t.levels != [] && NothingAsked(t)
  {
  }

  // ---------------------------------------------------------------- nothing lost, nothing duplicated

  /** The edges from each block to its subblocks, in preorder; `p` encloses the forest. */
  function Edges(ts: seq<Tree>, p: nat): seq<(nat, nat)> {
    if ts == [] then [] else TreeEdges(ts[0], p) + Edges(ts[1..], p)
  }

  function TreeEdges(t: Tree, p: nat): seq<(nat, nat)> {
    [(p, t.id)] + Edges(t.subtrees, t.id)
  }

  /** Does the scope get a block of its own? */
  predicate Kept(sc: Scope)
    decreases sc, 0
  {
    !sc.body && (sc.keepNext || sc.keepAtEnd || (sc.keepIfSubblocks && SomeKept(sc.items)))
  }

  predicate SomeKept(items: seq<Item>)
    decreases items, 2
  {
    items != [] && (ItemKept(items[0]) || SomeKept(items[1..]))
  }

  /** Some scope of the item, at any depth, is kept. */
  predicate ItemKept(item: Item)
    decreases item, 1
  {
    item.Nested? && !item.scope.body && (Kept(item.scope) || SomeKept(item.scope.items))
  }

  /** The kept scopes in order, each with the nearest kept scope around it; nested functions stand apart. */
  function KeptEdges(sc: Scope, p: nat): seq<(nat, nat)>
    decreases sc, 0
  {
    if sc.body then []
    else if Kept(sc) then [(p, sc.id)] + KeptItemEdges(sc.items, sc.id)
    else KeptItemEdges(sc.items, p)
  }

  function KeptItemEdges(items: seq<Item>, p: nat): seq<(nat, nat)>
    decreases items, 2
  {
    if items == [] then [] else KeptItemEdge(items[0], p) + KeptItemEdges(items[1..], p)
  }

  function KeptItemEdge(item: Item, p: nat): seq<(nat, nat)>
    decreases item, 1
  {
    if item.Nested? then KeptEdges(item.scope, p) else []
  }

  lemma {:induction false} EdgesAppend(a: seq<Tree>, b: seq<Tree>, p: nat)
    ensures Edges(a + b, p) == Edges(a, p) + Edges(b, p)
    decreases |a|
  {
    if a == [] {
      assert a + b == b;
    } else {
      assert (a + b)[1..] == a[1..] + b;
      EdgesAppend(a[1..], b, p);
      hide TreeEdges;
      assert TreeEdges(a[0], p) + (Edges(a[1..], p) + Edges(b, p)) == (TreeEdges(a[0], p) + Edges(a[1..], p)) + Edges(b, p);
    }
  }

  /** Every kept scope has exactly one BLOCK, under the block of the nearest kept scope around it and
      in source order; the other scopes have none. */
  lemma {:induction false} SpliceKeepsEdges(sc: Scope, p: nat)
    ensures Edges(Splice(sc), p) == KeptEdges(sc, p)
    ensures Splice(sc) != [] <==> !sc.body && (Kept(sc) || SomeKept(sc.items))
    decreases sc, 0
  {
    var subs := SpliceItems(sc.items);
    SpliceItemsKeepEdges(sc.items, p);
    SpliceItemsKeepEdges(sc.items, sc.id);
    if Kept(sc) {
      assert Splice(sc) == [Tree(sc.id, subs)];
      assert Edges([Tree(sc.id, subs)], p) == TreeEdges(Tree(sc.id, subs), p) + Edges([], p);
    }
  }

  lemma {:induction false} SpliceItemKeepsEdges(item: Item, p: nat)
    ensures Edges(SpliceItem(item), p) == KeptItemEdge(item, p)
    ensures SpliceItem(item) != [] <==> ItemKept(item)
    decreases item, 1
  {
    if item.Nested? {
      SpliceKeepsEdges(item.scope, p);
    }
  }

  lemma {:induction false} SpliceItemsKeepEdges(items: seq<Item>, p: nat)
    ensures Edges(SpliceItems(items), p) == KeptItemEdges(items, p)
    ensures SpliceItems(items) != [] <==> SomeKept(items)
    decreases items, 2
  {
    if items != [] {
      SpliceItemKeepsEdges(items[0], p);
      SpliceItemsKeepEdges(items[1..], p);
      EdgesAppend(SpliceItem(items[0]), SpliceItems(items[1..]), p);
    }
  }
}
