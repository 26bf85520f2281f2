/**
 Lists of iterator expansions: one for each `({` that is open, and one for all that lies below the
 current level.
 */
module Iterators {
  class Ixpansion {
    const decl: nat
    /** Made by a `for`, not by an implicit iteration: the prologue start is null. */
    const explicitFor: bool
    var next: Ixpansion?

    constructor (decl: nat, explicitFor: bool, next: Ixpansion?)
      ensures this.decl == decl && this.explicitFor == explicitFor && this.next == next
    {
      this.decl, this.explicitFor, this.next := decl, explicitFor, next;
    }
  }

  /** `struct iter_stack_node`, without its link. */
  datatype Head = Head(first: Ixpansion?, last: Ixpansion?)

  const EMPTY := Head(null, null)

  type List = seq<Ixpansion>

  predicate Distinct(list: List) {
    forall i, j :: 0 <= i < j < |list| ==> list[i] != list[j]
  }

  predicate Apart(a: List, b: List) {
    forall x :: x in a ==> x !in b
  }

  /** `list` leads from `first` to `end` through the `next` fields. */
  ghost predicate Leads(first: Ixpansion?, list: List, end: Ixpansion?)
    reads list`next
  {
    if list == [] then first == end
    else first == list[0] && Leads(list[0].next, list[1..], end)
  }

  /** The first and last pointers describe one list, which ends and has no cycle. */
  ghost predicate Describes(h: Head, list: List)
    reads list`next
  {
    && Distinct(list) && Leads(h.first, list, null)
    && h.last == LastOf(list)
  }

  function LastOf(list: List): Ixpansion? {
    if list == [] then null else list[|list| - 1]
  }

  lemma {:induction false} LeadsSplit(first: Ixpansion?, a: List, b: List, end: Ixpansion?)
    ensures Leads(first, a + b, end) <==> Leads(first, a, FirstOf(b, end)) && Leads(FirstOf(b, end), b, end)
    decreases |a|
  {
    if a == [] {
      assert a + b == b;
    } else {
      assert (a + b)[1..] == a[1..] + b && (a + b)[0] == a[0];
      LeadsSplit(a[0].next, a[1..], b, end);
    }
  }

  function FirstOf(b: List, end: Ixpansion?): Ixpansion? {
    if b == [] then end else b[0]
  }

  /** `isn_append`: the list of `x` goes behind the list of `y`. */
  method IsnAppend(x: Head, y: Head, ghost xs: List, ghost ys: List) returns (r: Head)
    requires Describes(x, xs) && Describes(y, ys) && Apart(xs, ys)
    modifies (if y.last == null then {} else {y.last})`next
    ensures Describes(r, ys + xs)
  {
    if x.first == null {
      assert ys + xs == ys;
      return y;
    }
    if y.first == null {
      assert ys + xs == xs;
      return x;
    }
    JoinLists(x, y, xs, ys);
    assert y.last in ys && y.last !in xs && y.last !in ys[..|ys| - 1];
    y.last.next := x.first;
    JoinedLists(x, y, xs, ys);
    r := Head(y.first, x.last);
  }

  /** What the list in front is without its last node. */
  lemma JoinLists(x: Head, y: Head, xs: List, ys: List)
    requires Describes(x, xs) && Describes(y, ys) && xs != [] && ys != []
    ensures y.last == ys[|ys| - 1] && x.first == xs[0] && Leads(y.first, ys[..|ys| - 1], y.last)
  {
    assert ys == ys[..|ys| - 1] + [ys[|ys| - 1]];
    LeadsSplit(y.first, ys[..|ys| - 1], [ys[|ys| - 1]], null);
  }

  lemma JoinedLists(x: Head, y: Head, xs: List, ys: List)
    requires Distinct(xs) && Distinct(ys) && Apart(xs, ys) && xs != [] && ys != []
    requires y.last == ys[|ys| - 1] && x.first == xs[0] && Leads(y.first, ys[..|ys| - 1], y.last)
    requires Leads(x.first, xs, null) && y.last.next == x.first && x.last == xs[|xs| - 1]
    ensures Describes(Head(y.first, x.last), ys + xs)
  {
    var z := ys[|ys| - 1];
    DistinctAppend(ys, xs);
    assert ys == ys[..|ys| - 1] + [z] && [z][1..] == [];
    LeadsSplit(y.first, ys[..|ys| - 1], [z], x.first);
    LeadsSplit(y.first, ys, xs, null);
  }

  lemma DistinctAppend(a: List, b: List)
    requires Distinct(a) && Distinct(b) && Apart(b, a)
    ensures Distinct(a + b)
  {
    forall i, j | 0 <= i < j < |a + b| ensures (a + b)[i] != (a + b)[j] {
      if i < |a| <= j {
        assert (a + b)[j] in b && (a + b)[i] in a;
      }
    }
  }

  /** The expansions of a list that are not for `decl`. */
  function Without(list: List, decl: nat): List {
    if list == [] then []
    else (if list[0].decl == decl then [] else [list[0]]) + Without(list[1..], decl)
  }

  function For(list: List, decl: nat): List {
    if list == [] then []
    else (if list[0].decl == decl then [list[0]] else []) + For(list[1..], decl)
  }

  lemma {:induction false} WithoutSnoc(list: List, x: Ixpansion, decl: nat)
    ensures Without(list + [x], decl) == Without(list, decl) + (if x.decl == decl then [] else [x])
    ensures For(list + [x], decl) == For(list, decl) + (if x.decl == decl then [x] else [])
  {
    if list == [] {
      assert list + [x] == [x];
    } else {
      assert (list + [x])[1..] == list[1..] + [x];
      WithoutSnoc(list[1..], x, decl);
    }
  }

  /** Take `ix`, which comes behind `kept` and starts `tail`, out of the list. */
  method Unlink(h: Head, previx: Ixpansion?, ix: Ixpansion, ghost kept: List, ghost tail: List) returns (r: Head)
    requires tail != [] && ix == tail[0] && Distinct(kept + tail)
    requires Leads(h.first, kept, ix) && Leads(ix, tail, null) && previx == LastOf(kept) && h.last == LastOf(kept + tail)
    modifies (if previx == null then {} else {previx})`next
    ensures Leads(r.first, kept, ix.next) && Leads(ix.next, tail[1..], null) && ix.next == old(ix.next)
    ensures r.last == LastOf(kept + tail[1..]) && Distinct(kept + tail[1..])
  {
    r := h;
    assert tail == [ix] + tail[1..];
    DropMiddle(kept, ix, tail[1..]);
    if previx != null {
      BeforeLast(h.first, kept, ix);
      assert kept == kept[..|kept| - 1] + [previx];
      previx.next := ix.next;
      ToLast(h.first, kept, ix.next);
    } else {
      r := r.(first := ix.next);
    }
    if r.last == ix {
      r := r.(last := previx);
    }
  }

  lemma DropMiddle(a: List, x: Ixpansion, b: List)
    requires Distinct(a + ([x] + b))
    ensures Distinct(a + b)
    ensures forall i :: 0 <= i < |a| ==> a[i] != x && a[i] !in b
    ensures x !in b && Distinct(a)
    ensures LastOf(a + ([x] + b)) == (if b == [] then x else LastOf(b))
    ensures LastOf(a + b) == if b == [] then LastOf(a) else LastOf(b)
  {
    var all := a + ([x] + b);
    forall i | 0 <= i < |a| ensures a[i] != x && a[i] !in b {
      assert all[i] == a[i] && all[|a|] == x;
      assert forall j :: 0 <= j < |b| ==> all[|a| + 1 + j] == b[j];
    }
    assert forall j :: 0 <= j < |b| ==> all[|a| + 1 + j] == b[j] && all[|a|] == x;
    assert forall i :: 0 <= i < |a| ==> all[i] == a[i];
    forall i, j | 0 <= i < j < |a + b| ensures (a + b)[i] != (a + b)[j] {
      assert (a + b)[i] == all[if i < |a| then i else i + 1];
      assert (a + b)[j] == all[if j < |a| then j else j + 1];
    }
  }

  lemma BeforeLast(first: Ixpansion?, list: List, end: Ixpansion?)
    requires list != [] && Leads(first, list, end)
    ensures Leads(first, list[..|list| - 1], list[|list| - 1])
  {
    assert list == list[..|list| - 1] + [list[|list| - 1]];
    LeadsSplit(first, list[..|list| - 1], [list[|list| - 1]], end);
  }

  lemma ToLast(first: Ixpansion?, list: List, end: Ixpansion?)
    requires list != [] && Leads(first, list[..|list| - 1], list[|list| - 1]) && list[|list| - 1].next == end
    ensures Leads(first, list, end)
  {
    assert list == list[..|list| - 1] + [list[|list| - 1]];
    LeadsSplit(first, list[..|list| - 1], [list[|list| - 1]], end);
  }

  lemma Kept(first: Ixpansion?, kept: List, ix: Ixpansion, tail: List)
    requires tail != [] && ix == tail[0] && Leads(first, kept, ix) && Leads(ix, tail, null)
    ensures Leads(first, kept + [ix], ix.next) && Leads(ix.next, tail[1..], null)
    ensures kept + [ix] + tail[1..] == kept + tail
  {
    LeadsSplit(first, kept, [ix], ix.next);
    assert [ix][1..] == [];
  }

  /** The loop of `delete_ixpansion` before node `ix`: `kept` is what is left of the first `k` nodes. */
  ghost predicate Midway(h: Head, list: List, k: nat, kept: List, previx: Ixpansion?, ix: Ixpansion?)
    requires k <= |list|
    reads kept`next, list`next
  {
    && (forall x :: x in kept ==> x in list)
    && Distinct(kept + list[k..]) && previx == LastOf(kept) && h.last == LastOf(kept + list[k..])
    && Leads(h.first, kept, ix) && Leads(ix, list[k..], null)
  }

  /** One turn of the loop, as far as the links go. */
  method VisitOne(h: Head, decl: nat, ghost list: List, ghost k: nat, ghost kept: List, previx: Ixpansion?, ix: Ixpansion, ghost nodes: set<Ixpansion>)
    returns (r: Head, p: Ixpansion?)
    requires k < |list| && Midway(h, list, k, kept, previx, ix) && forall x :: x in list ==> x in nodes
    modifies nodes`next
    ensures Midway(r, list, k + 1, if ix.decl == decl then kept else kept + [ix], p, ix.next)
  {
    r, p := h, previx;
    ghost var tail := list[k..];
    AtNode(ix, tail);
    LastIn(kept);
    assert tail[1..] == list[k + 1..];
    hide Leads, LastOf, Distinct;
    if ix.decl == decl {
      r := Unlink(r, previx, ix, kept, tail);
    } else {
      Kept(r.first, kept, ix, tail);
      SnocLast(kept + [ix], ix);
      p := ix;
    }
  }

  /** The state of the loop: what is left of the first `k` nodes, and what was found among them. */
  ghost predicate Deleting(h: Head, decl: nat, list: List, k: nat, previx: Ixpansion?, ix: Ixpansion?, deleted: List, errors: nat)
    requires k <= |list|
    reads Without(list[..k], decl)`next, list`next
  {
    && Midway(h, list, k, Without(list[..k], decl), previx, ix)
    && deleted == Implicit(For(list[..k], decl)) && errors == |For(list[..k], decl)| - |deleted|
  }

  method DeleteTurn(h: Head, decl: nat, ghost list: List, ghost k: nat, previx: Ixpansion?, ix: Ixpansion, deleted: List, errors: nat,
                    ghost nodes: set<Ixpansion>)
    returns (r: Head, p: Ixpansion?, d: List, e: nat)
    requires k <= |list| && Deleting(h, decl, list, k, previx, ix, deleted, errors) && forall x :: x in list ==> x in nodes
    modifies nodes`next
    ensures k < |list| && Deleting(r, decl, list, k + 1, p, ix.next, d, e)
  {
    ghost var done := list[..k];
    ghost var kept := Without(done, decl);
    Here(h, list, k, kept, previx, ix);
    WithoutSnoc(done, ix, decl);
    ImplicitSnoc(For(done, decl), ix);
    assert list[..k + 1] == done + [ix] && kept + [] == kept && For(done, decl) + [] == For(done, decl);
    hide Midway, Without, For, Implicit;
    r, p := VisitOne(h, decl, list, k, kept, previx, ix, nodes);
    d, e := deleted, errors;
    if ix.decl == decl {
      if ix.explicitFor {
        e := e + 1;
      } else {
        d := d + [ix];
      }
    }
  }

  /** `delete_ixpansion` on the sublevel list: the expansions for `decl` are unlinked, and what they
      stand for is deleted, or an error given for a `for`. */
  method DeleteFrom(h: Head, decl: nat, ghost list: List, ghost nodes: set<Ixpansion>) returns (r: Head, deleted: List, errors: nat)
    requires Describes(h, list) && forall x :: x in list ==> x in nodes
    modifies nodes`next
    ensures Describes(r, Without(list, decl))
    ensures deleted == Implicit(For(list, decl)) && errors == |For(list, decl)| - |deleted|
  {
    r, deleted, errors := h, [], 0;
    var previx: Ixpansion? := null;
    var ix := r.first;
    ghost var k: nat := 0;
    assert [] + list == list && list[..0] == [] && list[0..] == list && Leads(r.first, [], ix);
    assert Deleting(r, decl, list, 0, previx, ix, deleted, errors);
    hide *;
    while ix != null
      invariant k <= |list| && Deleting(r, decl, list, k, previx, ix, deleted, errors)
      decreases |list| - k
    {
      r, previx, deleted, errors := DeleteTurn(r, decl, list, k, previx, ix, deleted, errors, nodes);
      ix := ix.next;
      k := k + 1;
    }
    Finished(r, decl, list, k, previx, deleted, errors);
  }

  lemma Here(h: Head, list: List, k: nat, kept: List, previx: Ixpansion?, ix: Ixpansion)
    requires k <= |list| && Midway(h, list, k, kept, previx, ix)
    ensures k < |list| && list[k] == ix
  {
    AtNode(ix, list[k..]);
  }

  lemma Finished(h: Head, decl: nat, list: List, k: nat, previx: Ixpansion?, deleted: List, errors: nat)
    requires k <= |list| && Deleting(h, decl, list, k, previx, null, deleted, errors)
    ensures Describes(h, Without(list, decl))
    ensures deleted == Implicit(For(list, decl)) && errors == |For(list, decl)| - |deleted|
  {
    AtNode(null, list[k..]);
    var kept := Without(list[..k], decl);
    assert kept + [] == kept && list[..k] == list;
  }

  lemma AtNode(first: Ixpansion?, list: List)
    requires Leads(first, list, null)
    ensures (first == null <==> list == []) && (list != [] ==> first == list[0])
  {
  }

  lemma LastIn(list: List)
    ensures LastOf(list) == null || LastOf(list) in list
  {
  }

  lemma SnocLast(list: List, x: Ixpansion)
    requires list != [] && list[|list| - 1] == x
    ensures LastOf(list) == x
  {
  }

  /** Those of which the insns can be deleted. */
  function Implicit(list: List): List {
    if list == [] then [] else (if list[0].explicitFor then [] else [list[0]]) + Implicit(list[1..])
  }

  lemma {:induction false} ImplicitSnoc(list: List, x: Ixpansion)
    ensures Implicit(list + [x]) == Implicit(list) + (if x.explicitFor then [] else [x])
  {
    if list == [] {
      assert list + [x] == [x];
    } else {
      assert (list + [x])[1..] == list[1..] + [x];
      ImplicitSnoc(list[1..], x);
    }
  }

  // ---------------------------------------------------------------- the stack of levels

  ghost predicate AllApart(levels: seq<List>, below: List) {
    && (forall i, j :: 0 <= i < j < |levels| ==> Apart(levels[i], levels[j]))
    && (forall i :: 0 <= i < |levels| ==> Apart(levels[i], below) && Apart(below, levels[i]))
  }

  class IteratorState {
    /** The heads of the levels, the current level first. */
    var iterStack: seq<Head>
    var sublevel: Head
    ghost var levels: seq<List>
    ghost var below: List
    ghost var nodes: set<Ixpansion>

    /** Every head describes its own list, and no expansion is in two lists. */
    ghost predicate Valid()
      reads this, nodes
    {
      && |iterStack| == |levels| && (forall x :: x in below ==> x in nodes)
      && (forall i, x :: 0 <= i < |levels| && x in levels[i] ==> x in nodes)
      && Describes(sublevel, below) && (forall i :: 0 <= i < |levels| ==> Describes(iterStack[i], levels[i]))
      && AllApart(levels, below)
    }

    constructor ()
      ensures Valid() && levels == [] && below == []
    {
      iterStack, sublevel, levels, below, nodes := [], EMPTY, [], [], {};
    }

    /** `push_iterator_stack` */
    method PushLevel()
      requires Valid()
      modifies this
      ensures Valid() && levels == [[]] + old(levels) && below == old(below) && nodes == old(nodes)
    {
      iterStack := [EMPTY] + iterStack;
      levels := [[]] + levels;
    }

    /** `pop_iterator_stack`: the list of the level goes behind the sublevel list; aborts without a
        level. */
    method PopLevel() returns (ok: bool)
      requires Valid()
      modifies this, nodes`next
      ensures Valid() && ok == (old(levels) != []) && nodes == old(nodes)
      ensures ok ==> levels == old(levels)[1..] && below == old(below) + old(levels)[0]
    {
      if iterStack == [] {
        return false;
      }
      LastIn(below);
      sublevel := IsnAppend(iterStack[0], sublevel, levels[0], below);
      below := below + levels[0];
      iterStack, levels := iterStack[1..], levels[1..];
      ok := true;
    }

    /** `istack_sublevel_to_current`, at the end of a statement: the sublevel list goes behind that of the
        current level, or at the top is thrown away. */
    method SublevelToCurrent()
      requires Valid()
      modifies this, nodes`next
      ensures Valid() && below == [] && nodes == old(nodes)
      ensures levels == if old(levels) == [] then [] else [old(levels)[0] + old(below)] + old(levels)[1..]
    {
      ghost var l := levels;
      assert below == [] ==> l == [] || [l[0] + below] + l[1..] == l by {
        if l != [] { assert l[0] + [] == l[0]; }
      }
      if iterStack != [] && sublevel.last != null {
        MergeSublevel();
      } else {
        sublevel, below := EMPTY, [];
      }
    }

    method MergeSublevel()
      requires Valid() && levels != []
      modifies this, nodes`next
      ensures Valid() && below == [] && nodes == old(nodes)
      ensures levels == [old(levels)[0] + old(below)] + old(levels)[1..]
    {
      ghost var list := levels[0] + below;
      LastIn(levels[0]);
      MergedApart(levels, below);
      var h := IsnAppend(sublevel, iterStack[0], below, levels[0]);
      assert forall i :: 1 <= i < |levels| ==> Describes(iterStack[i], levels[i]);
      sublevel, below := EMPTY, [];
      hide Describes, AllApart;
      ShowEmpty();
      Replace(h, list);
    }

    lemma ShowEmpty()
      ensures Describes(EMPTY, [])
    {
    }

    /** Give the current level another list. */
    method Replace(h: Head, ghost list: List)
      requires |iterStack| == |levels| > 0 && Describes(sublevel, below) && Describes(h, list)
      requires forall x :: x in below ==> x in nodes
      requires forall i, x :: 1 <= i < |levels| && x in levels[i] ==> x in nodes
      requires forall i :: 1 <= i < |levels| ==> Describes(iterStack[i], levels[i])
      requires AllApart([list] + levels[1..], below) && forall x :: x in list ==> x in nodes
      modifies this`iterStack, this`levels
      ensures Valid() && levels == [list] + old(levels)[1..]
    {
      hide Describes, AllApart;
      iterStack := [h] + iterStack[1..];
      levels := [list] + levels[1..];
    }

    /** `add_ixpansion`: in front of the list of the current level, unless there is none. */
    method AddIxpansion(decl: nat, explicitFor: bool) returns (x: Ixpansion?)
      requires Valid()
      modifies this
      ensures Valid() && below == old(below) && (x == null <==> old(levels) == [])
      ensures x == null ==> levels == []
      ensures x != null ==> fresh(x) && x.decl == decl && x.explicitFor == explicitFor
      ensures x != null ==> levels == [[x] + old(levels)[0]] + old(levels)[1..]
    {
      if iterStack == [] {
        return null;
      }
      x := new Ixpansion(decl, explicitFor, iterStack[0].first);
      ghost var list := [x] + levels[0];
      assert list[1..] == levels[0];
      NewApart(levels, below, x);
      nodes := nodes + {x};
      var h := Head(x, if iterStack[0].last == null then x else iterStack[0].last);
      Replace(h, list);
    }

    /** `delete_ixpansion` */
    method DeleteIxpansion(decl: nat) returns (deleted: List, errors: nat)
      requires Valid()
      modifies this`sublevel, this`below, nodes`next
      ensures Valid() && levels == old(levels) && below == Without(old(below), decl)
      ensures deleted == Implicit(For(old(below), decl)) && errors == |For(old(below), decl)| - |deleted|
    {
      WithoutIn(below, decl);
      sublevel, deleted, errors := DeleteFrom(sublevel, decl, below, set x | x in below);
      below := Without(below, decl);
    }
  }

  /** What was below, moved up, is still in no other list. */
  lemma MergedApart(levels: seq<List>, below: List)
    requires levels != [] && AllApart(levels, below)
    ensures AllApart([levels[0] + below] + levels[1..], [])
    ensures Apart(below, levels[0]) && forall i :: 1 <= i < |levels| ==> Apart(levels[0], levels[i]) && Apart(below, levels[i])
  {
    var new_ := [levels[0] + below] + levels[1..];
    forall j | 0 < j < |new_| ensures Apart(new_[0], new_[j]) {
      assert new_[j] == levels[j];
    }
    forall i, j | 0 < i < j < |new_| ensures Apart(new_[i], new_[j]) {
      assert new_[i] == levels[i] && new_[j] == levels[j];
    }
  }

  lemma NewApart(levels: seq<List>, below: List, x: Ixpansion)
    requires levels != [] && AllApart(levels, below) && x !in below
    requires forall i :: 0 <= i < |levels| ==> x !in levels[i]
    ensures AllApart([[x] + levels[0]] + levels[1..], below)
  {
    var new_ := [[x] + levels[0]] + levels[1..];
    forall j | 0 < j < |new_| ensures Apart(new_[0], new_[j]) {
      assert new_[j] == levels[j];
    }
    forall i, j | 0 < i < j < |new_| ensures Apart(new_[i], new_[j]) {
      assert new_[i] == levels[i] && new_[j] == levels[j];
    }
    forall i | 0 <= i < |new_| ensures Apart(new_[i], below) && Apart(below, new_[i]) {
      assert Apart(levels[i], below) && Apart(below, levels[i]);
    }
  }

  lemma {:induction false} WithoutIn(list: List, decl: nat)
    ensures forall x :: x in Without(list, decl) ==> x in list
  {
    if list != [] {
      WithoutIn(list[1..], decl);
    }
  }
}
