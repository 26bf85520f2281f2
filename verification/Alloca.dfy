/**
 The emulation of `alloca`: a list of blocks with the stack depth at which each was asked for, over runs
 of calls, returns and requests.
 */
module Alloca {
  /** A block, with the number of the call that asked for it and the depth then. */
  datatype Block = Block(owner: nat, deep: int)

  /** Is address `a` further from the base of the stack than `b`? The stack grows up or down. */
  predicate Deeper(up: bool, a: int, b: int) {
    if up then a > b else a < b
  }

  /** The deepest blocks come first. */
  predicate Ordered(up: bool, blocks: seq<Block>) {
    forall i, j :: 0 <= i < j < |blocks| ==> !Deeper(up, blocks[j].deep, blocks[i].deep)
  }

  /** The blocks that are not deeper than `depth`. */
  function NotDeeper(up: bool, blocks: seq<Block>, depth: int): seq<Block> {
    if blocks == [] then []
    else (if Deeper(up, blocks[0].deep, depth) then [] else [blocks[0]]) + NotDeeper(up, blocks[1..], depth)
  }

  function TooDeep(up: bool, blocks: seq<Block>, depth: int): seq<Block> {
    if blocks == [] then []
    else (if Deeper(up, blocks[0].deep, depth) then [blocks[0]] else []) + TooDeep(up, blocks[1..], depth)
  }

  lemma {:induction false} KeptAll(up: bool, blocks: seq<Block>, depth: int)
    requires forall i :: 0 <= i < |blocks| ==> !Deeper(up, blocks[i].deep, depth)
    ensures NotDeeper(up, blocks, depth) == blocks && TooDeep(up, blocks, depth) == []
  {
    if blocks != [] {
      KeptAll(up, blocks[1..], depth);
    }
  }

  lemma {:induction false} Members(up: bool, blocks: seq<Block>, depth: int, b: Block)
    ensures b in NotDeeper(up, blocks, depth) <==> b in blocks && !Deeper(up, b.deep, depth)
    ensures b in TooDeep(up, blocks, depth) <==> b in blocks && Deeper(up, b.deep, depth)
  {
    if blocks != [] {
      Members(up, blocks[1..], depth, b);
      assert blocks == [blocks[0]] + blocks[1..];
    }
  }

  /** In an ordered list the blocks that are too deep come first. */
  lemma {:induction false} SplitAt(up: bool, blocks: seq<Block>, depth: int, k: nat)
    requires Ordered(up, blocks) && k <= |blocks| && (forall i :: 0 <= i < k ==> Deeper(up, blocks[i].deep, depth))
    requires k < |blocks| ==> !Deeper(up, blocks[k].deep, depth)
    ensures NotDeeper(up, blocks, depth) == blocks[k..] && TooDeep(up, blocks, depth) == blocks[..k]
  {
    if k == 0 {
      KeptAll(up, blocks, depth);
    } else {
      SplitAt(up, blocks[1..], depth, k - 1);
      assert blocks[1..][k - 1..] == blocks[k..] && blocks[..k] == [blocks[0]] + blocks[1..][..k - 1];
    }
  }

  // ---------------------------------------------------------------- the list

  class Header {
    var next: Header?
    const block: Block
    const size: nat

    constructor (next: Header?, block: Block, size: nat)
      ensures this.next == next && this.block == block && this.size == size
    {
      this.next, this.block, this.size := next, block, size;
    }
  }

  ghost predicate Linked(first: Header?, chain: seq<Header>)
    reads chain`next
  {
    if chain == [] then first == null
    else first == chain[0] && Linked(chain[0].next, chain[1..])
  }

  ghost function Blocks(chain: seq<Header>): (r: seq<Block>)
    ensures |r| == |chain| && forall i :: 0 <= i < |chain| ==> r[i] == chain[i].block
  {
    seq(|chain|, i requires 0 <= i < |chain| => chain[i].block)
  }

  class Allocator {
    /** Does the stack grow toward higher addresses? */
    const up: bool
    var lastAllocaHeader: Header?
    ghost var chain: seq<Header>
    ghost var freed: seq<Block>

    ghost predicate Valid()
      reads this, chain`next
    {
      Linked(lastAllocaHeader, chain) && Ordered(up, Blocks(chain))
    }

    constructor (up: bool)
      ensures Valid() && this.up == up && chain == [] && freed == []
    {
      this.up, lastAllocaHeader, chain, freed := up, null, [], [];
    }

    /** The reclaiming loop of `alloca`: it stops at the first block that is not deeper, and has then
        freed all that are. */
    method Reclaim(depth: int)
      requires Valid()
      modifies this`lastAllocaHeader, this`chain, this`freed
      ensures Valid() && Blocks(chain) == NotDeeper(up, Blocks(old(chain)), depth)
      ensures freed == old(freed) + TooDeep(up, Blocks(old(chain)), depth)
    {
      var hp := lastAllocaHeader;
      ghost var k := 0;
      while hp != null && Deeper(up, hp.block.deep, depth)
        invariant 0 <= k <= |chain| && Linked(hp, chain[k..])
        invariant forall i :: 0 <= i < k ==> Deeper(up, chain[i].block.deep, depth)
        decreases |chain| - k
      {
        assert chain[k..][1..] == chain[k + 1..];
        hp := hp.next;
        k := k + 1;
      }
      SplitAt(up, Blocks(chain), depth, k);
      lastAllocaHeader := hp;
      freed := freed + Blocks(chain)[..k];
      assert Blocks(chain[k..]) == Blocks(chain)[k..];
      chain := chain[k..];
    }

    /** `alloca`; no block for size zero, which only reclaims. */
    method Alloca(size: nat, depth: int, owner: nat) returns (block: Header?)
      requires Valid()
      modifies this`lastAllocaHeader, this`chain, this`freed
      ensures Valid() && (block == null <==> size == 0) && (block != null ==> fresh(block) && block.size == size)
      ensures Blocks(chain) == Asked(up, Blocks(old(chain)), size, Block(owner, depth))
      ensures freed == old(freed) + TooDeep(up, Blocks(old(chain)), depth)
    {
      AskedOrdered(up, Blocks(chain), size, Block(owner, depth));
      hide NotDeeper, TooDeep, Ordered, Linked;
      Reclaim(depth);
      if size == 0 {
        assert [] + Blocks(chain) == Blocks(chain);
        return null;
      }
      block := Push(Block(owner, depth), size);
    }

    method Push(b: Block, size: nat) returns (block: Header)
      requires Valid() && Ordered(up, [b] + Blocks(chain))
      modifies this`lastAllocaHeader, this`chain
      ensures Valid() && fresh(block) && block.size == size && Blocks(chain) == [b] + Blocks(old(chain))
    {
      ghost var left := chain;
      hide Ordered;
      block := new Header(lastAllocaHeader, b, size);
      lastAllocaHeader := block;
      chain := [block] + chain;
      assert chain[1..] == left && Blocks(chain) == [b] + Blocks(left);
    }
  }

  /** The list after a request. */
  function Asked(up: bool, blocks: seq<Block>, size: nat, b: Block): seq<Block> {
    (if size == 0 then [] else [b]) + NotDeeper(up, blocks, b.deep)
  }

  lemma {:induction false} OrderedKept(up: bool, blocks: seq<Block>, depth: int)
    requires Ordered(up, blocks)
    ensures Ordered(up, NotDeeper(up, blocks, depth))
  {
    if blocks != [] {
      OrderedKept(up, blocks[1..], depth);
      var rest := NotDeeper(up, blocks[1..], depth);
      forall b | b in rest ensures !Deeper(up, b.deep, blocks[0].deep) {
        Members(up, blocks[1..], depth, b);
        var j :| 0 <= j < |blocks[1..]| && blocks[1..][j] == b;
        assert blocks[j + 1] == b;
      }
    }
  }

  lemma AskedOrdered(up: bool, blocks: seq<Block>, size: nat, b: Block)
    requires Ordered(up, blocks)
    ensures Ordered(up, Asked(up, blocks, size, b))
  {
    OrderedKept(up, blocks, b.deep);
    var kept := NotDeeper(up, blocks, b.deep);
    forall x | x in kept ensures !Deeper(up, x.deep, b.deep) {
      Members(up, blocks, b.deep, x);
    }
    assert [] + kept == kept;
    hide NotDeeper;
    NewInFront(up, kept, b);
  }

  /** After a request the list has the new block in front, unless the request is for nothing, and of the
      blocks before exactly those that are not deeper. */
  lemma AskedMembers(up: bool, blocks: seq<Block>, size: nat, b: Block, x: Block)
    ensures x in Asked(up, blocks, size, b) <==> (size > 0 && x == b) || (x in blocks && !Deeper(up, x.deep, b.deep))
    ensures size > 0 ==> Asked(up, blocks, size, b) != [] && Asked(up, blocks, size, b)[0] == b
  {
    Members(up, blocks, b.deep, x);
  }

  lemma NewInFront(up: bool, kept: seq<Block>, b: Block)
    requires Ordered(up, kept) && forall x :: x in kept ==> !Deeper(up, x.deep, b.deep)
    ensures Ordered(up, [b] + kept)
  {
    assert forall i :: 0 <= i < |kept| ==> kept[i] in kept;
  }

  // ---------------------------------------------------------------- runs

  datatype Frame = Frame(id: nat, depth: int)

  /** The calls that are active, innermost last, the blocks kept and those freed. */
  datatype Machine = Machine(up: bool, frames: seq<Frame>, nextId: nat, blocks: seq<Block>, freed: seq<Block>)

  datatype Event = Call(depth: int) | Return | Ask(size: nat)

  /** A call is not shallower than its caller; somebody must be there to return or to ask. */
  predicate Legal(m: Machine, e: Event) {
    match e
    case Call(depth) =>
      m.frames != [] ==>
        var caller := m.frames[|m.frames| - 1].depth;
        if m.up then depth >= caller else depth <= caller
    case _ => m.frames != []
  }

  function Step(m: Machine, e: Event): Machine
    requires Legal(m, e)
  {
    match e
    case Call(depth) => m.(frames := m.frames + [Frame(m.nextId, depth)], nextId := m.nextId + 1)
    case Return => m.(frames := m.frames[..|m.frames| - 1])
    case Ask(size) =>
      var f := m.frames[|m.frames| - 1];
      m.(blocks := Asked(m.up, m.blocks, size, Block(f.id, f.depth)), freed := m.freed + TooDeep(m.up, m.blocks, f.depth))
  }

  predicate LegalRun(m: Machine, run: seq<Event>)
    decreases |run|
  {
    run == [] || (Legal(m, run[0]) && LegalRun(Step(m, run[0]), run[1..]))
  }

  function Run(m: Machine, run: seq<Event>): Machine
    requires LegalRun(m, run)
    decreases |run|
  {
    if run == [] then m else Run(Step(m, run[0]), run[1..])
  }

  ghost predicate Active(m: Machine, id: nat) {
    exists i :: 0 <= i < |m.frames| && m.frames[i].id == id
  }

  /** The list is ordered, the blocks of active calls have the depth of their call, and no freed block
      belongs to an active call. */
  ghost predicate Inv(m: Machine) {
    && Ordered(m.up, m.blocks)
    && (forall i, j :: 0 <= i < j < |m.frames| ==> !Deeper(m.up, m.frames[i].depth, m.frames[j].depth))
    && (forall i :: 0 <= i < |m.frames| ==> m.frames[i].id < m.nextId)
    && (forall i, j :: 0 <= i < j < |m.frames| ==> m.frames[i].id < m.frames[j].id)
    && (forall b :: b in m.blocks ==> b.owner < m.nextId)
    && (forall b, i :: b in m.blocks && 0 <= i < |m.frames| && m.frames[i].id == b.owner ==> b.deep == m.frames[i].depth)
    && (forall b :: b in m.freed ==> b.owner < m.nextId && !Active(m, b.owner))
  }

  function Depth(m: Machine): int
    requires m.frames != []
  {
    m.frames[|m.frames| - 1].depth
  }

  lemma StepKeeps(m: Machine, e: Event)
    requires Inv(m) && Legal(m, e)
    ensures Inv(Step(m, e))
    ensures e.Ask? ==> forall b :: b in Step(m, e).blocks ==> !Deeper(m.up, b.deep, Depth(m))
  {
    match e
    case Call(depth) => CallKeeps(m, e);
    case Return => ReturnKeeps(m, e);
    case Ask(size) =>
      var f := m.frames[|m.frames| - 1];
      forall b | b in NotDeeper(m.up, m.blocks, f.depth) ensures b in m.blocks && !Deeper(m.up, b.deep, f.depth) {
        Members(m.up, m.blocks, f.depth, b);
      }
      OrderedKept(m.up, m.blocks, f.depth);
      AskFrees(m, e);
      AskOrdered(m, e);
  }

  lemma CallKeeps(m: Machine, e: Event)
    requires Inv(m) && e.Call? && Legal(m, e)
    ensures Inv(Step(m, e))
  {
  }

  lemma ReturnKeeps(m: Machine, e: Event)
    requires Inv(m) && e.Return? && Legal(m, e)
    ensures Inv(Step(m, e))
  {
  }

  /** What a request frees belongs to calls that have returned. */
  lemma AskFrees(m: Machine, e: Event)
    requires Inv(m) && e.Ask? && Legal(m, e)
    ensures var n := Step(m, e); forall b :: b in n.freed ==> b.owner < n.nextId && !Active(n, b.owner)
  {
    var f := m.frames[|m.frames| - 1];
    forall b | b in TooDeep(m.up, m.blocks, f.depth) ensures b.owner < m.nextId && !Active(m, b.owner) {
      Members(m.up, m.blocks, f.depth, b);
    }
  }

  lemma AskOrdered(m: Machine, e: Event)
    requires Inv(m) && e.Ask? && Legal(m, e)
    requires Ordered(m.up, NotDeeper(m.up, m.blocks, Depth(m)))
    requires forall b :: b in NotDeeper(m.up, m.blocks, Depth(m)) ==> b in m.blocks && !Deeper(m.up, b.deep, Depth(m))
    ensures Ordered(m.up, Step(m, e).blocks)
    ensures forall b :: b in Step(m, e).blocks ==> b.owner < m.nextId && !Deeper(m.up, b.deep, Depth(m))
    ensures forall b, i :: b in Step(m, e).blocks && 0 <= i < |m.frames| && m.frames[i].id == b.owner ==> b.deep == m.frames[i].depth
  {
  }

  /** Over every run the list stays ordered and no block of a call that is still active is freed. */
  lemma {:induction false} RunKeeps(m: Machine, run: seq<Event>)
    requires Inv(m) && LegalRun(m, run)
    ensures Inv(Run(m, run))
    decreases |run|
  {
    if run != [] {
      StepKeeps(m, run[0]);
      RunKeeps(Step(m, run[0]), run[1..]);
    }
  }

  // ---------------------------------------------------------------- no block is lost

  lemma {:induction false} Divided(up: bool, blocks: seq<Block>, depth: int)
    ensures multiset(blocks) == multiset(NotDeeper(up, blocks, depth)) + multiset(TooDeep(up, blocks, depth))
  {
    if blocks != [] {
      Divided(up, blocks[1..], depth);
      assert blocks == [blocks[0]] + blocks[1..];
    }
  }

  /** The blocks that the requests of a run are answered with. */
  function Requested(m: Machine, run: seq<Event>): multiset<Block>
    requires LegalRun(m, run)
    decreases |run|
  {
    if run == [] then multiset{}
    else
      (match run[0]
       case Ask(size) =>
         var f := m.frames[|m.frames| - 1];
         if size > 0 then multiset{Block(f.id, f.depth)} else multiset{}
       case _ => multiset{}) + Requested(Step(m, run[0]), run[1..])
  }

  lemma AskConserves(m: Machine, size: nat)
    requires m.frames != []
    ensures var f := m.frames[|m.frames| - 1]; var t := Step(m, Ask(size));
      multiset(t.blocks) + multiset(t.freed) == multiset(m.blocks) + multiset(m.freed)
        + (if size > 0 then multiset{Block(f.id, f.depth)} else multiset{})
  {
    Divided(m.up, m.blocks, m.frames[|m.frames| - 1].depth);
  }

  /** Over every run each block is either still in the list or freed, once. */
  lemma {:induction false} RunConserves(m: Machine, run: seq<Event>)
    requires LegalRun(m, run)
    ensures var t := Run(m, run);
      multiset(t.blocks) + multiset(t.freed) == multiset(m.blocks) + multiset(m.freed) + Requested(m, run)
    decreases |run|
  {
    if run != [] {
      var s := Step(m, run[0]);
      RunConserves(s, run[1..]);
      if run[0].Ask? {
        AskConserves(m, run[0].size);
      }
    }
  }

  /** What a deeper call has asked for is freed by the next request of its caller, which finds itself on top
      again. */
  lemma CalleeReclaimed(m: Machine, depth: int, size: nat, next: nat)
    requires m.frames != [] && (if m.up then depth > Depth(m) else depth < Depth(m)) && size > 0
    ensures Legal(m, Call(depth)) && Legal(Step(m, Call(depth)), Ask(size)) && Legal(Step(Step(m, Call(depth)), Ask(size)), Return)
    ensures var n := Step(Step(Step(Step(m, Call(depth)), Ask(size)), Return), Ask(next)); var b := Block(m.nextId, depth);
      n.frames == m.frames && b !in n.blocks && b in n.freed
  {
    CalleeAsks(m, depth, size);
    hide Step;
    CallerAsks(Step(Step(Step(m, Call(depth)), Ask(size)), Return), Block(m.nextId, depth), next);
  }

  lemma CalleeAsks(m: Machine, depth: int, size: nat)
    requires m.frames != [] && (if m.up then depth > Depth(m) else depth < Depth(m)) && size > 0
    ensures Legal(m, Call(depth))
    ensures var m1 := Step(m, Call(depth)); var m2 := Step(m1, Ask(size)); var m3 := Step(m2, Return);
      && Legal(m1, Ask(size)) && Legal(m2, Return) && m3.up == m.up && m3.frames == m.frames && Block(m.nextId, depth) in m3.blocks
  {
    var m1 := Step(m, Call(depth));
    AskedMembers(m1.up, m1.blocks, size, Block(m.nextId, depth), Block(m.nextId, depth));
    hide Asked, TooDeep;
  }

  lemma CallerAsks(m: Machine, b: Block, size: nat)
    requires m.frames != [] && b in m.blocks && (if m.up then b.deep > Depth(m) else b.deep < Depth(m))
    ensures var n := Step(m, Ask(size)); b !in n.blocks && b in n.freed && n.frames == m.frames
  {
    var f := m.frames[|m.frames| - 1];
    Members(m.up, m.blocks, Depth(m), b);
    AskedMembers(m.up, m.blocks, size, Block(f.id, f.depth), b);
    hide Asked, TooDeep;
  }
}
