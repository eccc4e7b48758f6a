/** Whole runs of the heap against an abstract heap that is a map from bases to blocks. */
module HeapRefinement {
  import opened Ir
  import opened Heap

  /** The live blocks by their base, and the base of the next one. */
  datatype Blocks = Blocks(live: map<nat, seq<u64>>, next: nat)

  datatype Given = Given(blocks: Blocks, address: u64)

  const Nothing := Blocks(map[], 0)

  function GiveBlock(b: Blocks, maxSlots: nat, n: u64, contents: seq<u64>): Option<Given> {
    if b.next + n > maxSlots || b.next >= TWO59 then None
    else Some(Given(Blocks(b.live[b.next := contents], b.next + n), Address(b.next)))
  }

  predicate IsBase(b: Blocks, a: u64) { IsHeapAddress(a) && Index(a) in b.live }

  function Drop(b: Blocks, a: u64): Blocks
    requires IsBase(b, a)
  {
    b.(live := b.live - {Index(a)})
  }

  /** The blocks with one slot changed, that of the block it lies in. */
  function Put(live: map<nat, seq<u64>>, index: nat, v: u64): map<nat, seq<u64>> {
    map c | c in live :: if c <= index < c + |live[c]| then live[c][index - c := v] else live[c]
  }

  function AllocAct(b: Blocks, maxSlots: nat, n: u64): Option<Given> {
    if n == 0 then Some(Given(b, 0)) else GiveBlock(b, maxSlots, n, Zeros(n))
  }

  function FreeAct(b: Blocks, a: u64): Option<Given> {
    if a == 0 then Some(Given(b, 0)) else if IsBase(b, a) then Some(Given(Drop(b, a), 0)) else None
  }

  /** An operation on the abstract heap, the address it gives out, and None for a fault. */
  ghost function Act(b: Blocks, maxSlots: nat, op: Op): Option<Given> {
    match op
    case AllocOp(n) => AllocAct(b, maxSlots, n)
    case FreeOp(a) => FreeAct(b, a)
    case StoreOp(a, v) =>
      if IsHeapAddress(a) && exists c: nat :: InBlock(b.live, c, Index(a))
      then Some(Given(b.(live := Put(b.live, Index(a), v)), 0))
      else None
    case ReallocOp(a, n) =>
      if a == 0 then AllocAct(b, maxSlots, n)
      else if n == 0 then FreeAct(b, a)
      else if !IsBase(b, a) then None
      else
        match GiveBlock(Drop(b, a), maxSlots, n, Resize(b.live[Index(a)], n))
        case None => Some(Given(b, 0))
        case Some(g) => Some(g)
  }

  /** The abstract heap behind a sequence of operations, up to the first fault. */
  ghost function RunBlocks(b: Blocks, maxSlots: nat, ops: seq<Op>): Blocks
    decreases |ops|
  {
    if ops == [] then b
    else match Act(b, maxSlots, ops[0]) case None => b case Some(g) => RunBlocks(g.blocks, maxSlots, ops[1..])
  }

  /** What a program sees of the operations: the addresses given out, and a fault at the end. */
  function Replies(h: Heap, maxSlots: nat, ops: seq<Op>): seq<Option<u64>>
    decreases |ops|
  {
    if ops == [] then []
    else match Step(h, maxSlots, ops[0]) case None => [None] case Some(p) => [Some(p.address)] + Replies(p.heap, maxSlots, ops[1..])
  }

  ghost function BlockReplies(b: Blocks, maxSlots: nat, ops: seq<Op>): seq<Option<u64>>
    decreases |ops|
  {
    if ops == [] then []
    else match Act(b, maxSlots, ops[0]) case None => [None] case Some(g) => [Some(g.address)] + BlockReplies(g.blocks, maxSlots, ops[1..])
  }

  /** What a load through an address yields. */
  function Load(h: Heap, a: u64): Option<u64> {
    match Resolve(h, a) case None => None case Some(i) => if i < |h.slots| then Some(h.slots[i]) else None
  }

  // ----- one operation -----

  ghost predicate Refines(h: Heap, b: Blocks) { Tiled(h) && Represents(h, b.live) && |h.slots| == b.next }

  lemma {:induction false} OneBlockHolds(h: Heap, live: map<nat, seq<u64>>, c: nat, e: nat, index: nat)
    requires Tiled(h) && Represents(h, live) && InBlock(live, c, index) && InBlock(live, e, index)
    ensures c == e
  {
    hide Tiled, Represents, Contents;
    var i := BlockOf(h, c, live);
    var j := BlockOf(h, e, live);
    if i != j {
      BlocksApart(h, i, j);
    }
  }

  lemma {:induction false} PutIsSetSlot(h: Heap, live: map<nat, seq<u64>>, c: nat, index: nat, v: u64)
    requires Tiled(h) && Represents(h, live) && InBlock(live, c, index)
    ensures Put(live, index, v) == SetSlot(live, c, index - c, v)
  {
    hide Tiled, Represents;
    var r := SetSlot(live, c, index - c, v);
    forall e | e in live
      ensures Put(live, index, v)[e] == r[e]
    {
      if InBlock(live, e, index) {
        OneBlockHolds(h, live, c, e, index);
        assert live[c][index - c := v] == live[c][..index - c] + [v] + live[c][index - c + 1..];
      }
    }
  }

  lemma {:induction false} StoreActs(h: Heap, b: Blocks, a: u64, v: u64)
    requires Refines(h, b)
    ensures Store(h, a, v).Some? <==> IsHeapAddress(a) && exists c: nat :: InBlock(b.live, c, Index(a))
    ensures Store(h, a, v).Some? ==> Refines(Store(h, a, v).value, b.(live := Put(b.live, Index(a), v)))
  {
    hide Tiled, Represents, Resolve, Index, IsHeapAddress, Put, SetSlot;
    ResolveIsExact(h, a, b.live);
    if Store(h, a, v).Some? {
      var c: nat :| InBlock(b.live, c, Index(a));
      StoreRefines(h, a, v, c, b.live);
      PutIsSetSlot(h, b.live, c, Index(a), v);
    }
  }

  lemma {:induction false} AllocActs(h: Heap, b: Blocks, maxSlots: nat, n: u64)
    requires Refines(h, b) && n > 0
    ensures Alloc(h, maxSlots, n).Some? <==> GiveBlock(b, maxSlots, n, Zeros(n)).Some?
    ensures Alloc(h, maxSlots, n).Some? ==>
              var p, g := Alloc(h, maxSlots, n).value, GiveBlock(b, maxSlots, n, Zeros(n)).value;
              p.address == g.address && Refines(p.heap, g.blocks)
  {
    hide Tiled, Represents, Address;
    if Alloc(h, maxSlots, n).Some? {
      AllocRefines(h, maxSlots, n, b.live);
    }
  }

  lemma {:induction false} FreeActs(h: Heap, b: Blocks, a: u64)
    requires Refines(h, b) && a != 0
    ensures Free(h, a).Some? <==> IsBase(b, a)
    ensures Free(h, a).Some? ==> Refines(Free(h, a).value, Drop(b, a))
  {
    hide Tiled, Represents, Index, IsHeapAddress;
    FreeRefines(h, a, b.live);
  }

  lemma {:induction false} ReallocKeepsSize(h: Heap, maxSlots: nat, a: u64, n: u64)
    requires a != 0 && n > 0 && Realloc(h, maxSlots, a, n).Some? && |h.slots| + n <= maxSlots && |h.slots| < TWO59
    ensures |Realloc(h, maxSlots, a, n).value.heap.slots| == |h.slots| + n
  {
    hide Address, Index, IsHeapAddress, FindLive;
  }

  lemma {:induction false} ReallocActs(h: Heap, b: Blocks, maxSlots: nat, a: u64, n: u64)
    requires Refines(h, b) && a != 0 && n > 0
    ensures Realloc(h, maxSlots, a, n).Some? <==> Act(b, maxSlots, ReallocOp(a, n)).Some?
    ensures Realloc(h, maxSlots, a, n).Some? ==>
              var p, g := Realloc(h, maxSlots, a, n).value, Act(b, maxSlots, ReallocOp(a, n)).value;
              p.address == g.address && Refines(p.heap, g.blocks)
  {
    hide Tiled, Represents, Realloc, Index, IsHeapAddress, Address, Resize;
    ReallocRefines(h, maxSlots, a, n, b.live);
    if Realloc(h, maxSlots, a, n).Some? && |h.slots| + n <= maxSlots && |h.slots| < TWO59 {
      ReallocKeepsSize(h, maxSlots, a, n);
    }
  }

  lemma {:induction false} StepActs(h: Heap, b: Blocks, maxSlots: nat, op: Op)
    requires Refines(h, b)
    ensures Step(h, maxSlots, op).Some? <==> Act(b, maxSlots, op).Some?
    ensures Step(h, maxSlots, op).Some? ==>
              var p, g := Step(h, maxSlots, op).value, Act(b, maxSlots, op).value;
              p.address == g.address && Refines(p.heap, g.blocks)
  {
    hide Refines, FindLive, Kill, Store, Put, Index, IsHeapAddress, GiveBlock;
    match op
    case AllocOp(n) => if n > 0 { AllocActs(h, b, maxSlots, n); }
    case FreeOp(a) => if a != 0 { FreeActs(h, b, a); }
    case StoreOp(a, v) => StoreActs(h, b, a, v);
    case ReallocOp(a, n) =>
      if a == 0 {
        if n > 0 { AllocActs(h, b, maxSlots, n); }
      } else if n == 0 {
        FreeActs(h, b, a);
      } else {
        ReallocActs(h, b, maxSlots, a, n);
      }
  }

  // ----- whole runs -----

  lemma {:induction false} RunActs(h: Heap, b: Blocks, maxSlots: nat, ops: seq<Op>)
    requires Refines(h, b)
    ensures Refines(RunOps(h, maxSlots, ops), RunBlocks(b, maxSlots, ops))
    ensures Replies(h, maxSlots, ops) == BlockReplies(b, maxSlots, ops)
    decreases |ops|
  {
    hide Refines, Step, Act;
    if ops != [] {
      StepActs(h, b, maxSlots, ops[0]);
      if Step(h, maxSlots, ops[0]).Some? {
        RunActs(Step(h, maxSlots, ops[0]).value.heap, Act(b, maxSlots, ops[0]).value.blocks, maxSlots, ops[1..]);
      }
    }
  }

  /** Over every sequence of operations from the empty heap, the addresses given out and the
      faults are those of the abstract heap, and the concrete heap represents the blocks it ends
      with: a load through an address yields the slot of the block it lies in, and nothing else. */
  lemma {:induction false} HeapRefinesBlocks(maxSlots: nat, ops: seq<Op>, a: u64)
    ensures Replies(Empty, maxSlots, ops) == BlockReplies(Nothing, maxSlots, ops)
    ensures var h, live := RunOps(Empty, maxSlots, ops), RunBlocks(Nothing, maxSlots, ops).live;
            && Tiled(h) && Represents(h, live)
            && (Load(h, a).Some? <==> IsHeapAddress(a) && exists c: nat :: InBlock(live, c, Index(a)))
            && (IsHeapAddress(a) ==> forall c: nat :: InBlock(live, c, Index(a)) ==> Load(h, a) == Some(live[c][Index(a) - c]))
  {
    hide RunOps, RunBlocks, Replies, BlockReplies, Tiled, Represents, Index, IsHeapAddress, Resolve;
    EmptyIsTiled();
    RunActs(Empty, Nothing, maxSlots, ops);
    ResolveIsExact(RunOps(Empty, maxSlots, ops), a, RunBlocks(Nothing, maxSlots, ops).live);
  }
}
