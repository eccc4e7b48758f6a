/** The heap of an emitted program: a growing vector of slots, a table of the blocks cut
    from it, and tagged addresses. Values first; the runtime itself is in HeapRuntime. */
module Heap {
  import opened Ir

  datatype Allocation = Allocation(base: nat, count: nat, live: bool)

  datatype Heap = Heap(slots: seq<u64>, allocations: seq<Allocation>)

  const Empty := Heap([], [])

  // ----- addresses -----

  /** Sixteen bytes to a slot, and the top bit set. */
  function Address(index: nat): u64
    requires index < TWO59
  {
    TWO63 + index * 16
  }

  predicate IsHeapAddress(a: u64) { a >= TWO63 && a % 16 == 0 }

  function Index(a: u64): nat
    requires IsHeapAddress(a)
  {
    (a - TWO63) / 16
  }

  lemma {:induction false} AddressRoundTrip(index: nat, a: u64)
    requires index < TWO59
    ensures IsHeapAddress(Address(index)) && Index(Address(index)) == index
    ensures IsHeapAddress(a) ==> Index(a) < TWO59 && Address(Index(a)) == a
  {
  }

  /** The first slot is at 2^63, and every next one sixteen bytes further. */
  lemma {:induction false} AddressesAscend(index: nat)
    requires index + 1 < TWO59
    ensures Address(0) == 0x8000_0000_0000_0000 && Address(index + 1) == Address(index) + 16
  {
  }

  // ----- operations -----

  predicate Covers(x: Allocation, index: nat) { x.live && x.base <= index < x.base + x.count }

  function Resolve(h: Heap, a: u64): Option<nat> {
    if !IsHeapAddress(a) || Index(a) >= |h.slots| then None
    else if exists x :: x in h.allocations && Covers(x, Index(a)) then Some(Index(a))
    else None
  }

  datatype Placed = Placed(heap: Heap, address: u64)

  /** Allocation fails when the vector cannot grow or its end is past the last address. */
  function Alloc(h: Heap, maxSlots: nat, n: u64): Option<Placed> {
    if n == 0 then Some(Placed(h, 0))
    else if |h.slots| + n > maxSlots || |h.slots| >= TWO59 then None
    else Some(Placed(Heap(h.slots + Zeros(n), h.allocations + [Allocation(|h.slots|, n, true)]), Address(|h.slots|)))
  }

  /** The first entry of the table that starts at `base`, or the length of the table. */
  function FindBase(t: seq<Allocation>, base: nat): (k: nat)
    ensures k <= |t|
    ensures k < |t| ==> t[k].base == base
    ensures forall j :: 0 <= j < k ==> t[j].base != base
  {
    if t == [] || t[0].base == base then 0 else 1 + FindBase(t[1..], base)
  }

  function ZeroRange(s: seq<u64>, base: nat, count: nat): (r: seq<u64>)
    requires base + count <= |s|
    ensures |r| == |s|
    ensures forall k :: 0 <= k < |s| ==> r[k] == if base <= k < base + count then 0 else s[k]
  {
    s[..base] + Zeros(count) + s[base + count..]
  }

  function CopyRange(s: seq<u64>, from: nat, to: nat, count: nat): (r: seq<u64>)
    requires from + count <= |s| && to + count <= |s|
    ensures |r| == |s|
    ensures forall k :: 0 <= k < |s| ==> r[k] == if to <= k < to + count then s[from + (k - to)] else s[k]
  {
    s[..to] + s[from..from + count] + s[to + count..]
  }

  /** The table entry an address may be freed or moved by: the first with its base, if it
      is live and lies within the vector. */
  function FindLive(h: Heap, a: u64): (r: Option<nat>)
    ensures r.Some? ==>
              && r.value < |h.allocations| && IsHeapAddress(a)
              && h.allocations[r.value].base == Index(a) && h.allocations[r.value].live
              && h.allocations[r.value].base + h.allocations[r.value].count <= |h.slots|
  {
    if !IsHeapAddress(a) then None
    else
      var k := FindBase(h.allocations, Index(a));
      if k == |h.allocations| || !h.allocations[k].live ||
         h.allocations[k].base + h.allocations[k].count > |h.slots| then None
      else Some(k)
  }

  function Kill(h: Heap, k: nat): Heap
    requires k < |h.allocations| && h.allocations[k].base + h.allocations[k].count <= |h.slots|
  {
    var x := h.allocations[k];
    Heap(ZeroRange(h.slots, x.base, x.count), h.allocations[k := x.(live := false)])
  }

  function Free(h: Heap, a: u64): Option<Heap> {
    if a == 0 then Some(h)
    else
      match FindLive(h, a)
      case None => None
      case Some(k) => Some(Kill(h, k))
  }

  /** A failed growth is reported as address 0 and leaves the block as it was. */
  function Realloc(h: Heap, maxSlots: nat, a: u64, n: u64): Option<Placed> {
    if a == 0 then Alloc(h, maxSlots, n)
    else if n == 0 then
      match Free(h, a)
      case None => None
      case Some(h') => Some(Placed(h', 0))
    else
      match FindLive(h, a)
      case None => None
      case Some(k) =>
        match Alloc(h, maxSlots, n)
        case None => Some(Placed(h, 0))
        case Some(p) =>
          var x := h.allocations[k];
          var copied := CopyRange(p.heap.slots, x.base, |h.slots|, if x.count < n then x.count else n);
          Some(Placed(Kill(p.heap.(slots := copied), k), p.address))
  }

  /** A store through an address. */
  function Store(h: Heap, a: u64, v: u64): Option<Heap> {
    match Resolve(h, a)
    case None => None
    case Some(i) => Some(h.(slots := h.slots[i := v]))
  }

  // ----- the invariant -----

  /** Where entry `i` of the table has to start: behind the entry before it. */
  function Start(t: seq<Allocation>, i: nat): nat
    requires i <= |t|
  {
    if i == 0 then 0 else t[i - 1].base + t[i - 1].count
  }

  predicate Fits(t: seq<Allocation>, i: nat)
    requires i < |t|
  {
    t[i].base == Start(t, i) && t[i].count > 0 && t[i].base < TWO59
  }

  predicate IsZero(s: seq<u64>, base: nat, count: nat) {
    forall k :: base <= k < base + count && k < |s| ==> s[k] == 0
  }

  /** The table tiles the vector, block behind block, and dead blocks hold zeros. */
  predicate Tiled(h: Heap) {
    && (forall i: nat :: i < |h.allocations| ==> Fits(h.allocations, i))
    && |h.slots| == Start(h.allocations, |h.allocations|)
    && (forall i :: 0 <= i < |h.allocations| && !h.allocations[i].live ==>
          IsZero(h.slots, h.allocations[i].base, h.allocations[i].count))
  }

  lemma {:induction false} BasesIncrease(h: Heap, i: nat, j: nat)
    requires Tiled(h) && i < j < |h.allocations|
    ensures h.allocations[i].base + h.allocations[i].count <= h.allocations[j].base
    decreases j
  {
    assert Fits(h.allocations, j) && Fits(h.allocations, j - 1);
    if i < j - 1 {
      BasesIncrease(h, i, j - 1);
    }
  }

  lemma {:induction false} BlockInRange(h: Heap, i: nat)
    requires Tiled(h) && i < |h.allocations|
    ensures h.allocations[i].base + h.allocations[i].count <= |h.slots|
    ensures h.allocations[i].base < |h.slots| && h.allocations[i].base < TWO59
  {
    assert Fits(h.allocations, i);
    if i < |h.allocations| - 1 {
      BasesIncrease(h, i, |h.allocations| - 1);
    }
  }

  /** Blocks are apart, whichever comes first. */
  lemma {:induction false} BlocksApart(h: Heap, i: nat, j: nat)
    requires Tiled(h) && i < |h.allocations| && j < |h.allocations| && i != j
    ensures || h.allocations[i].base + h.allocations[i].count <= h.allocations[j].base
            || h.allocations[j].base + h.allocations[j].count <= h.allocations[i].base
    ensures h.allocations[i].base != h.allocations[j].base
  {
    assert Fits(h.allocations, i) && Fits(h.allocations, j);
    if i < j { BasesIncrease(h, i, j); } else { BasesIncrease(h, j, i); }
  }

  /** Bases are unique, so looking one up finds it. */
  lemma {:induction false} FindBaseFinds(h: Heap, i: nat)
    requires Tiled(h) && i < |h.allocations|
    ensures FindBase(h.allocations, h.allocations[i].base) == i
  {
    var k := FindBase(h.allocations, h.allocations[i].base);
    if k < i {
      BlocksApart(h, k, i);
    }
  }

  // ----- the heap as a map of blocks -----

  function Contents(h: Heap, i: nat): (s: seq<u64>)
    requires Tiled(h) && i < |h.allocations|
    ensures |s| == h.allocations[i].count && h.allocations[i].base + |s| <= |h.slots|
    ensures forall k :: 0 <= k < |s| ==> s[k] == h.slots[h.allocations[i].base + k]
  {
    BlockInRange(h, i);
    h.slots[h.allocations[i].base..h.allocations[i].base + h.allocations[i].count]
  }

  predicate IsBlock(h: Heap, i: nat, base: nat) {
    i < |h.allocations| && h.allocations[i].live && h.allocations[i].base == base
  }

  /** The abstract heap: the contents of every live block, by the slot it starts at. */
  ghost predicate Represents(h: Heap, blocks: map<nat, seq<u64>>)
    requires Tiled(h)
  {
    && (forall i: nat :: i < |h.allocations| && h.allocations[i].live ==>
          h.allocations[i].base in blocks && blocks[h.allocations[i].base] == Contents(h, i))
    && (forall b :: b in blocks ==> exists i: nat :: IsBlock(h, i, b))
  }

  lemma {:induction false} EmptyIsTiled()
    ensures Tiled(Empty) && Represents(Empty, map[])
  {
  }

  // ----- allocation adds a fresh zeroed block -----

  lemma {:induction false} AllocKeepsTiled(h: Heap, maxSlots: nat, n: u64)
    requires Tiled(h) && n > 0 && Alloc(h, maxSlots, n).Some?
    ensures Tiled(Alloc(h, maxSlots, n).value.heap)
  {
    hide Address;
    var h' := Alloc(h, maxSlots, n).value.heap;
    forall i | 0 <= i < |h'.allocations| && !h'.allocations[i].live
      ensures IsZero(h'.slots, h'.allocations[i].base, h'.allocations[i].count)
    {
      BlockInRange(h, i);
      assert IsZero(h.slots, h.allocations[i].base, h.allocations[i].count);
    }
    forall i: nat | i < |h'.allocations|
      ensures Fits(h'.allocations, i)
    {
      assert i < |h.allocations| ==> Fits(h.allocations, i);
    }
  }

  /** The new block does not overlap any block there has ever been. */
  lemma {:induction false} AllocRefines(h: Heap, maxSlots: nat, n: u64, blocks: map<nat, seq<u64>>)
    requires Tiled(h) && Represents(h, blocks) && n > 0 && |h.slots| + n <= maxSlots && |h.slots| < TWO59
    ensures Alloc(h, maxSlots, n).Some? && Tiled(Alloc(h, maxSlots, n).value.heap)
    ensures Alloc(h, maxSlots, n).value.address == Address(|h.slots|)
    ensures |h.slots| !in blocks
    ensures forall i :: 0 <= i < |h.allocations| ==> h.allocations[i].base + h.allocations[i].count <= |h.slots|
    ensures Represents(Alloc(h, maxSlots, n).value.heap, blocks[|h.slots| := Zeros(n)])
  {
    hide Address, Tiled, Contents;
    var h' := Alloc(h, maxSlots, n).value.heap;
    var m := |h.allocations|;
    AllocKeepsTiled(h, maxSlots, n);
    forall i | 0 <= i < m
      ensures h.allocations[i].base < |h.slots| && Contents(h', i) == Contents(h, i)
    {
      BlockInRange(h, i);
    }
    assert Contents(h', m) == Zeros(n);
    forall b | b in blocks
      ensures exists i: nat :: IsBlock(h', i, b)
    {
      var i: nat :| IsBlock(h, i, b);
      assert IsBlock(h', i, b);
    }
    assert IsBlock(h', m, |h.slots|);
  }

  // ----- freeing removes one -----

  lemma {:induction false} KillKeepsTiled(h: Heap, k: nat)
    requires Tiled(h) && k < |h.allocations|
    ensures h.allocations[k].base + h.allocations[k].count <= |h.slots| && Tiled(Kill(h, k))
  {
    BlockInRange(h, k);
    var h' := Kill(h, k);
    forall i | 0 <= i < |h'.allocations| && !h'.allocations[i].live
      ensures IsZero(h'.slots, h'.allocations[i].base, h'.allocations[i].count)
    {
      assert i != k ==> IsZero(h.slots, h.allocations[i].base, h.allocations[i].count);
    }
    forall i: nat | i < |h'.allocations|
      ensures Fits(h'.allocations, i)
    {
      assert Fits(h.allocations, i);
    }
  }

  /** Killing a block leaves the contents of every other one. */
  lemma {:induction false} KillContents(h: Heap, k: nat, i: nat)
    requires Tiled(h) && k < |h.allocations| && i < |h.allocations| && i != k
    requires h.allocations[k].base + h.allocations[k].count <= |h.slots| && Tiled(Kill(h, k))
    ensures Contents(Kill(h, k), i) == Contents(h, i)
  {
    hide Tiled;
    BlocksApart(h, i, k);
  }

  lemma {:induction false} KillRefines(h: Heap, k: nat, blocks: map<nat, seq<u64>>)
    requires Tiled(h) && Represents(h, blocks) && k < |h.allocations| && h.allocations[k].live
    requires h.allocations[k].base + h.allocations[k].count <= |h.slots| && Tiled(Kill(h, k))
    ensures Represents(Kill(h, k), blocks - {h.allocations[k].base})
  {
    hide Tiled, Contents, ZeroRange;
    var h', a := Kill(h, k), h.allocations[k].base;
    forall i: nat | i < |h'.allocations| && h'.allocations[i].live
      ensures h'.allocations[i].base in blocks - {a} && (blocks - {a})[h'.allocations[i].base] == Contents(h', i)
    {
      BlocksApart(h, i, k);
      KillContents(h, k, i);
    }
    forall b | b in blocks - {a}
      ensures exists i: nat :: IsBlock(h', i, b)
    {
      var i: nat :| IsBlock(h, i, b);
      assert IsBlock(h', i, b);
    }
  }

  /** An address can be freed or moved exactly if it names a live block. */
  lemma {:induction false} FindLiveFinds(h: Heap, a: u64, blocks: map<nat, seq<u64>>)
    requires Tiled(h) && Represents(h, blocks)
    ensures FindLive(h, a).Some? <==> IsHeapAddress(a) && Index(a) in blocks
  {
    hide Index, IsHeapAddress;
    if IsHeapAddress(a) && Index(a) in blocks {
      var i: nat :| IsBlock(h, i, Index(a));
      FindBaseFinds(h, i);
      BlockInRange(h, i);
    }
  }

  lemma {:induction false} FreeRefines(h: Heap, a: u64, blocks: map<nat, seq<u64>>)
    requires Tiled(h) && Represents(h, blocks) && a != 0
    ensures Free(h, a).Some? <==> IsHeapAddress(a) && Index(a) in blocks
    ensures Free(h, a).Some? ==> Tiled(Free(h, a).value) && Represents(Free(h, a).value, blocks - {Index(a)})
  {
    hide Tiled, Represents, Kill, FindLive, Index, IsHeapAddress;
    FindLiveFinds(h, a, blocks);
    if FindLive(h, a).Some? {
      var k := FindLive(h, a).value;
      KillKeepsTiled(h, k);
      KillRefines(h, k, blocks);
    }
  }

  // ----- resolving and storing -----

  /** The live block that holds a slot. */
  ghost predicate InBlock(blocks: map<nat, seq<u64>>, b: nat, index: nat) {
    b in blocks && b <= index < b + |blocks[b]|
  }

  /** An address resolves exactly if its slot lies in a live block, and then to that slot. */
  lemma {:induction false} ResolveIsExact(h: Heap, a: u64, blocks: map<nat, seq<u64>>)
    requires Tiled(h) && Represents(h, blocks)
    ensures Resolve(h, a).Some? <==> IsHeapAddress(a) && exists b: nat :: InBlock(blocks, b, Index(a))
    ensures Resolve(h, a).Some? ==> Resolve(h, a).value == Index(a) < |h.slots|
    ensures forall b: nat, i: nat :: InBlock(blocks, b, i) ==> i < |h.slots| && h.slots[i] == blocks[b][i - b]
  {
    hide Index, IsHeapAddress, Tiled;
    forall b: nat, i: nat | InBlock(blocks, b, i)
      ensures i < |h.slots| && h.slots[i] == blocks[b][i - b]
      ensures exists x :: x in h.allocations && Covers(x, i)
    {
      var j: nat :| IsBlock(h, j, b);
      assert blocks[b] == Contents(h, j);
      assert h.allocations[j] in h.allocations && Covers(h.allocations[j], i);
    }
    if Resolve(h, a).Some? {
      var x: Allocation :| x in h.allocations && Covers(x, Index(a));
      var i: nat :| i < |h.allocations| && h.allocations[i] == x;
      assert InBlock(blocks, x.base, Index(a));
    }
  }

  /** In a heap of at most 2^59 slots every slot of every live block has an address. */
  lemma {:induction false} EverySlotIsAddressable(h: Heap, blocks: map<nat, seq<u64>>, b: nat, index: nat)
    requires Tiled(h) && Represents(h, blocks) && |h.slots| <= TWO59 && InBlock(blocks, b, index)
    ensures index < TWO59 && Resolve(h, Address(index)) == Some(index)
  {
    hide Tiled, Represents, Resolve;
    ResolveIsExact(h, 0, blocks);
    AddressRoundTrip(index, 0);
    ResolveIsExact(h, Address(index), blocks);
  }

  /** `s` with the slots of block `i` replaced is still a heap, and only that block differs. */
  lemma {:induction false} OverwriteKeepsTiled(h: Heap, i: nat, s: seq<u64>)
    requires Tiled(h) && i < |h.allocations| && h.allocations[i].live && |s| == |h.slots|
    requires forall k :: 0 <= k < |s| && !Covers(h.allocations[i], k) ==> s[k] == h.slots[k]
    ensures Tiled(h.(slots := s))
  {
    forall j | 0 <= j < |h.allocations| && !h.allocations[j].live
      ensures IsZero(s, h.allocations[j].base, h.allocations[j].count)
    {
      BlocksApart(h, i, j);
      assert IsZero(h.slots, h.allocations[j].base, h.allocations[j].count);
    }
  }

  lemma {:induction false} OverwriteRefines(h: Heap, i: nat, s: seq<u64>, blocks: map<nat, seq<u64>>)
    requires Tiled(h) && Represents(h, blocks) && i < |h.allocations| && h.allocations[i].live && |s| == |h.slots|
    requires forall k :: 0 <= k < |s| && !Covers(h.allocations[i], k) ==> s[k] == h.slots[k]
    ensures Tiled(h.(slots := s))
    ensures Represents(h.(slots := s), blocks[h.allocations[i].base := Contents(h.(slots := s), i)])
  {
    hide Tiled, Contents;
    OverwriteKeepsTiled(h, i, s);
    var h', b := h.(slots := s), h.allocations[i].base;
    forall j: nat | j < |h'.allocations| && h'.allocations[j].live && j != i
      ensures h'.allocations[j].base != b && Contents(h', j) == Contents(h, j)
    {
      BlocksApart(h, i, j);
    }
    forall c | c in blocks
      ensures exists j: nat :: IsBlock(h', j, c)
    {
      var j: nat :| IsBlock(h, j, c);
      assert IsBlock(h', j, c);
    }
    assert IsBlock(h', i, b);
  }

  function SetSlot(blocks: map<nat, seq<u64>>, b: nat, k: nat, v: u64): map<nat, seq<u64>>
    requires b in blocks && k < |blocks[b]|
  {
    var s: seq<u64> := blocks[b];
    blocks[b := s[..k] + [v] + s[k + 1..]]
  }

  lemma {:induction false} BlockOf(h: Heap, b: nat, blocks: map<nat, seq<u64>>) returns (i: nat)
    requires Tiled(h) && Represents(h, blocks) && b in blocks
    ensures IsBlock(h, i, b) && blocks[b] == Contents(h, i)
  {
    hide Contents, Tiled;
    i :| IsBlock(h, i, b);
  }

  lemma {:induction false} BlockHolds(h: Heap, i: nat, blocks: map<nat, seq<u64>>)
    requires Tiled(h) && Represents(h, blocks) && i < |h.allocations| && h.allocations[i].live
    ensures h.allocations[i].base in blocks && blocks[h.allocations[i].base] == Contents(h, i)
  {
    hide Contents, Tiled;
  }

  lemma {:induction false} StoreContents(h: Heap, i: nat, k: nat, v: u64)
    requires Tiled(h) && i < |h.allocations| && k < h.allocations[i].count && h.allocations[i].base + k < |h.slots|
    requires Tiled(h.(slots := h.slots[h.allocations[i].base + k := v]))
    ensures Contents(h.(slots := h.slots[h.allocations[i].base + k := v]), i) ==
            Contents(h, i)[..k] + [v] + Contents(h, i)[k + 1..]
  {
    hide Tiled, Contents;
  }

  /** A store through an address changes one slot of one block. */
  lemma {:induction false} StoreRefines(h: Heap, a: u64, v: u64, b: nat, blocks: map<nat, seq<u64>>)
    requires Tiled(h) && Represents(h, blocks) && IsHeapAddress(a) && InBlock(blocks, b, Index(a))
    ensures Store(h, a, v).Some? && Tiled(Store(h, a, v).value)
    ensures Represents(Store(h, a, v).value, SetSlot(blocks, b, Index(a) - b, v))
  {
    hide Tiled, Resolve, Index, IsHeapAddress, Contents, Represents;
    ResolveIsExact(h, a, blocks);
    var i := BlockOf(h, b, blocks);
    var h' := Store(h, a, v).value;
    OverwriteRefines(h, i, h'.slots, blocks);
    StoreContents(h, i, Index(a) - b, v);
  }

  // ----- moving a block -----

  function Resize(s: seq<u64>, n: nat): seq<u64> {
    if |s| < n then s + Zeros(n - |s|) else s[..n]
  }

  /** Copying into the block just allocated gives it the resized contents of the old one. */
  lemma {:induction false} CopyRefines(h: Heap, maxSlots: nat, k: nat, n: u64, blocks: map<nat, seq<u64>>)
    requires Tiled(h) && Represents(h, blocks) && k < |h.allocations| && h.allocations[k].live
    requires n > 0 && Alloc(h, maxSlots, n).Some? && h.allocations[k].base + h.allocations[k].count <= |h.slots|
    ensures var x, p := h.allocations[k], Alloc(h, maxSlots, n).value;
            var s := CopyRange(p.heap.slots, x.base, |h.slots|, if x.count < n then x.count else n);
            && |h.slots| !in blocks && x.base in blocks
            && Tiled(p.heap.(slots := s))
            && Represents(p.heap.(slots := s), blocks[|h.slots| := Resize(blocks[x.base], n)])
  {
    hide Tiled, Contents, Address, Represents;
    var x, p, m := h.allocations[k], Alloc(h, maxSlots, n).value, |h.allocations|;
    var s := CopyRange(p.heap.slots, x.base, |h.slots|, if x.count < n then x.count else n);
    AllocRefines(h, maxSlots, n, blocks);
    OverwriteRefines(p.heap, m, s, blocks[|h.slots| := Zeros(n)]);
    BlockHolds(h, k, blocks);
    assert Contents(p.heap.(slots := s), m) == Resize(blocks[x.base], n);
    assert blocks[|h.slots| := Zeros(n)][|h.slots| := Resize(blocks[x.base], n)] ==
           blocks[|h.slots| := Resize(blocks[x.base], n)];
  }

  /** Reallocation of a live block to n > 0 slots moves its first slots to a fresh block and
      kills the old one, or, when there is no room, reports 0 and changes nothing. */
  lemma {:induction false} ReallocRefines(h: Heap, maxSlots: nat, a: u64, n: u64, blocks: map<nat, seq<u64>>)
    requires Tiled(h) && Represents(h, blocks) && a != 0 && n > 0
    ensures Realloc(h, maxSlots, a, n).Some? <==> IsHeapAddress(a) && Index(a) in blocks
    ensures Realloc(h, maxSlots, a, n).Some? ==>
              var p := Realloc(h, maxSlots, a, n).value;
              if |h.slots| + n <= maxSlots && |h.slots| < TWO59 then
                && p.address == Address(|h.slots|) && |h.slots| !in blocks && Tiled(p.heap)
                && Represents(p.heap, (blocks - {Index(a)})[|h.slots| := Resize(blocks[Index(a)], n)])
              else p == Placed(h, 0)
  {
    hide Tiled, Represents, Kill, FindLive, Index, IsHeapAddress, Address, CopyRange, Resize;
    FindLiveFinds(h, a, blocks);
    if FindLive(h, a).Some? && Alloc(h, maxSlots, n).Some? {
      var k := FindLive(h, a).value;
      var x, p := h.allocations[k], Alloc(h, maxSlots, n).value;
      CopyRefines(h, maxSlots, k, n, blocks);
      var h' := p.heap.(slots := CopyRange(p.heap.slots, x.base, |h.slots|, if x.count < n then x.count else n));
      var moved := blocks[|h.slots| := Resize(blocks[x.base], n)];
      KillKeepsTiled(h', k);
      KillRefines(h', k, moved);
      assert x.base != |h.slots|;
      assert moved - {x.base} == (blocks - {x.base})[|h.slots| := Resize(blocks[x.base], n)];
    }
  }

  // ----- whole runs -----

  datatype Op = AllocOp(n: u64) | FreeOp(a: u64) | ReallocOp(a: u64, n: u64) | StoreOp(a: u64, v: u64)

  /** The heap after an operation and the address it hands out, 0 if none; None is a fault. */
  function Step(h: Heap, maxSlots: nat, op: Op): Option<Placed> {
    match op
    case AllocOp(n) => Alloc(h, maxSlots, n)
    case ReallocOp(a, n) => Realloc(h, maxSlots, a, n)
    case FreeOp(a) =>
      (match Free(h, a)
       case None => None
       case Some(h') => Some(Placed(h', 0)))
    case StoreOp(a, v) =>
      match Store(h, a, v)
      case None => None
      case Some(h') => Some(Placed(h', 0))
  }

  /** A fault ends the run. */
  function RunOps(h: Heap, maxSlots: nat, ops: seq<Op>): Heap
    decreases |ops|
  {
    if ops == [] then h
    else
      match Step(h, maxSlots, ops[0])
      case None => h
      case Some(p) => RunOps(p.heap, maxSlots, ops[1..])
  }

  /** `t` extends `s`: entries keep their place and size, and none comes back to life. */
  predicate Outlives(s: seq<Allocation>, t: seq<Allocation>) {
    && |s| <= |t|
    && forall i :: 0 <= i < |s| ==> t[i].base == s[i].base && t[i].count == s[i].count && (t[i].live ==> s[i].live)
  }

  lemma {:induction false} SomeBlocks(h: Heap) returns (blocks: map<nat, seq<u64>>)
    requires Tiled(h)
    ensures Represents(h, blocks)
  {
    hide Contents, Tiled;
    blocks := map b | b in (set i | 0 <= i < |h.allocations| && h.allocations[i].live :: h.allocations[i].base)
                :: Contents(h, FindBaseOf(h, b));
    forall i: nat | i < |h.allocations| && h.allocations[i].live
      ensures h.allocations[i].base in blocks && blocks[h.allocations[i].base] == Contents(h, i)
    {
      FindBaseFinds(h, i);
    }
    forall b | b in blocks
      ensures exists i: nat :: IsBlock(h, i, b)
    {
      var i :| 0 <= i < |h.allocations| && h.allocations[i].live && h.allocations[i].base == b;
      assert IsBlock(h, i, b);
    }
  }

  function FindBaseOf(h: Heap, b: nat): (k: nat)
    requires exists i :: 0 <= i < |h.allocations| && h.allocations[i].live && h.allocations[i].base == b
    ensures k < |h.allocations|
  {
    FindBase(h.allocations, b)
  }

  /** Every operation keeps the table a tiling and brings no block back. */
  lemma {:induction false} StepKeepsTiled(h: Heap, maxSlots: nat, op: Op)
    requires Tiled(h) && Step(h, maxSlots, op).Some?
    ensures Tiled(Step(h, maxSlots, op).value.heap)
    ensures Outlives(h.allocations, Step(h, maxSlots, op).value.heap.allocations)
  {
    hide Tiled, Index, IsHeapAddress, Address, Resolve, Represents, ZeroRange, CopyRange;
    var blocks := SomeBlocks(h);
    match op
    case AllocOp(n) =>
      if n > 0 {
        AllocKeepsTiled(h, maxSlots, n);
      }
    case FreeOp(a) =>
      if a != 0 {
        FreeRefines(h, a, blocks);
      }
    case ReallocOp(a, n) =>
      if a == 0 {
        if n > 0 { AllocKeepsTiled(h, maxSlots, n); }
      } else if n == 0 {
        FreeRefines(h, a, blocks);
      } else {
        ReallocRefines(h, maxSlots, a, n, blocks);
      }
    case StoreOp(a, v) =>
      StoreKeepsTiled(h, a, v, blocks);
  }

  lemma {:induction false} StoreKeepsTiled(h: Heap, a: u64, v: u64, blocks: map<nat, seq<u64>>)
    requires Tiled(h) && Represents(h, blocks) && Store(h, a, v).Some?
    ensures Tiled(Store(h, a, v).value)
  {
    hide Tiled, Resolve, Represents;
    ResolveIsExact(h, a, blocks);
    var b: nat :| InBlock(blocks, b, Index(a));
    StoreRefines(h, a, v, b, blocks);
  }

  lemma {:induction false} RunKeepsTiled(h: Heap, maxSlots: nat, ops: seq<Op>)
    requires Tiled(h)
    ensures Tiled(RunOps(h, maxSlots, ops))
    ensures Outlives(h.allocations, RunOps(h, maxSlots, ops).allocations)
    decreases |ops|
  {
    hide Tiled, Step;
    if ops != [] && Step(h, maxSlots, ops[0]).Some? {
      StepKeepsTiled(h, maxSlots, ops[0]);
      RunKeepsTiled(Step(h, maxSlots, ops[0]).value.heap, maxSlots, ops[1..]);
    }
  }

  /** In every heap a program can reach the table tiles the vector. */
  lemma {:induction false} ReachableIsTiled(maxSlots: nat, ops: seq<Op>)
    ensures Tiled(RunOps(Empty, maxSlots, ops))
  {
    RunKeepsTiled(Empty, maxSlots, ops);
  }

  /** What a dead block refuses. */
  ghost predicate Gone(h: Heap, maxSlots: nat, x: Allocation)
    requires x.base < TWO59
  {
    && IsZero(h.slots, x.base, x.count)
    && Free(h, Address(x.base)).None?
    && (forall n: u64 :: Realloc(h, maxSlots, Address(x.base), n).None?)
    && (forall a: u64 :: IsHeapAddress(a) && x.base <= Index(a) < x.base + x.count ==> Resolve(h, a).None?)
    && (forall op: Op :: Step(h, maxSlots, op).Some? ==> Step(h, maxSlots, op).value.address != Address(x.base))
  }

  lemma {:induction false} DeadIsGone(h: Heap, maxSlots: nat, i: nat)
    requires Tiled(h) && i < |h.allocations| && !h.allocations[i].live && h.allocations[i].base < TWO59
    ensures Gone(h, maxSlots, h.allocations[i])
  {
    hide Tiled;
    var x := h.allocations[i];
    assert IsZero(h.slots, x.base, x.count) by {
      DeadIsZero(h, i);
    }
    BlockInRange(h, i);
    FindBaseFinds(h, i);
    AddressRoundTrip(x.base, 0);
    forall a: u64 | IsHeapAddress(a) && x.base <= Index(a) < x.base + x.count
      ensures Resolve(h, a).None?
    {
      if Resolve(h, a).Some? {
        var y: Allocation :| y in h.allocations && Covers(y, Index(a));
        var j: nat :| j < |h.allocations| && h.allocations[j] == y;
        BlocksApart(h, i, j);
      }
    }
  }

  lemma {:induction false} DeadIsZero(h: Heap, i: nat)
    requires Tiled(h) && i < |h.allocations| && !h.allocations[i].live
    ensures IsZero(h.slots, h.allocations[i].base, h.allocations[i].count)
  {
  }

  /** Dead stays dead: whatever a program does after a block was freed or moved, the block
      stays zero, its slots cannot be reached, its address can be neither freed nor moved
      and is never handed out again. */
  lemma {:induction false} DeadStaysDead(h: Heap, maxSlots: nat, ops: seq<Op>, i: nat)
    requires Tiled(h) && i < |h.allocations| && !h.allocations[i].live && h.allocations[i].base < TWO59
    ensures Gone(RunOps(h, maxSlots, ops), maxSlots, h.allocations[i])
  {
    hide Tiled, RunOps, Gone;
    RunKeepsTiled(h, maxSlots, ops);
    DeadIsGone(RunOps(h, maxSlots, ops), maxSlots, i);
  }
}
