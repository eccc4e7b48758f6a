/** The heap functions of an emitted program, updating their two vectors in place. */
module HeapRuntime {
  import opened Ir
  import opened Heap

  class Runtime {
    var slots: seq<u64>
    var allocations: seq<Allocation>
    // the largest size the slot vector can be given
    const maxSlots: nat

    constructor (maxSlots: nat)
      ensures this.maxSlots == maxSlots && State() == Empty && Tiled(State())
    {
      slots, allocations := [], [];
      this.maxSlots := maxSlots;
      new;
      EmptyIsTiled();
    }

    function State(): Heap
      reads this
    {
      Heap(slots, allocations)
    }

    /** `psResolveHeapSlot`: looks for a live block around the addressed slot. */
    method ResolveSlot(a: u64) returns (r: Option<nat>)
      ensures r == Resolve(State(), a)
    {
      hide Index, IsHeapAddress;
      if !IsHeapAddress(a) {
        return None;
      }
      var index := Index(a);
      if index >= |slots| {
        return None;
      }
      for j := 0 to |allocations|
        invariant forall k :: 0 <= k < j ==> !Covers(allocations[k], index)
      {
        var x := allocations[j];
        if !x.live {
          continue;
        }
        if index >= x.base && index < x.base + x.count {
          assert x in allocations && Covers(x, index);
          return Some(index);
        }
      }
      return None;
    }

    /** `psHeapAlloc`. */
    method Allocate(n: u64) returns (r: Option<u64>)
      modifies this
      ensures match Alloc(old(State()), maxSlots, n)
              case None => r == None && State() == old(State())
              case Some(p) => r == Some(p.address) && State() == p.heap
    {
      if n == 0 {
        return Some(0);
      }
      if |slots| + n > maxSlots || |slots| >= TWO59 {
        return None;
      }
      var base := |slots|;
      slots := slots + Zeros(n);
      allocations := allocations + [Allocation(base, n, true)];
      return Some(Address(base));
    }

    /** The first table entry with the given base, or the length of the table. */
    method Find(base: nat) returns (k: nat)
      ensures k == FindBase(allocations, base)
    {
      k := 0;
      while k < |allocations| && allocations[k].base != base
        invariant 0 <= k <= |allocations|
        invariant forall j :: 0 <= j < k ==> allocations[j].base != base
      {
        k := k + 1;
      }
    }

    /** Writes zero to `count` slots from `base` on. */
    method Clear(base: nat, count: nat)
      requires base + count <= |slots|
      modifies this`slots
      ensures slots == ZeroRange(old(slots), base, count)
    {
      ghost var before := slots;
      for i := 0 to count
        invariant |slots| == |before|
        invariant forall k :: 0 <= k < |slots| ==> slots[k] == if base <= k < base + i then 0 else before[k]
      {
        slots := slots[base + i := 0];
      }
    }

    method Copy(from: nat, to: nat, count: nat)
      requires from + count <= to && to + count <= |slots|
      modifies this`slots
      ensures slots == CopyRange(old(slots), from, to, count)
    {
      ghost var before := slots;
      assert CopyRange(before, from, to, 0) == before;
      for i := 0 to count
        invariant slots == CopyRange(before, from, to, i)
      {
        assert before[..to] + before[from..from + i + 1] + before[to + i + 1..] ==
               CopyRange(before, from, to, i)[to + i := before[from + i]];
        slots := slots[to + i := slots[from + i]];
      }
    }

    /** `psHeapFree`. */
    method Release(a: u64) returns (ok: bool)
      modifies this
      ensures match Free(old(State()), a)
              case None => !ok && State() == old(State())
              case Some(h) => ok && State() == h
    {
      hide Index, IsHeapAddress, ZeroRange;
      if a == 0 {
        return true;
      }
      if !IsHeapAddress(a) {
        return false;
      }
      var k := Find(Index(a));
      if k == |allocations| || !allocations[k].live || allocations[k].base + allocations[k].count > |slots| {
        return false;
      }
      Clear(allocations[k].base, allocations[k].count);
      allocations := allocations[k := allocations[k].(live := false)];
      return true;
    }

    /** `psHeapRealloc`. */
    method Resize(a: u64, n: u64) returns (r: Option<u64>)
      modifies this
      ensures match Realloc(old(State()), maxSlots, a, n)
              case None => r == None && State() == old(State())
              case Some(p) => r == Some(p.address) && State() == p.heap
    {
      hide Index, IsHeapAddress, ZeroRange, CopyRange, Address;
      if a == 0 {
        r := Allocate(n);
        return;
      }
      if n == 0 {
        var ok := Release(a);
        return if ok then Some(0) else None;
      }
      if !IsHeapAddress(a) {
        return None;
      }
      var k := Find(Index(a));
      if k == |allocations| || !allocations[k].live || allocations[k].base + allocations[k].count > |slots| {
        return None;
      }
      var x, end := allocations[k], |slots|;
      var moved := Allocate(n);
      if moved.None? {
        return Some(0);
      }
      Copy(x.base, end, if x.count < n then x.count else n);
      Clear(x.base, x.count);
      allocations := allocations[k := x.(live := false)];
      return moved;
    }

    /** The store of `StoreIndirect` through a heap address. */
    method Write(a: u64, v: u64) returns (ok: bool)
      modifies this`slots
      ensures match Store(old(State()), a, v)
              case None => !ok && State() == old(State())
              case Some(h) => ok && State() == h
    {
      hide Index, IsHeapAddress;
      var index := ResolveSlot(a);
      if index.None? {
        return false;
      }
      assert index.value < |slots|;
      slots := slots[index.value := v];
      return true;
    }
  }
}
