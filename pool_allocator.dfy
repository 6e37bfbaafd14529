/** The pool allocator (src/PoolAllocator.cpp): the arena is cut into slots of
    `blockSize` bytes; the free slots form an intrusive singly linked list
    whose link is stored in each free slot's first word, headed by `pool`.
    Allocation pops the head, deallocation zero-fills the slot and pushes it.

    As in the rest of the model, the link is one abstract cell at the slot's
    offset. The ghost sequence `Free` lists the free slots in list order. */
module Pool {
  import opened Arena

  /** The offset of slot k. */
  function SlotAt(k: int, bs: int): int
  {
    k * bs
  }

  /** `p` is a slot boundary: the offset of some slot. */
  ghost predicate OnBoundary(p: int, bs: int)
  {
    exists k: nat :: p == SlotAt(k, bs)
  }

  /** The offsets 0, bs, 2 bs, ... of the first `count` slots. */
  function Slots(count: nat, bs: int): (r: seq<int>)
    ensures |r| == count
    ensures forall k :: 0 <= k < count ==> r[k] == SlotAt(k, bs)
  {
    seq(count, k => SlotAt(k, bs))
  }

  /** The head of a list of slots, or Null for the empty list. */
  function HeadOf(fs: seq<int>): int
  {
    if fs == [] then Null else fs[0]
  }

  /** The slot after slot i on the list, or Null for the last one. */
  function NextOf(fs: seq<int>, i: int): int
  {
    if 0 <= i + 1 < |fs| then fs[i + 1] else Null
  }

  /** Slot i of the list starts on a slot boundary, its link word lies in the
      arena and holds the next slot of the list. */
  ghost predicate Linked(mem: seq<int>, fs: seq<int>, i: int, bs: int)
    requires 0 <= i < |fs|
  {
    && 0 <= fs[i] && OnBoundary(fs[i], bs) && fs[i] + W <= |mem|
    && mem[fs[i]] == NextOf(fs, i)
  }

  /** A later slot starts at least one slot size further on. */
  lemma {:induction false} SlotsAscend(k: nat, l: nat, bs: int)
    requires k < l && 0 < bs
    ensures SlotAt(k, bs) + bs <= SlotAt(l, bs)
    decreases l - k
  {
    assert SlotAt(l, bs) == SlotAt(l - 1, bs) + bs;
    if k < l - 1 {
      SlotsAscend(k, l - 1, bs);
    }
  }

  /** Two distinct slot boundaries are at least a slot apart, so zeroing one
      slot never touches another slot's link word. */
  lemma AlignedApart(a: int, b: int, bs: int)
    requires 0 < bs && OnBoundary(a, bs) && OnBoundary(b, bs) && a != b
    ensures !(a <= b < a + bs)
  {
    var k: nat :| a == SlotAt(k, bs);
    var l: nat :| b == SlotAt(l, bs);
    if k < l {
      SlotsAscend(k, l, bs);
    } else if l < k {
      SlotsAscend(l, k, bs);
    }
  }

  /** After clear, the last slot on the list starts n = size / bs slots in,
      where fewer than `bs` bytes are left: handing it out gives the caller a
      slot shorter than blockSize. */
  lemma LastSlotIsShort(size: int, bs: int)
    requires 0 < bs <= size && size % bs >= W
    ensures var s := Slots(size / bs + 1, bs);
      && s[|s| - 1] + W <= size
      && size < s[|s| - 1] + bs
  {
    var n := size / bs;
    assert size == SlotAt(n, bs) + size % bs;
  }

  /** An arena of 40 bytes cut into 16-byte slots: clear links slots 0, 16
      and 32, and the last one has only 8 bytes, so its zero-fill in
      deallocate would run 8 bytes past the arena. */
  lemma ShortSlotExample()
    ensures var s := Slots(40 / 16 + 1, 16);
      && s == [0, 16, 32] && 40 % 16 >= W
      && s[2] + W <= 40 && !(s[2] + 16 <= 40)
  {
    var s := Slots(40 / 16 + 1, 16);
    assert s[0] == 0 && s[1] == 16 && s[2] == 32;
  }

  /** The first i slots of `fs` are linked each to the next. */
  ghost predicate Laid(mem: seq<int>, fs: seq<int>, i: int)
    requires 0 <= i < |fs|
  {
    forall k :: 0 <= k < i ==> 0 <= fs[k] < |mem| && mem[fs[k]] == fs[k + 1]
  }

  /** Every cell other than the first i slot starts is zero. */
  ghost predicate ZeroElsewhere(mem: seq<int>, fs: seq<int>, i: int)
    requires 0 <= i <= |fs|
  {
    forall j :: 0 <= j < |mem| && j !in fs[..i] ==> mem[j] == 0
  }

  /** Slot i of `Slots(n + 1, bs)` lies in an arena of `SlotAt(n, bs) + W`
      cells and after every earlier slot. */
  lemma SlotsBelow(fs: seq<int>, i: int, n: nat, bs: int)
    requires 0 < bs && fs == Slots(n + 1, bs) && 0 <= i <= n
    ensures 0 <= fs[i] <= fs[n]
    ensures i < n ==> fs[i + 1] == fs[i] + bs
    ensures forall k :: 0 <= k < i ==> fs[k] < fs[i]
  {
    if i < n {
      SlotsAscend(i, n, bs);
    }
    forall k | 0 <= k < i
      ensures fs[k] < fs[i]
    {
      SlotsAscend(k, i, bs);
    }
  }

  /** One step of the linking loop: writing the link of slot i keeps the
      earlier links and zeroes. */
  lemma LayStep(m0: seq<int>, m1: seq<int>, fs: seq<int>, i: int)
    requires 0 <= i < |fs| - 1 && 0 <= fs[i] < |m0|
    requires forall k :: 0 <= k < i ==> fs[k] < fs[i]
    requires Laid(m0, fs, i) && ZeroElsewhere(m0, fs, i)
    requires m1 == m0[fs[i] := fs[i + 1]]
    ensures Laid(m1, fs, i + 1) && ZeroElsewhere(m1, fs, i + 1)
  {
    assert fs[..i + 1] == fs[..i] + [fs[i]];
  }

  /** Writing the terminator at the last slot completes a linked list over
      all of `fs` and leaves every other cell zero. */
  lemma LayLast(m0: seq<int>, m1: seq<int>, fs: seq<int>, bs: int)
    requires 0 < bs && |fs| >= 1 && fs == Slots(|fs|, bs)
    requires 0 <= fs[|fs| - 1] && fs[|fs| - 1] + W <= |m0|
    requires forall k :: 0 <= k < |fs| - 1 ==> fs[k] < fs[|fs| - 1]
    requires Laid(m0, fs, |fs| - 1) && ZeroElsewhere(m0, fs, |fs| - 1)
    requires m1 == m0[fs[|fs| - 1] := Null]
    ensures forall i :: 0 <= i < |fs| ==> Linked(m1, fs, i, bs)
    ensures forall j :: 0 <= j < |m1| && j !in fs ==> m1[j] == 0
  {
    var n := |fs| - 1;
    assert fs[..n] + [fs[n]] == fs;
    forall i | 0 <= i < |fs|
      ensures Linked(m1, fs, i, bs)
    {
      assert fs[i] == SlotAt(i, bs);
    }
  }

  class PoolAllocator {
    const base: Allocator
    /** mBlockSize */
    const blockSize: int
    /** mPool: the first free slot, or Null. */
    var pool: int
    /** The free slots, in list order. */
    ghost var Free: seq<int>

    ghost predicate Valid()
      reads this, base, base.memory
    {
      && base.Valid()
      && W <= blockSize < Count64
      && pool == HeadOf(Free)
      && forall i :: 0 <= i < |Free| ==> Linked(base.memory[..], Free, i, blockSize)
    }

    /** Every free slot holds a whole blockSize bytes inside the arena, so
        any slot Allocate hands out can be given back to Deallocate. */
    ghost predicate Full()
      reads this, base
    {
      forall i :: 0 <= i < |Free| ==> Free[i] + blockSize <= base.size
    }

    /** Builds the base state and the slot list. `ASSERT(blockSize >=
        sizeof(void*))` becomes a precondition; clear's own guard is the
        second one. */
    constructor (memory: array<int>, size: int, blockSize: int, report: bool)
      requires 0 < size < Count64 && memory.Length == size
      requires W <= blockSize < Count64
      requires size % blockSize >= W
      modifies memory
      ensures Valid() && fresh(base)
      ensures base.memory == memory && base.size == size && base.report == report
      ensures this.blockSize == blockSize
      ensures base.used == 0 && base.allocations == 0
      ensures Free == Slots(size / blockSize + 1, blockSize) && pool == 0
      ensures forall j :: 0 <= j < size && j !in Free ==> memory[j] == 0
    {
      base := new Allocator(memory, size, report);
      this.blockSize := blockSize;
      pool := Null;
      new;
      Clear();
    }

    /** Zeroes the arena and links slots 0, bs, ..., n bs in address order
        (n = size / blockSize), writing the Null terminator at n bs; the loop
        runs n times, so the list has n + 1 slots. The terminator must lie in
        the arena, which is the precondition `size % blockSize >= W`. */
    method Clear()
      requires base.Valid() && W <= blockSize < Count64
      requires base.size % blockSize >= W
      modifies this, base.memory
      ensures Valid()
      ensures Free == Slots(base.size / blockSize + 1, blockSize) && pool == 0
      ensures forall j :: 0 <= j < base.size && j !in Free ==> base.memory[j] == 0
    {
      var mem := base.memory;
      Memset(mem, 0, base.size);

      var n := base.size / blockSize;
      ghost var fs := Slots(n + 1, blockSize);
      assert base.size == SlotAt(n, blockSize) + base.size % blockSize;
      SlotsBelow(fs, n, n, blockSize);
      LinkSlots(n, fs);

      ghost var m0 := mem[..];
      mem[pool] := Null;
      pool := 0;
      Free := fs;
      LayLast(m0, mem[..], fs, blockSize);
    }

    /** The linking loop of clear: starting from slot 0, each of the first n
        slots gets the offset of the next one, and `pool` ends on slot n. */
    method LinkSlots(n: nat, ghost fs: seq<int>)
      requires 0 < blockSize && fs == Slots(n + 1, blockSize)
      requires base.memory != null && fs[n] < base.memory.Length
      requires ZeroElsewhere(base.memory[..], fs, 0)
      modifies this, base.memory
      ensures pool == fs[n]
      ensures Laid(base.memory[..], fs, n) && ZeroElsewhere(base.memory[..], fs, n)
    {
      var mem := base.memory;
      pool := 0;
      var i := 0;
      while i < n
        invariant 0 <= i <= n
        invariant pool == fs[i]
        invariant Laid(mem[..], fs, i) && ZeroElsewhere(mem[..], fs, i)
      {
        ghost var m0 := mem[..];
        SlotsBelow(fs, i, n, blockSize);
        mem[pool] := pool + blockSize;
        LayStep(m0, mem[..], fs, i);
        pool := mem[pool];
        i := i + 1;
      }
    }

    /** Clear as evidently intended: link only the n = size / blockSize
        slots that lie wholly in the arena, with the Null terminator in the
        last of them, so that every free slot is a full one. Unlike Clear it
        also accepts an arena that is an exact multiple of blockSize. */
    method ClearFullSlots()
      requires base.Valid() && W <= blockSize < Count64
      requires blockSize <= base.size
      modifies this, base.memory
      ensures Valid() && Full()
      ensures Free == Slots(base.size / blockSize, blockSize) && pool == 0
      ensures forall j :: 0 <= j < base.size && j !in Free ==> base.memory[j] == 0
    {
      var mem := base.memory;
      Memset(mem, 0, base.size);

      var n := base.size / blockSize;
      ghost var fs := Slots(n, blockSize);
      assert base.size == SlotAt(n, blockSize) + base.size % blockSize;
      assert SlotAt(n, blockSize) == SlotAt(n - 1, blockSize) + blockSize;
      SlotsBelow(fs, n - 1, n - 1, blockSize);
      LinkSlots(n - 1, fs);

      ghost var m0 := mem[..];
      mem[pool] := Null;
      pool := 0;
      Free := fs;
      LayLast(m0, mem[..], fs, blockSize);
      forall i | 0 <= i < |Free|
        ensures Free[i] + blockSize <= base.size
      {
        if i < n - 1 {
          SlotsAscend(i, n - 1, blockSize);
        }
      }
    }

    /** Pops the head slot: the new head is the link stored in it, and no
        arena cell is written. `ASSERT(size <= mBlockSize)` becomes a
        precondition, and so does a non-empty list, which the code does not
        check (popping the empty list dereferences nullptr). */
    method Allocate(size: int) returns (p: int)
      requires Valid()
      requires 0 <= size <= blockSize
      requires pool != Null
      modifies this, base
      ensures Valid()
      ensures old(Free) != [] && p == old(Free)[0] && Free == old(Free)[1..]
      ensures 0 <= p && OnBoundary(p, blockSize) && p + W <= base.size
      ensures old(Full()) ==> Full() && p + blockSize <= base.size
      ensures base.memory[..] == old(base.memory[..])
      ensures base.report ==> base.used == Add64(old(base.used), blockSize) && base.allocations == Inc32(old(base.allocations))
      ensures !base.report ==> base.used == old(base.used) && base.allocations == old(base.allocations)
    {
      assert Linked(base.memory[..], Free, 0, blockSize);
      p := pool;
      pool := base.memory[pool];
      Free := Free[1..];
      forall i | 0 <= i < |Free|
        ensures Linked(base.memory[..], Free, i, blockSize)
      {
        assert Linked(base.memory[..], old(Free), i + 1, blockSize);
      }
      base.CountAllocation(blockSize);
    }

    /** Zero-fills the slot at `p`, stores the old head in its first word
        and makes it the head. The code does not check that `p` is a slot
        boundary that is not already free, nor that its whole slot lies in
        the arena: after Clear the last slot Allocate hands out is short
        (LastSlotIsShort), and the zero-fill of that slot runs past the
        arena, so it cannot be given back here. */
    method Deallocate(p: int)
      requires Valid()
      requires 0 <= p && OnBoundary(p, blockSize) && p + blockSize <= base.size
      requires p !in Free
      modifies this, base, base.memory
      ensures Valid()
      ensures Free == [p] + old(Free) && pool == p
      ensures old(Full()) ==> Full()
      ensures base.memory[p] == old(pool) && ZeroOn(base.memory[..], p + 1, p + blockSize)
      ensures forall j :: 0 <= j < base.size && !(p <= j < p + blockSize) ==> base.memory[j] == old(base.memory[j])
      ensures base.report ==> base.used == Sub64(old(base.used), blockSize) && base.allocations == Dec32(old(base.allocations))
      ensures !base.report ==> base.used == old(base.used) && base.allocations == old(base.allocations)
    {
      var mem := base.memory;
      ghost var fs := Free;
      Memset(mem, p, p + blockSize);
      mem[p] := pool;
      pool := p;
      Free := [p] + fs;
      forall i | 0 <= i < |Free|
        ensures Linked(mem[..], Free, i, blockSize)
      {
        if i > 0 {
          assert Linked(old(mem[..]), fs, i - 1, blockSize);
          AlignedApart(p, fs[i - 1], blockSize);
        }
      }
      base.CountRelease(blockSize);
    }
  }

  /** LIFO reuse: allocating right after giving back `p` returns `p` and
      leaves the list as it was before. */
  method DeallocateThenAllocate(pa: PoolAllocator, p: int) returns (q: int)
    requires pa.Valid()
    requires 0 <= p && OnBoundary(p, pa.blockSize) && p + pa.blockSize <= pa.base.size
    requires p !in pa.Free
    modifies pa, pa.base, pa.base.memory
    ensures q == p && pa.Free == old(pa.Free) && pa.pool == old(pa.pool)
  {
    pa.Deallocate(p);
    q := pa.Allocate(pa.blockSize);
  }
}
