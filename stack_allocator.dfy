/** The marker-based stack allocator (src/StackAllocator.cpp): one bump
    offset into the arena, rewound only to a checkpoint the caller saved. */
module Stack {
  import opened Arena

  class StackAllocator {
    const base: Allocator
    /** mMarker: offset of the first byte not yet handed out. */
    var marker: int

    ghost predicate Valid()
      reads this, base
    {
      base.Valid() && 0 <= marker <= base.size
    }

    /** Builds the base state (zeroing the arena) and starts with marker 0.
        `ASSERT(size > 0)` becomes the precondition. */
    constructor (memory: array<int>, size: int, report: bool)
      requires 0 < size < Count64
      requires memory.Length == size
      modifies memory
      ensures Valid() && fresh(base)
      ensures base.memory == memory && base.size == size && base.report == report
      ensures ZeroOn(memory[..], 0, size)
      ensures base.used == 0 && base.allocations == 0
      ensures marker == 0
    {
      base := new Allocator(memory, size, report);
      marker := 0;
    }

    /** Hands out `[old marker, old marker + size)` and bumps the marker by
        exactly `size`; the arena itself is not written. */
    method Allocate(size: int) returns (p: int)
      requires Valid()
      requires size > 0
      requires marker + size <= base.size
      modifies this, base
      ensures Valid()
      ensures p == old(marker) && marker == old(marker) + size
      ensures 0 <= p && p + size <= base.size
      ensures base.report ==> (base.used == Add64(old(base.used), size)
                               && base.allocations == Inc32(old(base.allocations)))
      ensures !base.report ==> base.used == old(base.used) && base.allocations == old(base.allocations)
    {
      marker := marker + size;
      base.CountAllocation(size);
      p := marker - size;
    }

    /** Releasing a single pointer is meaningless for a stack: nothing changes. */
    method Deallocate(p: int)
      requires Valid()
      ensures Valid()
    {
    }

    /** Rewinds the marker to the checkpoint `m`. With reporting on, the
        rewound bytes leave the used count but the allocation count drops by
        exactly one, however many allocations were rewound. */
    method DeallocateTo(m: int)
      requires Valid()
      requires 0 <= m <= marker
      modifies this, base
      ensures Valid()
      ensures marker == m
      ensures base.report ==> (base.used == Sub64(old(base.used), old(marker) - m)
                               && base.allocations == Dec32(old(base.allocations)))
      ensures !base.report ==> base.used == old(base.used) && base.allocations == old(base.allocations)
    {
      base.CountRelease(marker - m);
      marker := m;
    }

    /** Sets the marker back to 0 and resets the counters. Unlike the other
        allocators' clear, the arena bytes are left as they are. */
    method Clear()
      requires Valid()
      modifies this, base
      ensures Valid()
      ensures marker == 0
      ensures base.report ==> base.used == 0 && base.allocations == 0
      ensures !base.report ==> base.used == old(base.used) && base.allocations == old(base.allocations)
      ensures base.memory[..] == old(base.memory[..])
    {
      marker := 0;
      base.ResetCounters();
    }

    /** The current marker, a checkpoint for DeallocateTo. */
    function GetMarker(): (r: int)
      reads this, base
      requires Valid()
      ensures 0 <= r <= base.size && r == marker
    {
      marker
    }
  }

  /** Two allocations in a row are adjacent: the second starts exactly `a`
      bytes after the first. */
  method ConsecutiveAllocations(s: StackAllocator, a: int, b: int) returns (p: int, q: int)
    requires s.Valid()
    requires a > 0 && b > 0 && s.marker + a + b <= s.base.size
    modifies s, s.base
    ensures s.Valid()
    ensures q == p + a && p == old(s.marker)
  {
    p := s.Allocate(a);
    q := s.Allocate(b);
  }

  /** Rewinding to the marker saved before an allocation makes the next
      allocation hand out the same offset again. */
  method RewindReusesOffset(s: StackAllocator, a: int) returns (p: int, q: int)
    requires s.Valid()
    requires a > 0 && s.marker + a <= s.base.size
    modifies s, s.base
    ensures s.Valid()
    ensures p == q && s.marker == old(s.marker) + a
  {
    var m := s.GetMarker();
    p := s.Allocate(a);
    s.DeallocateTo(m);
    q := s.Allocate(a);
  }

  /** A full stack still does not report itself out of memory. */
  method FullStackIsNotOutOfMemory(s: StackAllocator) returns (full: bool)
    requires s.Valid()
    requires s.marker < s.base.size
    modifies s, s.base
    ensures s.Valid() && s.marker == s.base.size
    ensures !full
  {
    var p := s.Allocate(s.base.size - s.marker);
    full := s.base.IsOutOfMemory();
  }
}
