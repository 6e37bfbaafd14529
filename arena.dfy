/** The state every allocator shares: the caller's arena, its size and the
    optional usage counters (src/Allocator.cpp).

    The arena is an array of cells indexed by byte offset, and every pointer
    is an offset into it, with Null standing for nullptr. A machine word that
    an allocator stores in the arena (a block size, a free-list link, a size
    tag) is one abstract cell at the word's first offset holding the whole
    value; the word's other W - 1 bytes are not modelled separately. */
module Arena {

  /** sizeof(size_t) == sizeof(void*) on the 64-bit targets the code assumes. */
  const W: int := 8
  /** nullptr, as an offset. */
  const Null: int := -1

  /** Range of the counters: mMrNumOfAllocations is a uint32_t, mMrUsed a size_t. */
  const Count32: int := 0x1_0000_0000
  const Count64: int := 0x1_0000_0000_0000_0000

  /** Unsigned 64-bit addition and subtraction (wrap-around, as size_t does). */
  function Add64(a: int, b: int): int { (a + b) % Count64 }
  function Sub64(a: int, b: int): int { (a - b) % Count64 }
  /** ++ and -- on a uint32_t. */
  function Inc32(a: int): int { (a + 1) % Count32 }
  function Dec32(a: int): int { (a - 1) % Count32 }

  /** Every cell of `s` in [lo, hi) is zero. */
  ghost predicate ZeroOn(s: seq<int>, lo: int, hi: int)
    requires 0 <= lo <= hi <= |s|
  {
    forall j :: lo <= j < hi ==> s[j] == 0
  }

  /** memset(a + lo, 0, hi - lo). */
  method Memset(a: array<int>, lo: int, hi: int)
    requires 0 <= lo <= hi <= a.Length
    modifies a
    ensures ZeroOn(a[..], lo, hi)
    ensures forall j :: 0 <= j < a.Length && !(lo <= j < hi) ==> a[j] == old(a[j])
  {
    forall j | lo <= j < hi {
      a[j] := 0;
    }
  }

  /** The base class: the arena it was handed and the usage counters. */
  class Allocator {
    /** mMemory; `null` is representable because isOutOfMemory asks for it. */
    const memory: array?<int>
    /** mSize */
    const size: int
    /** Whether MFG_MEMORY_REPORT is on: without it the counters do not exist. */
    const report: bool
    /** mMrUsed: bytes in use (only meaningful when `report`). */
    var used: int
    /** mMrNumOfAllocations (only meaningful when `report`). */
    var allocations: int

    ghost predicate Valid()
      reads this
    {
      && memory != null
      && memory.Length == size
      && 0 < size < Count64
      && 0 <= used < Count64
      && 0 <= allocations < Count32
    }

    /** Stores the arena and its size, zeroes every byte of it and starts the
        counters at zero. `ASSERT(size > 0)` becomes the precondition; the
        upper bound is that of the size_t parameter. */
    constructor (memory: array<int>, size: int, report: bool)
      requires 0 < size < Count64
      requires memory.Length == size
      modifies memory
      ensures Valid()
      ensures this.memory == memory && this.size == size && this.report == report
      ensures ZeroOn(memory[..], 0, size)
      ensures used == 0 && allocations == 0
    {
      this.memory := memory;
      this.size := size;
      this.report := report;
      used := 0;
      allocations := 0;
      new;
      Memset(memory, 0, size);
    }

    /** True exactly when the arena pointer is null: it says nothing about how
        much of the arena is still free. */
    function IsOutOfMemory(): (r: bool)
      reads this
      ensures r <==> memory == null
    {
      memory == null
    }

    /** The arena exactly as it was handed to the constructor. */
    function GetMemory(): (r: array?<int>)
      reads this
      ensures r == memory
    {
      memory
    }

    /** The arena size exactly as it was handed to the constructor. */
    function GetSize(): (r: int)
      reads this
      ensures r == size
    {
      size
    }

    /** Bytes in use; available only when reporting is configured. */
    function GetUsedSize(): (r: int)
      reads this
      requires Valid() && report
      ensures 0 <= r < Count64 && r == used
    {
      used
    }

    /** Number of live allocations; available only when reporting is configured. */
    function GetNumberOfAllocations(): (r: int)
      reads this
      requires Valid() && report
      ensures 0 <= r < Count32 && r == allocations
    {
      allocations
    }

    /** Records one allocation of `n` bytes (the MFG_MEMORY_REPORT blocks of
        every allocate). */
    method CountAllocation(n: int)
      requires Valid()
      modifies this
      ensures Valid()
      ensures report ==> used == Add64(old(used), n) && allocations == Inc32(old(allocations))
      ensures !report ==> used == old(used) && allocations == old(allocations)
    {
      if report {
        used := Add64(used, n);
        allocations := Inc32(allocations);
      }
    }

    /** Records the release of `n` bytes as one deallocation. */
    method CountRelease(n: int)
      requires Valid()
      modifies this
      ensures Valid()
      ensures report ==> used == Sub64(old(used), n) && allocations == Dec32(old(allocations))
      ensures !report ==> used == old(used) && allocations == old(allocations)
    {
      if report {
        used := Sub64(used, n);
        allocations := Dec32(allocations);
      }
    }

    /** Sets both counters back to zero (StackAllocator::clear). */
    method ResetCounters()
      requires Valid()
      modifies this
      ensures Valid()
      ensures report ==> used == 0 && allocations == 0
      ensures !report ==> used == old(used) && allocations == old(allocations)
    {
      if report {
        used := 0;
        allocations := 0;
      }
    }
  }
}
