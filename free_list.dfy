/** The free list of the block allocator as a value (src/BlockAllocator.cpp):
    a sequence of free blocks in list order, and the functions that say what
    allocate and deallocate do to it. The class in module Blocks is proved to
    follow these functions; the lemmas here say what they guarantee. */
module FreeList {
  import opened Arena

  /** sizeof(Block): the {size, next} header at the start of every free block. */
  const HeaderSize: int := 16

  /** A free block: its header sits at `start` and it covers [start, start + size). */
  datatype Block = Block(start: int, size: int)

  function End(b: Block): int
  {
    b.start + b.size
  }

  /** Offset of block i, or Null when there is no such block. */
  function StartAt(bs: seq<Block>, i: int): int
  {
    if 0 <= i < |bs| then bs[i].start else Null
  }

  /** The list the allocator keeps: every block holds a header and lies inside
      [0, limit), and the blocks are in increasing address order with a gap
      between any two (adjacent free blocks are always coalesced). */
  ghost predicate WellFormed(bs: seq<Block>, limit: int)
  {
    && (forall i :: 0 <= i < |bs| ==> Inside(bs, i, limit))
    && (forall i, j :: 0 <= i < j < |bs| ==> Apart(bs, i, j))
  }

  /** Block i holds a header and lies inside [0, limit). */
  ghost predicate Inside(bs: seq<Block>, i: int, limit: int)
    requires 0 <= i < |bs|
  {
    0 <= bs[i].start && HeaderSize <= bs[i].size && End(bs[i]) <= limit
  }

  /** Block i ends strictly before block j starts: they neither overlap nor touch. */
  ghost predicate Apart(bs: seq<Block>, i: int, j: int)
    requires 0 <= i < |bs| && 0 <= j < |bs|
  {
    End(bs[i]) < bs[j].start
  }

  /** Every block of a well-formed list lies inside the arena. */
  lemma WellFormedBounds(bs: seq<Block>, limit: int)
    requires WellFormed(bs, limit)
    ensures forall i :: 0 <= i < |bs| ==> 0 <= bs[i].start && HeaderSize <= bs[i].size && End(bs[i]) <= limit
  {
    forall i | 0 <= i < |bs|
      ensures 0 <= bs[i].start && HeaderSize <= bs[i].size && End(bs[i]) <= limit
    {
      assert Inside(bs, i, limit);
    }
  }

  /** Total number of free bytes. */
  function TotalFree(bs: seq<Block>): int
  {
    if bs == [] then 0 else bs[0].size + TotalFree(bs[1..])
  }

  /** Byte x lies in some free block. */
  ghost predicate InFree(bs: seq<Block>, x: int)
  {
    exists i :: 0 <= i < |bs| && bs[i].start <= x < End(bs[i])
  }

  // ---------------------------------------------------------------------
  // Allocation: the best-fit scan and the carve

  /** The test of src/BlockAllocator.cpp:49-50: a block of `size` bytes can
      serve `n` bytes when what is left over is nothing or room for a header. */
  predicate ValidFit(size: int, n: int)
  {
    size >= n && (size - n >= HeaderSize || size - n == 0)
  }

  /** The head test of src/BlockAllocator.cpp:44, with size_t subtraction
      wrapping, only ever holds when the head is too small: its second
      conjunct adds nothing. */
  lemma HeadTestIsTooSmall(size: int, n: int)
    requires 0 <= size < Count64 && 0 <= n < Count64
    ensures (size < n && ((size - n) % Count64 < HeaderSize || (size - n) % Count64 != 0)) <==> size < n
  {
  }

  /** The candidate pair (bestFit, bestFitPrev), as list indices with -1 for
      null, that the allocate loop holds once it has examined nodes 1 .. i-1.
      The starting pair keeps the head whenever it is large enough, without the
      remainder test, and otherwise takes the second node unchecked with no
      predecessor (src/BlockAllocator.cpp:39-46); a later node replaces the
      candidate only when it fits and is strictly smaller (:48-59). */
  function ScanUpTo(bs: seq<Block>, n: int, i: int): (c: (int, int))
    requires 1 <= i <= |bs|
    ensures -1 <= c.0 < |bs| && -1 <= c.1 < |bs|
    ensures c.0 == -1 <==> |bs| == 1 && bs[0].size < n
    decreases i
  {
    if i == 1 then
      (if bs[0].size >= n then 0 else if |bs| > 1 then 1 else -1, -1)
    else
      var c := ScanUpTo(bs, n, i - 1);
      if ValidFit(bs[i - 1].size, n) && bs[i - 1].size < bs[c.0].size then (i - 1, i - 2) else c
  }

  /** The pair the scan ends with. */
  function Scan(bs: seq<Block>, n: int): (int, int)
    requires |bs| >= 1
  {
    ScanUpTo(bs, n, |bs|)
  }

  /** The scan's outcome is one the unlink and split code can act on: either
      nothing, or a block that fits, found together with its true predecessor. */
  predicate ScanSound(bs: seq<Block>, n: int)
    requires |bs| >= 1
  {
    var c := Scan(bs, n);
    c.0 == -1 || (ValidFit(bs[c.0].size, n) && c.1 == c.0 - 1)
  }

  /** Block k is the best fit for `n`: it fits, no fitting block is smaller,
      and every fitting block before it is strictly larger (ties go to the
      earlier block). */
  ghost predicate IsBestFit(bs: seq<Block>, n: int, k: int)
  {
    && 0 <= k < |bs|
    && ValidFit(bs[k].size, n)
    && (forall i :: 0 <= i < |bs| && ValidFit(bs[i].size, n) ==> bs[k].size <= bs[i].size)
    && (forall i :: 0 <= i < k && ValidFit(bs[i].size, n) ==> bs[k].size < bs[i].size)
  }

  /** The best fit for `n`, or -1 when no block fits. */
  function BestFit(bs: seq<Block>, n: int): (k: int)
    ensures k == -1 ==> forall i :: 0 <= i < |bs| ==> !ValidFit(bs[i].size, n)
    ensures k != -1 ==> IsBestFit(bs, n, k)
    decreases |bs|
  {
    if bs == [] then -1
    else
      var k := BestFit(bs[..|bs| - 1], n);
      var last := |bs| - 1;
      if ValidFit(bs[last].size, n) && (k == -1 || bs[last].size < bs[k].size) then last else k
  }

  /** There is only one best fit. */
  lemma BestFitUnique(bs: seq<Block>, n: int, k1: int, k2: int)
    requires IsBestFit(bs, n, k1) && IsBestFit(bs, n, k2)
    ensures k1 == k2
  {
  }

  /** The first candidate of the scan (src/BlockAllocator.cpp:40-46). */
  function InitialCandidate(bs: seq<Block>, n: int): int
    requires |bs| >= 1
  {
    if bs[0].size >= n then 0 else if |bs| > 1 then 1 else -1
  }

  /** What the scan keeps true from one node to the next: the candidate is
      the initial one (with no predecessor), or a fitting node found later,
      together with its predecessor, that is smaller than the initial one; it
      is no larger than any fitting node seen, and strictly smaller than every
      fitting node before it. */
  lemma {:induction false} ScanInvariant(bs: seq<Block>, n: int, i: int)
    requires 1 <= i <= |bs|
    ensures var c, x := ScanUpTo(bs, n, i), InitialCandidate(bs, n);
      && (c.0 == x ==> c.1 == -1)
      && (c.0 != x ==> 1 <= c.0 < i && c.1 == c.0 - 1 && ValidFit(bs[c.0].size, n) && bs[c.0].size < bs[x].size)
      && (c.0 != -1 ==> forall j :: 1 <= j < i && ValidFit(bs[j].size, n) ==> bs[c.0].size <= bs[j].size)
      && (c.0 != -1 ==> forall j :: 1 <= j < c.0 && ValidFit(bs[j].size, n) ==> bs[c.0].size < bs[j].size)
    decreases i
  {
    if i > 1 {
      ScanInvariant(bs, n, i - 1);
    }
  }

  /** Whenever the scan's outcome is sound, it is the best fit: the as-written
      scan then agrees with the reference definition. */
  lemma SoundScanIsBestFit(bs: seq<Block>, n: int)
    requires |bs| >= 1 && ScanSound(bs, n)
    ensures Scan(bs, n).0 == BestFit(bs, n)
  {
    var c := Scan(bs, n);
    ScanInvariant(bs, n, |bs|);
    if c.0 != -1 {
      assert IsBestFit(bs, n, c.0);
      BestFitUnique(bs, n, c.0, BestFit(bs, n));
    }
  }

  /** When the head itself fits, the scan is sound, so it finds the best fit. */
  lemma HeadFitScanIsSound(bs: seq<Block>, n: int)
    requires |bs| >= 1 && ValidFit(bs[0].size, n)
    ensures ScanSound(bs, n)
    ensures Scan(bs, n).0 == BestFit(bs, n) != -1
  {
    ScanInvariant(bs, n, |bs|);
    SoundScanIsBestFit(bs, n);
  }

  /** The head-candidate quirk, as written: with a head too small for 40
      bytes, the second node is chosen although it does not fit either. */
  lemma HeadQuirkPicksUnfitBlock()
    ensures var bs := [Block(0, 24), Block(64, 30)];
      Scan(bs, 40) == (1, -1) && !ValidFit(bs[1].size, 40) && BestFit(bs, 40) == -1
  {
    var bs := [Block(0, 24), Block(64, 30)];
    assert ScanUpTo(bs, 40, 1) == (1, -1);
  }

  /** The head-candidate quirk, as written: the second node fits, but is found
      with no predecessor, so the split would make its tail the new head and
      lose the head block; the best fit is that same node. */
  lemma HeadQuirkLosesHead()
    ensures var bs := [Block(0, 24), Block(64, 100)];
      Scan(bs, 40) == (1, -1) && !ScanSound(bs, 40) && BestFit(bs, 40) == 1
  {
    var bs := [Block(0, 24), Block(64, 100)];
    assert ScanUpTo(bs, 40, 1) == (1, -1);
    assert bs[..1] == [Block(0, 24)];
  }

  /** The head-candidate quirk, as written: a head large enough but with
      too little left over for a header is kept, so the split would leave a
      10-byte tail whose 16-byte header runs past the block. */
  lemma HeadQuirkLeavesRunt()
    ensures var bs := [Block(0, 50)];
      Scan(bs, 40) == (0, -1) && !ScanSound(bs, 40) && BestFit(bs, 40) == -1
  {
    var bs := [Block(0, 50)];
    assert bs[..0] == [];
  }

  /** Free blocks of 100, 40 and 64 bytes: a request of 48 bytes takes the
      64-byte block; one of 50 bytes cannot, because the 14 bytes left over
      could not hold a header, and takes the 100-byte block. */
  lemma BestFitExample()
    ensures var bs := [Block(0, 100), Block(200, 40), Block(300, 64)];
      BestFit(bs, 48) == 2 && Scan(bs, 48).0 == 2 && BestFit(bs, 50) == 0 && Scan(bs, 50).0 == 0
  {
    var bs := [Block(0, 100), Block(200, 40), Block(300, 64)];
    HeadFitScanIsSound(bs, 48);
    HeadFitScanIsSound(bs, 50);
  }

  /** The list after the first `n` bytes of block k are handed out: an exact
      fit is unlinked, otherwise the tail [start + n, end) takes the block's
      place with the same successor (src/BlockAllocator.cpp:66-85). */
  function Carve(bs: seq<Block>, k: int, n: int): seq<Block>
    requires 0 <= k < |bs| && ValidFit(bs[k].size, n)
  {
    if bs[k].size == n then bs[..k] + bs[k + 1..]
    else bs[..k] + [Block(bs[k].start + n, bs[k].size - n)] + bs[k + 1..]
  }

  // ---------------------------------------------------------------------
  // Deallocation: the ordered walk and the two-way merge

  /** Index of the first block that starts at or after `e`, or |bs| when there
      is none: where the walk of src/BlockAllocator.cpp:111-118 stops. */
  function Position(bs: seq<Block>, e: int): (p: int)
    ensures 0 <= p <= |bs|
    ensures forall i :: 0 <= i < p ==> StartsBefore(bs, i, e)
    ensures p < |bs| ==> bs[p].start >= e
    decreases |bs|
  {
    if bs == [] || bs[0].start >= e then 0
    else
      var p := 1 + Position(bs[1..], e);
      assert forall i :: 1 <= i < p ==> StartsBefore(bs, i, e) by {
        forall i | 1 <= i < p
          ensures StartsBefore(bs, i, e)
        {
          assert StartsBefore(bs[1..], i - 1, e);
        }
      }
      p
  }

  /** Block i starts before address `e`. */
  ghost predicate StartsBefore(bs: seq<Block>, i: int, e: int)
    requires 0 <= i < |bs|
  {
    bs[i].start < e
  }

  /** The walk stops at i when every block before i starts below `e` and
      block i, if there is one, does not. */
  lemma {:induction false} PositionIs(bs: seq<Block>, e: int, i: int)
    requires 0 <= i <= |bs|
    requires forall j :: 0 <= j < i ==> StartsBefore(bs, j, e)
    requires i < |bs| ==> bs[i].start >= e
    ensures Position(bs, e) == i
  {
    if i > 0 {
      assert StartsBefore(bs, 0, e);
      forall j | 0 <= j < i - 1
        ensures StartsBefore(bs[1..], j, e)
      {
        assert StartsBefore(bs, j + 1, e);
      }
      PositionIs(bs[1..], e, i - 1);
    }
  }

  /** The block before the walk's stopping point ends exactly where `b` starts. */
  predicate MergesBackward(bs: seq<Block>, b: Block)
  {
    var p := Position(bs, End(b));
    p > 0 && End(bs[p - 1]) == b.start
  }

  /** The block at the walk's stopping point starts exactly where `b` ends. */
  predicate MergesForward(bs: seq<Block>, b: Block)
  {
    var p := Position(bs, End(b));
    p < |bs| && bs[p].start == End(b)
  }

  /** Index of the first old block the merged block replaces: the previous
      block when `b` merges into it, else the stopping point. */
  function MergeLo(bs: seq<Block>, b: Block): (lo: int)
    ensures 0 <= lo <= Position(bs, End(b))
  {
    var p := Position(bs, End(b));
    if MergesBackward(bs, b) then p - 1 else p
  }

  /** Index of the first old block kept after the merged block. */
  function MergeHi(bs: seq<Block>, b: Block): (hi: int)
    ensures Position(bs, End(b)) <= hi <= |bs|
  {
    var p := Position(bs, End(b));
    if MergesForward(bs, b) then p + 1 else p
  }

  /** The block `b` becomes once merged with its neighbours: the previous
      block grows by b's size, and then by the next block's size. */
  function Merged(bs: seq<Block>, b: Block): Block
  {
    var p := Position(bs, End(b));
    var m := if MergesBackward(bs, b) then Block(bs[p - 1].start, bs[p - 1].size + b.size) else b;
    if MergesForward(bs, b) then Block(m.start, m.size + bs[p].size) else m
  }

  /** The list after block `b` is given back: it goes in at its address
      position, merged into the previous block when that block ends where `b`
      starts (src/BlockAllocator.cpp:120-132), and absorbing the next block
      when that one starts where `b` ends (:134-139). */
  function Release(bs: seq<Block>, b: Block): seq<Block>
  {
    bs[..MergeLo(bs, b)] + [Merged(bs, b)] + bs[MergeHi(bs, b)..]
  }

  /** Block `b` shares no byte with any free block. */
  ghost predicate Disjoint(bs: seq<Block>, b: Block)
  {
    forall i :: 0 <= i < |bs| ==> Separate(bs, i, b)
  }

  /** Block i and block `b` share no byte. */
  ghost predicate Separate(bs: seq<Block>, i: int, b: Block)
    requires 0 <= i < |bs|
  {
    End(bs[i]) <= b.start || End(b) <= bs[i].start
  }

  // ---------------------------------------------------------------------
  // What allocation and deallocation guarantee about the list

  lemma {:induction false} TotalFreeConcat(a: seq<Block>, b: seq<Block>)
    ensures TotalFree(a + b) == TotalFree(a) + TotalFree(b)
    decreases |a|
  {
    if a == [] {
      assert a + b == b;
    } else {
      assert (a + b)[1..] == a[1..] + b;
      TotalFreeConcat(a[1..], b);
    }
  }

  /** The free bytes of a list split around position k. */
  lemma TotalFreeAround(bs: seq<Block>, k: int)
    requires 0 <= k < |bs|
    ensures TotalFree(bs) == TotalFree(bs[..k]) + bs[k].size + TotalFree(bs[k + 1..])
  {
    assert bs == bs[..k] + [bs[k]] + bs[k + 1..];
    TotalFreeConcat(bs[..k] + [bs[k]], bs[k + 1..]);
    TotalFreeConcat(bs[..k], [bs[k]]);
    assert TotalFree([bs[k]]) == bs[k].size + TotalFree([]);
  }

  /** The free bytes of a list with one block in the middle. */
  lemma TotalFreeWith(a: seq<Block>, m: Block, c: seq<Block>)
    ensures TotalFree(a + [m] + c) == TotalFree(a) + m.size + TotalFree(c)
  {
    TotalFreeConcat(a + [m], c);
    TotalFreeConcat(a, [m]);
    assert TotalFree([m]) == m.size + TotalFree([]);
  }

  /** Carving keeps the list well formed. */
  lemma CarveWellFormed(bs: seq<Block>, k: int, n: int, limit: int)
    requires WellFormed(bs, limit)
    requires 0 <= k < |bs| && ValidFit(bs[k].size, n) && n >= 0
    ensures WellFormed(Carve(bs, k, n), limit)
  {
    var r := Carve(bs, k, n);
    var split := bs[k].size != n;
    forall i | 0 <= i < |r|
      ensures Inside(r, i, limit)
    {
      CarveAt(bs, k, n, i);
      var o := if i < k || (split && i == k) then i else if split then i else i + 1;
      assert Inside(bs, o, limit);
    }
    forall i, j | 0 <= i < j < |r|
      ensures Apart(r, i, j)
    {
      CarveAt(bs, k, n, i);
      CarveAt(bs, k, n, j);
      var oi := if i < k || split then i else i + 1;
      var oj := if j < k || split then j else j + 1;
      assert Apart(bs, oi, oj);
    }
  }

  /** Carving removes exactly `n` free bytes. */
  lemma CarveTotal(bs: seq<Block>, k: int, n: int)
    requires 0 <= k < |bs| && ValidFit(bs[k].size, n)
    ensures TotalFree(Carve(bs, k, n)) == TotalFree(bs) - n
  {
    TotalFreeAround(bs, k);
    if bs[k].size == n {
      TotalFreeConcat(bs[..k], bs[k + 1..]);
    } else {
      TotalFreeWith(bs[..k], Block(bs[k].start + n, bs[k].size - n), bs[k + 1..]);
    }
  }

  /** Block i of the carved list, in terms of the old list. */
  lemma CarveAt(bs: seq<Block>, k: int, n: int, i: int)
    requires 0 <= k < |bs| && ValidFit(bs[k].size, n)
    ensures |Carve(bs, k, n)| == if bs[k].size == n then |bs| - 1 else |bs|
    ensures 0 <= i < |Carve(bs, k, n)| ==>
      Carve(bs, k, n)[i] ==
        if i < k then bs[i]
        else if bs[k].size == n then bs[i + 1]
        else if i == k then Block(bs[k].start + n, bs[k].size - n)
        else bs[i]
  {
  }

  /** Carving frees nothing and takes exactly [start, start + n) of block k
      out of the free bytes. */
  lemma CarveCovers(bs: seq<Block>, k: int, n: int, limit: int, x: int)
    requires WellFormed(bs, limit)
    requires 0 <= k < |bs| && ValidFit(bs[k].size, n) && n >= 0
    ensures InFree(Carve(bs, k, n), x) <==> InFree(bs, x) && !(bs[k].start <= x < bs[k].start + n)
  {
    if InFree(Carve(bs, k, n), x) {
      CarveCoversOnlyFree(bs, k, n, limit, x);
    }
    if InFree(bs, x) && !(bs[k].start <= x < bs[k].start + n) {
      CarveKeepsRest(bs, k, n, x);
    }
  }

  /** Every byte free after a carve was free before, outside the bytes taken. */
  lemma CarveCoversOnlyFree(bs: seq<Block>, k: int, n: int, limit: int, x: int)
    requires WellFormed(bs, limit)
    requires 0 <= k < |bs| && ValidFit(bs[k].size, n) && n >= 0
    requires InFree(Carve(bs, k, n), x)
    ensures InFree(bs, x) && !(bs[k].start <= x < bs[k].start + n)
  {
    var r := Carve(bs, k, n);
    var i :| 0 <= i < |r| && r[i].start <= x < End(r[i]);
    CarveAt(bs, k, n, i);
    if i < k {
      assert bs[i].start <= x < End(bs[i]);
      assert Apart(bs, i, k);
    } else if bs[k].size != n && i == k {
      assert bs[k].start <= x < End(bs[k]);
    } else {
      var j := if bs[k].size == n then i + 1 else i;
      assert r[i] == bs[j];
      assert bs[j].start <= x < End(bs[j]);
      assert Apart(bs, k, j);
    }
  }

  /** Every byte free before a carve, outside the bytes taken, is still free. */
  lemma CarveKeepsRest(bs: seq<Block>, k: int, n: int, x: int)
    requires 0 <= k < |bs| && ValidFit(bs[k].size, n)
    requires InFree(bs, x) && !(bs[k].start <= x < bs[k].start + n)
    ensures InFree(Carve(bs, k, n), x)
  {
    var r := Carve(bs, k, n);
    var j :| 0 <= j < |bs| && bs[j].start <= x < End(bs[j]);
    var i := if j < k || (bs[k].size != n && j >= k) then j else j - 1;
    CarveAt(bs, k, n, i);
    assert 0 <= i < |r| && r[i].start <= x < End(r[i]);
  }

  /** The bytes a carve hands out are no longer free. */
  lemma CarveTakes(bs: seq<Block>, k: int, n: int, limit: int)
    requires WellFormed(bs, limit)
    requires 0 <= k < |bs| && ValidFit(bs[k].size, n) && n >= 0
    ensures forall x :: bs[k].start <= x < bs[k].start + n ==> !InFree(Carve(bs, k, n), x)
  {
    forall x | bs[k].start <= x < bs[k].start + n
      ensures !InFree(Carve(bs, k, n), x)
    {
      if InFree(Carve(bs, k, n), x) {
        CarveCoversOnlyFree(bs, k, n, limit, x);
      }
    }
  }

  /** Where `b` goes relative to the list: every block before the stopping
      point ends at or before b's start, every block from it on starts at or
      after b's end. */
  lemma PositionSplits(bs: seq<Block>, b: Block, limit: int)
    requires WellFormed(bs, limit) && Disjoint(bs, b) && b.size > 0
    ensures var p := Position(bs, End(b));
      && (forall i :: 0 <= i < p ==> End(bs[i]) <= b.start)
      && (forall i :: p <= i < |bs| ==> End(b) <= bs[i].start)
  {
    var p := Position(bs, End(b));
    forall i | 0 <= i < p
      ensures End(bs[i]) <= b.start
    {
      assert Separate(bs, i, b) && StartsBefore(bs, i, End(b));
    }
    forall i | p <= i < |bs|
      ensures End(b) <= bs[i].start
    {
      if i > p {
        assert Inside(bs, p, limit) && Apart(bs, p, i);
      }
    }
  }

  /** A slice of a well-formed list is well formed. */
  lemma WellFormedSlice(bs: seq<Block>, lo: int, hi: int, limit: int)
    requires WellFormed(bs, limit) && 0 <= lo <= hi <= |bs|
    ensures WellFormed(bs[lo..hi], limit)
  {
    var s := bs[lo..hi];
    forall i | 0 <= i < |s|
      ensures Inside(s, i, limit)
    {
      assert s[i] == bs[lo + i] && Inside(bs, lo + i, limit);
    }
    forall i, j | 0 <= i < j < |s|
      ensures Apart(s, i, j)
    {
      assert s[i] == bs[lo + i] && s[j] == bs[lo + j] && Apart(bs, lo + i, lo + j);
    }
  }

  /** Two well-formed lists joined by one block with a gap on either side
      make a well-formed list. */
  lemma WellFormedJoin(a: seq<Block>, m: Block, c: seq<Block>, limit: int)
    requires WellFormed(a, limit) && WellFormed(c, limit)
    requires 0 <= m.start && HeaderSize <= m.size && End(m) <= limit
    requires a != [] ==> End(a[|a| - 1]) < m.start
    requires c != [] ==> End(m) < c[0].start
    ensures WellFormed(a + [m] + c, limit)
  {
    var r := a + [m] + c;
    forall i | 0 <= i < |r|
      ensures Inside(r, i, limit)
    {
      JoinAt(a, m, c, i);
      if i < |a| {
        assert Inside(a, i, limit);
      } else if i > |a| {
        assert Inside(c, i - |a| - 1, limit);
      }
    }
    forall i, j | 0 <= i < j < |r|
      ensures Apart(r, i, j)
    {
      JoinPair(a, m, c, limit, i, j);
    }
  }

  /** Block i of a list joined around one block. */
  lemma JoinAt(a: seq<Block>, m: Block, c: seq<Block>, i: int)
    ensures 0 <= i < |a| + 1 + |c| ==>
      (a + [m] + c)[i] == if i < |a| then a[i] else if i == |a| then m else c[i - |a| - 1]
  {
  }

  /** One pair of the join is in order. */
  lemma JoinPair(a: seq<Block>, m: Block, c: seq<Block>, limit: int, i: int, j: int)
    requires WellFormed(a, limit) && WellFormed(c, limit)
    requires HeaderSize <= m.size
    requires a != [] ==> End(a[|a| - 1]) < m.start
    requires c != [] ==> End(m) < c[0].start
    requires 0 <= i < j < |a| + 1 + |c|
    ensures Apart(a + [m] + c, i, j)
  {
    JoinAt(a, m, c, i);
    JoinAt(a, m, c, j);
    var q := |a|;
    // every block of `a` ends by the end of a's last block
    ghost var lastA := if i < q then End(a[q - 1]) else 0;
    if i < q {
      assert Inside(a, q - 1, limit);
      if i < q - 1 {
        assert Apart(a, i, q - 1);
      }
      assert End(a[i]) <= lastA < m.start;
    }
    // every block of `c` starts at or after c's first block
    if j > q {
      assert Inside(c, 0, limit);
      if j > q + 1 {
        assert Apart(c, 0, j - q - 1);
      }
      assert End(m) < c[0].start <= c[j - q - 1].start;
    }
    if i < q && j < q {
      assert Apart(a, i, j);
    } else if i > q {
      assert Apart(c, i - q - 1, j - q - 1);
    }
  }

  /** The merged block spans the neighbours it absorbed and `b`, and each
      absorbed neighbour touches `b`. */
  lemma MergedSpan(bs: seq<Block>, b: Block)
    ensures var p, lo, hi, m := Position(bs, End(b)), MergeLo(bs, b), MergeHi(bs, b), Merged(bs, b);
      && m.start == (if lo < p then bs[lo].start else b.start)
      && End(m) == (if hi > p then End(bs[p]) else End(b))
      && m.size == b.size + (if lo < p then bs[lo].size else 0) + (if hi > p then bs[p].size else 0)
      && (lo < p ==> End(bs[lo]) == b.start)
      && (hi > p ==> bs[p].start == End(b))
  {
  }

  /** The merged block lies in the arena, holds a header, and leaves a gap to
      the blocks kept on either side. */
  lemma ReleaseGaps(bs: seq<Block>, b: Block, limit: int)
    requires WellFormed(bs, limit) && Disjoint(bs, b)
    requires 0 <= b.start && HeaderSize <= b.size && End(b) <= limit
    ensures var lo, hi, m := MergeLo(bs, b), MergeHi(bs, b), Merged(bs, b);
      && 0 <= m.start && HeaderSize <= m.size && End(m) <= limit
      && (lo > 0 ==> End(bs[lo - 1]) < m.start)
      && (hi < |bs| ==> End(m) < bs[hi].start)
  {
    var p, lo, hi := Position(bs, End(b)), MergeLo(bs, b), MergeHi(bs, b);
    PositionSplits(bs, b, limit);
    MergedSpan(bs, b);
    if lo < p {
      assert Inside(bs, lo, limit);
      if lo > 0 {
        assert Apart(bs, lo - 1, lo);
      }
    } else if p > 0 {
      assert End(bs[p - 1]) <= b.start && End(bs[p - 1]) != b.start;
    }
    if hi > p {
      assert Inside(bs, p, limit);
      if hi < |bs| {
        assert Apart(bs, p, hi);
      }
    } else if p < |bs| {
      assert End(b) <= bs[p].start && bs[p].start != End(b);
    }
  }

  /** Giving back a block that overlaps no free block keeps the list well
      formed: address order holds and no two free blocks touch. */
  lemma ReleaseWellFormed(bs: seq<Block>, b: Block, limit: int)
    requires WellFormed(bs, limit) && Disjoint(bs, b)
    requires 0 <= b.start && HeaderSize <= b.size && End(b) <= limit
    ensures WellFormed(Release(bs, b), limit)
  {
    var lo, hi, m := MergeLo(bs, b), MergeHi(bs, b), Merged(bs, b);
    var before, after := bs[..lo], bs[hi..];
    WellFormedSlice(bs, 0, lo, limit);
    assert before == bs[0..lo];
    WellFormedSlice(bs, hi, |bs|, limit);
    assert after == bs[hi..|bs|];
    ReleaseGaps(bs, b, limit);
    if before != [] {
      assert before[|before| - 1] == bs[lo - 1];
    }
    if after != [] {
      assert after[0] == bs[hi];
    }
    WellFormedJoin(before, m, after, limit);
  }

  /** The free bytes of a list cut into three slices, the middle one short. */
  lemma SplitTotal(bs: seq<Block>, lo: int, hi: int)
    requires 0 <= lo <= hi <= |bs| && hi - lo <= 2
    ensures TotalFree(bs) == TotalFree(bs[..lo]) + TotalFree(bs[lo..hi]) + TotalFree(bs[hi..])
  {
    assert bs == bs[..lo] + bs[lo..hi] + bs[hi..];
    TotalFreeConcat(bs[..lo] + bs[lo..hi], bs[hi..]);
    TotalFreeConcat(bs[..lo], bs[lo..hi]);
  }

  /** Giving back a block adds exactly its size to the free bytes. */
  lemma ReleaseTotal(bs: seq<Block>, b: Block)
    ensures TotalFree(Release(bs, b)) == TotalFree(bs) + b.size
  {
    var p, lo, hi, m := Position(bs, End(b)), MergeLo(bs, b), MergeHi(bs, b), Merged(bs, b);
    MergedSpan(bs, b);
    TotalFreeWith(bs[..lo], m, bs[hi..]);
    SplitTotal(bs, lo, hi);
    var mid := bs[lo..hi];
    if lo < p && hi > p {
      assert mid == [bs[lo], bs[p]] && mid[1..] == [bs[p]];
      assert TotalFree(mid) == bs[lo].size + TotalFree([bs[p]]);
      assert TotalFree([bs[p]]) == bs[p].size + TotalFree([]);
    } else if lo < p {
      assert mid == [bs[lo]];
      assert TotalFree(mid) == bs[lo].size + TotalFree([]);
    } else if hi > p {
      assert mid == [bs[p]];
      assert TotalFree(mid) == bs[p].size + TotalFree([]);
    } else {
      assert mid == [];
    }
  }

  /** Block i of the released list, in terms of the old list. */
  lemma ReleaseAt(bs: seq<Block>, b: Block, i: int)
    ensures var lo, hi := MergeLo(bs, b), MergeHi(bs, b);
      && |Release(bs, b)| == lo + 1 + |bs| - hi
      && (0 <= i < |Release(bs, b)| ==>
            Release(bs, b)[i] == if i < lo then bs[i] else if i == lo then Merged(bs, b) else bs[i - lo - 1 + hi])
  {
  }

  /** Giving back a block makes exactly its bytes free in addition. */
  lemma ReleaseCovers(bs: seq<Block>, b: Block, limit: int, x: int)
    requires WellFormed(bs, limit) && 0 <= b.size
    ensures InFree(Release(bs, b), x) <==> InFree(bs, x) || b.start <= x < End(b)
  {
    WellFormedBounds(bs, limit);
    if InFree(Release(bs, b), x) {
      ReleaseCoversOnly(bs, b, x);
    }
    if InFree(bs, x) || b.start <= x < End(b) {
      ReleaseCoversAll(bs, b, x);
    }
  }

  /** Every byte free after the release was free before or belongs to `b`. */
  lemma ReleaseCoversOnly(bs: seq<Block>, b: Block, x: int)
    requires InFree(Release(bs, b), x)
    ensures InFree(bs, x) || b.start <= x < End(b)
  {
    var p, lo, hi := Position(bs, End(b)), MergeLo(bs, b), MergeHi(bs, b);
    MergedSpan(bs, b);
    var r := Release(bs, b);
    var i :| 0 <= i < |r| && r[i].start <= x < End(r[i]);
    ReleaseAt(bs, b, i);
    if i < lo {
      assert bs[i].start <= x < End(bs[i]);
    } else if i > lo {
      assert bs[i - lo - 1 + hi].start <= x < End(bs[i - lo - 1 + hi]);
    } else if lo < p && x < b.start {
      assert bs[lo].start <= x < End(bs[lo]);
    } else if hi > p && x >= End(b) {
      assert bs[p].start <= x < End(bs[p]);
    }
  }

  /** Every byte free before the release, and every byte of `b`, is free after it. */
  lemma ReleaseCoversAll(bs: seq<Block>, b: Block, x: int)
    requires forall i :: 0 <= i < |bs| ==> 0 <= bs[i].size
    requires 0 <= b.size
    requires InFree(bs, x) || b.start <= x < End(b)
    ensures InFree(Release(bs, b), x)
  {
    var lo, hi := MergeLo(bs, b), MergeHi(bs, b);
    var r := Release(bs, b);
    var i: int;
    if b.start <= x < End(b) {
      MergedCovers(bs, b, lo);
      i := lo;
    } else {
      var j :| 0 <= j < |bs| && bs[j].start <= x < End(bs[j]);
      if j < lo {
        i := j;
      } else if j >= hi {
        i := j - hi + lo + 1;
      } else {
        MergedCovers(bs, b, j);
        i := lo;
      }
    }
    ReleaseAt(bs, b, i);
    assert r[i].start <= x < End(r[i]);
  }

  /** The merged block covers `b` and each neighbour it absorbed. */
  lemma MergedCovers(bs: seq<Block>, b: Block, j: int)
    requires forall i :: 0 <= i < |bs| ==> 0 <= bs[i].size
    requires 0 <= b.size
    ensures var m := Merged(bs, b);
      && m.start <= b.start && End(b) <= End(m)
      && (MergeLo(bs, b) <= j < MergeHi(bs, b) ==> m.start <= bs[j].start && End(bs[j]) <= End(m))
  {
    var p := Position(bs, End(b));
    MergedSpan(bs, b);
    if MergeLo(bs, b) < p {
      assert 0 <= bs[p - 1].size;
    }
    if MergeHi(bs, b) > p {
      assert 0 <= bs[p].size;
    }
  }

  /** On a fresh allocator (one free block over the whole arena), allocating
      `n` bytes and giving them back restores that single block. */
  lemma FreshRoundTrip(total: int, n: int)
    requires n >= HeaderSize && ValidFit(total, n)
    ensures var whole := [Block(0, total)];
      && Scan(whole, n).0 == BestFit(whole, n) == 0
      && Release(Carve(whole, 0, n), Block(0, n)) == whole
  {
    var whole := [Block(0, total)];
    HeadFitScanIsSound(whole, n);
    var left := Carve(whole, 0, n);
    if total != n {
      assert left == [Block(n, total - n)];
      assert Position(left, n) == 0;
      assert !MergesBackward(left, Block(0, n)) && MergesForward(left, Block(0, n));
    } else {
      assert left == [];
    }
  }

  /** Giving a block back to an empty list. */
  lemma ReleaseIntoNothing(b: Block)
    ensures Release([], b) == [b]
  {
  }

  /** Giving back a block that ends short of the only free block. */
  lemma ReleaseApartBefore(c: Block, b: Block)
    requires End(b) < c.start
    ensures Release([c], b) == [b, c]
  {
    assert Position([c], End(b)) == 0;
  }

  /** Giving back a block that ends where the only free block starts. */
  lemma ReleaseJoinsFront(c: Block, b: Block)
    requires End(b) == c.start
    ensures Release([c], b) == [Block(b.start, b.size + c.size)]
  {
    assert Position([c], End(b)) == 0;
  }

  /** Giving back a block that starts where the only free block ends. */
  lemma ReleaseJoinsBack(c: Block, b: Block)
    requires End(c) == b.start && c.start < End(b)
    ensures Release([c], b) == [Block(c.start, c.size + b.size)]
  {
    assert Position([c], End(b)) == 1;
  }

  /** Giving back the block that fills the gap between two free blocks. */
  lemma ReleaseBetween(a: Block, c: Block, b: Block)
    requires End(a) == b.start && End(b) == c.start && a.start < b.start && 0 <= b.size
    ensures Release([a, c], b) == [Block(a.start, a.size + b.size + c.size)]
  {
    assert [a, c][1..] == [c];
    assert Position([c], End(b)) == 0;
    assert Position([a, c], End(b)) == 1;
  }

  /** Two blocks carved one after the other from a fresh allocator come back
      together as the single original block, whichever is freed first. */
  lemma CoalescingIsOrderIndependent(total: int, n1: int, n2: int)
    requires n1 >= HeaderSize && n2 >= HeaderSize
    requires total >= n1 + HeaderSize && ValidFit(total - n1, n2)
    ensures var l1 := Carve([Block(0, total)], 0, n1);
      && l1 == [Block(n1, total - n1)]
      && var l2 := Carve(l1, 0, n2);
      && Release(Release(l2, Block(0, n1)), Block(n1, n2)) == [Block(0, total)]
      && Release(Release(l2, Block(n1, n2)), Block(0, n1)) == [Block(0, total)]
  {
    var l2 := CarveTwice(total, n1, n2);
    FreeLowThenHigh(total, n1, n2);
    FreeHighThenLow(total, n1, n2);
  }

  /** Two carves from a fresh allocator: the list that is left. */
  lemma CarveTwice(total: int, n1: int, n2: int) returns (l2: seq<Block>)
    requires n1 >= HeaderSize && total >= n1 + HeaderSize && ValidFit(total - n1, n2)
    ensures Carve([Block(0, total)], 0, n1) == [Block(n1, total - n1)]
    ensures l2 == Carve([Block(n1, total - n1)], 0, n2)
    ensures l2 == if total - n1 == n2 then [] else [Block(n1 + n2, total - n1 - n2)]
  {
    l2 := Carve([Block(n1, total - n1)], 0, n2);
  }

  /** After two carves, giving back [0, n1) and then [n1, n1 + n2) restores
      the whole arena. */
  lemma FreeLowThenHigh(total: int, n1: int, n2: int)
    requires n1 >= HeaderSize && n2 >= HeaderSize
    requires total >= n1 + HeaderSize && ValidFit(total - n1, n2)
    ensures Release(Release(Carve([Block(n1, total - n1)], 0, n2), Block(0, n1)), Block(n1, n2)) == [Block(0, total)]
  {
    var l2 := CarveTwice(total, n1, n2);
    var a, b := Block(0, n1), Block(n1, n2);
    if total - n1 == n2 {
      ReleaseIntoNothing(a);
      ReleaseJoinsBack(a, b);
    } else {
      var rest := Block(n1 + n2, total - n1 - n2);
      ReleaseApartBefore(rest, a);
      assert Release(l2, a) == [a, rest];
      ReleaseBetween(a, rest, b);
    }
  }

  /** After two carves, giving back [n1, n1 + n2) and then [0, n1) restores
      the whole arena. */
  lemma FreeHighThenLow(total: int, n1: int, n2: int)
    requires n1 >= HeaderSize && n2 >= HeaderSize
    requires total >= n1 + HeaderSize && ValidFit(total - n1, n2)
    ensures Release(Release(Carve([Block(n1, total - n1)], 0, n2), Block(n1, n2)), Block(0, n1)) == [Block(0, total)]
  {
    var l2 := CarveTwice(total, n1, n2);
    var a, b := Block(0, n1), Block(n1, n2);
    if total - n1 == n2 {
      ReleaseIntoNothing(b);
      ReleaseJoinsFront(b, a);
    } else {
      var rest := Block(n1 + n2, total - n1 - n2);
      ReleaseJoinsFront(rest, b);
      ReleaseJoinsFront(Block(n1, n2 + rest.size), a);
    }
  }
}
