/** The best-fit block allocator (src/BlockAllocator.cpp): free blocks carry
    an in-arena {size, next} header and form a singly linked list headed by
    `blocks`; allocate picks a block with the scan of FreeList.ScanUpTo and
    carves it, deallocate walks to the block's address position and merges
    it with the neighbours it touches.

    A header is two abstract cells: the size at the block's offset and the
    next link at offset + W. The ghost sequence `Free` lists the free blocks
    in list order, and Valid() ties it to those cells. */
module Blocks {
  import opened Arena
  import opened FreeList

  /** Every block of `bs` has its header in `mem`: its size at its start and
      the start of the next block in the list (or Null) one word further on. */
  ghost predicate Headers(mem: seq<int>, bs: seq<Block>)
  {
    forall i :: 0 <= i < |bs| ==> HeaderAt(mem, bs, i)
  }

  /** The header of block i is in `mem`. */
  ghost predicate HeaderAt(mem: seq<int>, bs: seq<Block>, i: int)
    requires 0 <= i < |bs|
  {
    && 0 <= bs[i].start && bs[i].start + W < |mem|
    && mem[bs[i].start] == bs[i].size
    && mem[bs[i].start + W] == StartAt(bs, i + 1)
  }

  /** The link cell allocate rewrites outside the block it carves: the next
      field of the block before block k, when there is one. */
  function CarveLink(bs: seq<Block>, k: int): int
  {
    if 0 < k <= |bs| then bs[k - 1].start + W else Null
  }

  /** The link cell deallocate rewrites outside the merged block: the next
      field of the block before the stopping point, when `b` does not merge
      into that block. */
  function ReleaseLink(bs: seq<Block>, b: Block): int
  {
    var p := Position(bs, End(b));
    if 0 < p && !MergesBackward(bs, b) then bs[p - 1].start + W else Null
  }

  /** `m1` agrees with `m0` everywhere except on [lo, hi) and at `link`. */
  ghost predicate SameOutside(m0: seq<int>, m1: seq<int>, lo: int, hi: int, link: int)
  {
    && |m0| == |m1|
    && forall j :: 0 <= j < |m0| && !(lo <= j < hi) && j != link ==> m1[j] == m0[j]
  }

  /** CheckSize: the size tag one word before an allocated pointer. */
  function CheckSize(memory: array<int>, p: int): int
    reads memory
    requires W <= p <= memory.Length
  {
    memory[p - W]
  }

  /** The header cells of block i lie inside it, one word apart. */
  lemma HeaderCellsInside(bs: seq<Block>, limit: int, i: int)
    requires WellFormed(bs, limit) && 0 <= i < |bs|
    ensures 0 <= bs[i].start && bs[i].start + W < End(bs[i]) <= limit
  {
    assert Inside(bs, i, limit);
  }

  /** The headers after a carve: block k's own header cells may change and
      so may the link into it, and when those hold the new values and every
      other cell is as before, the carved list's headers are all in place. */
  lemma HeadersAfterCarve(m0: seq<int>, m1: seq<int>, bs: seq<Block>, k: int, n: int, limit: int)
    requires WellFormed(bs, limit) && |m0| == limit && Headers(m0, bs)
    requires 0 <= k < |bs| && ValidFit(bs[k].size, n) && HeaderSize <= n
    requires Inside(bs, k, limit) && (k > 0 ==> Inside(bs, k - 1, limit))
    requires SameOutside(m0, m1, bs[k].start, End(bs[k]), CarveLink(bs, k))
    requires k > 0 ==> m1[bs[k - 1].start + W] == StartAt(Carve(bs, k, n), k)
    requires bs[k].size != n ==> m1[bs[k].start + n] == bs[k].size - n && m1[bs[k].start + n + W] == StartAt(bs, k + 1)
    ensures Headers(m1, Carve(bs, k, n))
  {
    var r := Carve(bs, k, n);
    forall i | 0 <= i < |r|
      ensures HeaderAt(m1, r, i)
    {
      if i < k {
        CarveHeaderBefore(m0, m1, bs, k, n, limit, i);
      } else if bs[k].size != n && i == k {
        HeaderCellsInside(bs, limit, k);
      } else {
        CarveHeaderAfter(m0, m1, bs, k, n, limit, i);
      }
    }
  }

  /** A block before the carved one keeps its header; the one just before
      it gets the new link. */
  lemma CarveHeaderBefore(m0: seq<int>, m1: seq<int>, bs: seq<Block>, k: int, n: int, limit: int, i: int)
    requires WellFormed(bs, limit) && |m0| == |m1| == limit && Headers(m0, bs)
    requires 0 <= i < k < |bs| && ValidFit(bs[k].size, n) && HeaderSize <= n
    requires Inside(bs, k - 1, limit)
    requires forall j :: 0 <= j < limit && !(bs[k].start <= j < End(bs[k])) && j != CarveLink(bs, k) ==> m1[j] == m0[j]
    requires m1[bs[k - 1].start + W] == StartAt(Carve(bs, k, n), k)
    ensures HeaderAt(m1, Carve(bs, k, n), i)
  {
    var r := Carve(bs, k, n);
    assert HeaderAt(m0, bs, i);
    assert r[i] == bs[i];
    HeaderCellsInside(bs, limit, i);
    HeaderCellsInside(bs, limit, k - 1);
    assert Apart(bs, k - 1, k);
    if i < k - 1 {
      assert Apart(bs, i, k - 1);
      assert r[i + 1] == bs[i + 1];
    }
  }

  /** A block after the carved one keeps its header, at its shifted index. */
  lemma CarveHeaderAfter(m0: seq<int>, m1: seq<int>, bs: seq<Block>, k: int, n: int, limit: int, i: int)
    requires WellFormed(bs, limit) && |m0| == |m1| == limit && Headers(m0, bs)
    requires 0 <= k < |bs| && ValidFit(bs[k].size, n) && HeaderSize <= n
    requires forall j :: 0 <= j < limit && !(bs[k].start <= j < End(bs[k])) && j != CarveLink(bs, k) ==> m1[j] == m0[j]
    requires k <= i < |Carve(bs, k, n)| && (bs[k].size != n ==> k < i)
    ensures HeaderAt(m1, Carve(bs, k, n), i)
  {
    var r := Carve(bs, k, n);
    var j := if bs[k].size != n then i else i + 1;
    assert HeaderAt(m0, bs, j);
    assert r[i] == bs[j];
    HeaderCellsInside(bs, limit, j);
    assert Apart(bs, k, j);
    if k > 0 {
      HeaderCellsInside(bs, limit, k - 1);
      assert Apart(bs, k - 1, k);
    }
    if i + 1 < |r| {
      assert r[i + 1] == bs[j + 1];
    }
  }

  /** The best-fit scan of allocate (src/BlockAllocator.cpp:39-59) over the
      list `bs` whose headers are in `mem` and whose head is at `head`: the
      pair it ends with is the as-written candidate pair of FreeList.Scan. */
  method FindBestFit(mem: array<int>, head: int, n: int, ghost bs: seq<Block>) returns (bestFit: int, bestFitPrev: int)
    requires Headers(mem[..], bs) && |bs| >= 1 && head == bs[0].start
    requires forall i :: 0 <= i < |bs| ==> 0 <= bs[i].start && 0 <= bs[i].size < Count64
    requires 0 <= n < Count64
    ensures bestFit == StartAt(bs, Scan(bs, n).0)
    ensures bestFitPrev == StartAt(bs, Scan(bs, n).1)
  {
    assert HeaderAt(mem[..], bs, 0);
    bestFitPrev := Null;
    bestFit := head;
    var block := mem[head + W];
    var prev := head;

    HeadTestIsTooSmall(mem[head], n);
    if mem[head] < n && ((mem[head] - n) % Count64 < HeaderSize || (mem[head] - n) % Count64 != 0) {
      bestFit := mem[head + W];
    }

    ghost var i := 1;
    while block != Null
      invariant 1 <= i <= |bs|
      invariant block == StartAt(bs, i) && prev == bs[i - 1].start
      invariant bestFit == StartAt(bs, ScanUpTo(bs, n, i).0)
      invariant bestFitPrev == StartAt(bs, ScanUpTo(bs, n, i).1)
      decreases |bs| - i
    {
      assert HeaderAt(mem[..], bs, i);
      assert HeaderAt(mem[..], bs, ScanUpTo(bs, n, i).0);
      // the block is enough, what is left is a block or nothing, and it fits better
      if mem[block] >= n && (mem[block] - n >= HeaderSize || mem[block] - n == 0) && mem[block] < mem[bestFit] {
        bestFit := block;
        bestFitPrev := prev;
      }
      prev := block;
      block := mem[block + W];
      i := i + 1;
    }
  }

  /** Cells of the freed block are no header cell of a free block, so
      changing only them keeps every header in place. */
  lemma HeadersUntouched(m0: seq<int>, m1: seq<int>, bs: seq<Block>, b: Block, limit: int)
    requires WellFormed(bs, limit) && |m0| == limit && Headers(m0, bs) && Disjoint(bs, b)
    requires SameOutside(m0, m1, b.start, End(b), Null)
    ensures Headers(m1, bs)
  {
    forall i | 0 <= i < |bs|
      ensures HeaderAt(m1, bs, i)
    {
      assert HeaderAt(m0, bs, i);
      HeaderCellsInside(bs, limit, i);
      assert Separate(bs, i, b);
    }
  }

  /** What deallocate may assume of the block it is given back: it lies in
      the arena, holds a header and overlaps no free block. */
  ghost predicate Returnable(bs: seq<Block>, b: Block, limit: int)
  {
    WellFormed(bs, limit) && Disjoint(bs, b) && 0 <= b.start && HeaderSize <= b.size && End(b) <= limit
  }

  /** The headers after a release: when the merged block's header and the
      link into it hold their new values and every other cell outside the
      merged block is as before, the released list's headers are all in
      place. */
  lemma HeadersAfterRelease(m0: seq<int>, m1: seq<int>, bs: seq<Block>, b: Block, limit: int)
    requires Returnable(bs, b, limit) && |m0| == limit && Headers(m0, bs)
    requires SameOutside(m0, m1, Merged(bs, b).start, End(Merged(bs, b)), ReleaseLink(bs, b))
    requires ReleaseLink(bs, b) != Null ==> 0 <= ReleaseLink(bs, b) < |m1| && m1[ReleaseLink(bs, b)] == Merged(bs, b).start
    requires 0 <= Merged(bs, b).start && Merged(bs, b).start + W < |m1|
    requires m1[Merged(bs, b).start] == Merged(bs, b).size
    requires m1[Merged(bs, b).start + W] == StartAt(bs, MergeHi(bs, b))
    ensures Headers(m1, Release(bs, b))
  {
    var r, lo := Release(bs, b), MergeLo(bs, b);
    forall i | 0 <= i < |r|
      ensures HeaderAt(m1, r, i)
    {
      ReleaseAt(bs, b, i);
      if i < lo {
        ReleaseHeaderBefore(m0, m1, bs, b, limit, i);
      } else if i == lo {
        ReleaseAt(bs, b, lo + 1);
      } else {
        ReleaseHeaderAfter(m0, m1, bs, b, limit, i);
      }
    }
  }

  /** A block kept before the merged one keeps its header; the one just
      before it links to the merged block. */
  lemma ReleaseHeaderBefore(m0: seq<int>, m1: seq<int>, bs: seq<Block>, b: Block, limit: int, i: int)
    requires Returnable(bs, b, limit) && |m0| == limit && Headers(m0, bs)
    requires SameOutside(m0, m1, Merged(bs, b).start, End(Merged(bs, b)), ReleaseLink(bs, b))
    requires ReleaseLink(bs, b) != Null ==> 0 <= ReleaseLink(bs, b) < |m1| && m1[ReleaseLink(bs, b)] == Merged(bs, b).start
    requires 0 <= i < MergeLo(bs, b)
    ensures HeaderAt(m1, Release(bs, b), i)
  {
    var p, lo, m, r := Position(bs, End(b)), MergeLo(bs, b), Merged(bs, b), Release(bs, b);
    ReleaseAt(bs, b, i);
    ReleaseAt(bs, b, i + 1);
    ReleaseGaps(bs, b, limit);
    MergedSpan(bs, b);
    assert HeaderAt(m0, bs, i);
    HeaderCellsInside(bs, limit, i);
    HeaderCellsInside(bs, limit, lo - 1);
    if i < lo - 1 {
      assert Apart(bs, i, lo - 1);
    }
    if ReleaseLink(bs, b) != Null && i < p - 1 {
      HeaderCellsInside(bs, limit, p - 1);
      assert Apart(bs, i, p - 1);
    }
  }

  /** A block kept after the merged one keeps its header, at its shifted index. */
  lemma ReleaseHeaderAfter(m0: seq<int>, m1: seq<int>, bs: seq<Block>, b: Block, limit: int, i: int)
    requires Returnable(bs, b, limit) && |m0| == limit && Headers(m0, bs)
    requires SameOutside(m0, m1, Merged(bs, b).start, End(Merged(bs, b)), ReleaseLink(bs, b))
    requires MergeLo(bs, b) < i < |Release(bs, b)|
    ensures HeaderAt(m1, Release(bs, b), i)
  {
    var p, lo, hi, m, r := Position(bs, End(b)), MergeLo(bs, b), MergeHi(bs, b), Merged(bs, b), Release(bs, b);
    ReleaseAt(bs, b, i);
    ReleaseAt(bs, b, i + 1);
    ReleaseGaps(bs, b, limit);
    var j := i - lo - 1 + hi;
    assert HeaderAt(m0, bs, j);
    HeaderCellsInside(bs, limit, j);
    HeaderCellsInside(bs, limit, hi);
    if j > hi {
      assert Apart(bs, hi, j);
    }
    if ReleaseLink(bs, b) != Null {
      HeaderCellsInside(bs, limit, p - 1);
      assert Apart(bs, p - 1, j);
    }
  }

  /** Deallocate's walk (src/BlockAllocator.cpp:107-118): from the head,
      step past every block that starts below `e`. `block` ends on the first
      block at or beyond `e` (or Null) and `prev` on the one before it. */
  method FindPosition(mem: array<int>, head: int, e: int, ghost bs: seq<Block>) returns (block: int, prev: int)
    requires Headers(mem[..], bs) && head == StartAt(bs, 0)
    requires forall i :: 0 <= i < |bs| ==> 0 <= bs[i].start
    ensures block == StartAt(bs, Position(bs, e)) && prev == StartAt(bs, Position(bs, e) - 1)
  {
    block := head;
    prev := Null;
    ghost var i := 0;
    while block != Null
      invariant 0 <= i <= |bs|
      invariant block == StartAt(bs, i) && prev == StartAt(bs, i - 1)
      invariant forall j :: 0 <= j < i ==> StartsBefore(bs, j, e)
      decreases |bs| - i
    {
      if block >= e {
        break;
      }
      assert HeaderAt(mem[..], bs, i);
      prev := block;
      block := mem[block + W];
      i := i + 1;
    }
    PositionIs(bs, e, i);
  }

  /** Deallocate's three-way link step (src/BlockAllocator.cpp:120-132):
      block `d` becomes the head when no block precedes it, grows block
      `prev` when that one ends at `d` (whose tag is then zeroed), and is
      linked after `prev` otherwise. `dealloc` is where the block now starts. */
  method LinkIn(mem: array<int>, d: int, prev: int, head: int) returns (dealloc: int, newHead: int)
    requires 0 <= d && d + W < mem.Length
    requires prev != Null ==> 0 <= prev && prev + W < d
    modifies mem
    ensures prev == Null ==>
      dealloc == d && newHead == d && mem[..] == old(mem[..])[d + W := head]
    ensures prev != Null && prev + old(mem[prev]) == d ==>
      dealloc == prev && newHead == head && mem[..] == old(mem[..])[prev := old(mem[prev]) + old(mem[d])][d := 0]
    ensures prev != Null && prev + old(mem[prev]) != d ==>
      dealloc == d && newHead == head && mem[..] == old(mem[..])[d + W := old(mem[prev + W])][prev + W := d]
  {
    dealloc, newHead := d, head;
    if prev == Null {
      mem[dealloc + W] := newHead;
      newHead := dealloc;
    } else if prev + mem[prev] == dealloc {
      mem[prev] := mem[prev] + mem[dealloc];
      mem[dealloc] := 0;
      dealloc := prev;
    } else {
      mem[dealloc + W] := mem[prev + W];
      mem[prev + W] := dealloc;
    }
  }

  /** Deallocate's forward merge (src/BlockAllocator.cpp:134-139): when the
      walk stopped on a block that starts at `memoryEnd`, block `dealloc`
      takes its size and its next link, and its header is cleared. */
  method AbsorbNext(mem: array<int>, dealloc: int, memoryEnd: int, block: int)
    requires block != Null && block == memoryEnd ==> 0 <= dealloc && dealloc + W < block && block + W < mem.Length
    modifies mem
    ensures mem[..] == AbsorbedCells(old(mem[..]), dealloc, memoryEnd, block)
  {
    if block != Null && block == memoryEnd {
      mem[dealloc] := mem[dealloc] + mem[block];
      mem[dealloc + W] := mem[block + W];
      mem[block] := 0;
      mem[block + W] := Null;
    }
  }

  /** Facts about the blocks around the stopping point the link step and the
      forward merge need: the previous block's header lies before the freed
      block, the next block's after it. */
  lemma ReleaseNeighbours(m0: seq<int>, bs: seq<Block>, b: Block, limit: int)
    requires Returnable(bs, b, limit) && |m0| == limit && Headers(m0, bs)
    ensures var p := Position(bs, End(b));
      && (p > 0 ==> 0 <= bs[p - 1].start && bs[p - 1].start + W < b.start && HeaderAt(m0, bs, p - 1))
      && (p > 0 ==> (bs[p - 1].start + m0[bs[p - 1].start] == b.start <==> MergesBackward(bs, b)))
      && (p < |bs| ==> End(b) <= bs[p].start && bs[p].start + W < limit && HeaderAt(m0, bs, p))
      && (p < |bs| ==> (bs[p].start == End(b) <==> MergesForward(bs, b)))
  {
    var p := Position(bs, End(b));
    PositionSplits(bs, b, limit);
    if p > 0 {
      assert HeaderAt(m0, bs, p - 1);
      HeaderCellsInside(bs, limit, p - 1);
    }
    if p < |bs| {
      assert HeaderAt(m0, bs, p);
      HeaderCellsInside(bs, limit, p);
    }
  }

  /** The cells after the forward merge: when `block` starts at `e`, block
      `dealloc` takes its size and next link and its header is cleared. */
  ghost function AbsorbedCells(m: seq<int>, dealloc: int, e: int, block: int): seq<int>
    requires block != Null && block == e ==> 0 <= dealloc && dealloc + W < block && block + W < |m|
  {
    if block != Null && block == e then
      m[dealloc := m[dealloc] + m[block]][dealloc + W := m[block + W]][block := 0][block + W := Null]
    else m
  }

  /** What the link step and the forward merge leave outside the freed bytes:
      the merged block starts at `dealloc`, its header holds its size and the
      successor kept after it, the link into it (when rewritten) holds its
      start, and nothing else outside it changed. */
  ghost predicate ReleasedCells(m0: seq<int>, m2: seq<int>, bs: seq<Block>, b: Block, dealloc: int)
  {
    var m, link := Merged(bs, b), ReleaseLink(bs, b);
    && dealloc == m.start
    && SameOutside(m0, m2, m.start, End(m), link)
    && (link != Null ==> 0 <= link < |m2| && m2[link] == m.start)
    && 0 <= m.start && m.start + W < |m2|
    && m2[m.start] == m.size
    && m2[m.start + W] == StartAt(bs, MergeHi(bs, b))
  }

  /** The cells written by the head insertion and the forward merge: the
      header at `d` gets the absorbed size and successor, or links to the old
      head `h`; nothing else before the absorbed header changes. */
  lemma HeadWrites(m0: seq<int>, m1: seq<int>, m2: seq<int>, d: int, e: int, h: int)
    requires 0 <= d && d + W < e && d + W < |m0|
    requires h != Null && h == e ==> h + W < |m0|
    requires m1 == m0[d + W := h] && m2 == AbsorbedCells(m1, d, e, h)
    ensures var f := h != Null && h == e;
      && m2[d] == (if f then m0[d] + m0[h] else m0[d])
      && m2[d + W] == (if f then m0[h + W] else h)
      && SameOutside(m0, m2, d, if f then h + W + 1 else d + W + 1, Null)
  {
  }

  /** The cells written when the freed block `d` grows block `q` before it,
      then the forward merge. */
  lemma GrowWrites(m0: seq<int>, m1: seq<int>, m2: seq<int>, q: int, d: int, e: int, h: int)
    requires 0 <= q && q + W < d && d + W < e && d + W < |m0|
    requires h != Null && h == e ==> h + W < |m0|
    requires m1 == m0[q := m0[q] + m0[d]][d := 0] && m2 == AbsorbedCells(m1, q, e, h)
    ensures var f := h != Null && h == e;
      && m2[q] == (if f then m0[q] + m0[d] + m0[h] else m0[q] + m0[d])
      && m2[q + W] == (if f then m0[h + W] else m0[q + W])
      && SameOutside(m0, m2, q, if f then h + W + 1 else d + 1, Null)
  {
  }

  /** The cells written when the freed block `d` is linked after block `q`,
      then the forward merge. */
  lemma LinkWrites(m0: seq<int>, m1: seq<int>, m2: seq<int>, q: int, d: int, e: int, h: int)
    requires 0 <= q && q + W < d && d + W < e && d + W < |m0|
    requires h != Null && h == e ==> h + W < |m0|
    requires m1 == m0[d + W := m0[q + W]][q + W := d] && m2 == AbsorbedCells(m1, d, e, h)
    ensures var f := h != Null && h == e;
      && m2[d] == (if f then m0[d] + m0[h] else m0[d])
      && m2[d + W] == (if f then m0[h + W] else m0[q + W])
      && m2[q + W] == d
      && SameOutside(m0, m2, d, if f then h + W + 1 else d + W + 1, q + W)
  {
  }

  /** The freed block goes in at the head (no block starts below its end). */
  lemma ReleaseCellsHead(m0: seq<int>, m2: seq<int>, bs: seq<Block>, b: Block, limit: int)
    requires Returnable(bs, b, limit) && |m0| == limit && Headers(m0, bs) && m0[b.start] == b.size
    requires Position(bs, End(b)) == 0
    requires var h := StartAt(bs, 0); var f := h != Null && h == End(b);
      && (|bs| > 0 ==> 0 <= h && h + W < limit)
      && SameOutside(m0, m2, b.start, if f then h + W + 1 else b.start + W + 1, Null)
      && m2[b.start] == (if f then m0[b.start] + m0[h] else m0[b.start])
      && m2[b.start + W] == (if f then m0[h + W] else h)
    ensures ReleasedCells(m0, m2, bs, b, b.start)
  {
    ReleaseNeighbours(m0, bs, b, limit);
    MergedSpan(bs, b);
    if |bs| > 0 {
      HeaderCellsInside(bs, limit, 0);
    }
  }

  /** The freed block grows the block before it, which ends where it starts. */
  lemma ReleaseCellsGrow(m0: seq<int>, m2: seq<int>, bs: seq<Block>, b: Block, limit: int)
    requires Returnable(bs, b, limit) && |m0| == limit && Headers(m0, bs) && m0[b.start] == b.size
    requires 0 < Position(bs, End(b)) && MergesBackward(bs, b)
    requires var p := Position(bs, End(b)); var q, h := bs[p - 1].start, StartAt(bs, p); var f := h != Null && h == End(b);
      && 0 <= q && q + W < b.start
      && (p < |bs| ==> 0 <= h && h + W < limit)
      && SameOutside(m0, m2, q, if f then h + W + 1 else b.start + 1, Null)
      && m2[q] == (if f then m0[q] + m0[b.start] + m0[h] else m0[q] + m0[b.start])
      && m2[q + W] == (if f then m0[h + W] else m0[q + W])
    ensures ReleasedCells(m0, m2, bs, b, bs[Position(bs, End(b)) - 1].start)
  {
    var p := Position(bs, End(b));
    ReleaseNeighbours(m0, bs, b, limit);
    MergedSpan(bs, b);
    if p < |bs| {
      HeaderCellsInside(bs, limit, p);
    }
  }

  /** The freed block is linked in after the block before it. */
  lemma ReleaseCellsLink(m0: seq<int>, m2: seq<int>, bs: seq<Block>, b: Block, limit: int)
    requires Returnable(bs, b, limit) && |m0| == limit && Headers(m0, bs) && m0[b.start] == b.size
    requires 0 < Position(bs, End(b)) && !MergesBackward(bs, b)
    requires var p := Position(bs, End(b)); var q, h := bs[p - 1].start, StartAt(bs, p); var f := h != Null && h == End(b);
      && 0 <= q && q + W < b.start
      && (p < |bs| ==> 0 <= h && h + W < limit)
      && SameOutside(m0, m2, b.start, if f then h + W + 1 else b.start + W + 1, q + W)
      && m2[b.start] == (if f then m0[b.start] + m0[h] else m0[b.start])
      && m2[b.start + W] == (if f then m0[h + W] else m0[q + W])
      && m2[q + W] == b.start
    ensures ReleasedCells(m0, m2, bs, b, b.start)
  {
    var p := Position(bs, End(b));
    ReleaseNeighbours(m0, bs, b, limit);
    MergedSpan(bs, b);
    if p < |bs| {
      HeaderCellsInside(bs, limit, p);
    }
  }

  /** The cells after LinkIn and AbsorbNext, whichever way the freed block
      went in. */
  lemma ReleaseCells(m0: seq<int>, m1: seq<int>, m2: seq<int>, bs: seq<Block>, b: Block, limit: int,
                     prev: int, block: int, dealloc: int)
    requires Returnable(bs, b, limit) && |m0| == limit && Headers(m0, bs) && m0[b.start] == b.size
    requires block == StartAt(bs, Position(bs, End(b))) && prev == StartAt(bs, Position(bs, End(b)) - 1)
    requires prev != Null ==> 0 <= prev && prev + W < b.start
    requires block != Null ==> 0 <= block && block + W < limit
    requires prev == Null <==> Position(bs, End(b)) == 0
    requires prev != Null ==> (prev + m0[prev] == b.start <==> MergesBackward(bs, b))
    requires prev == Null ==> dealloc == b.start && m1 == m0[b.start + W := StartAt(bs, 0)]
    requires prev != Null && prev + m0[prev] == b.start ==>
      dealloc == prev && m1 == m0[prev := m0[prev] + m0[b.start]][b.start := 0]
    requires prev != Null && prev + m0[prev] != b.start ==>
      dealloc == b.start && m1 == m0[b.start + W := m0[prev + W]][prev + W := b.start]
    requires block != Null && block == End(b) ==> 0 <= dealloc && dealloc + W < block && block + W < |m1|
    requires m2 == AbsorbedCells(m1, dealloc, End(b), block)
    ensures ReleasedCells(m0, m2, bs, b, dealloc)
  {
    var p := Position(bs, End(b));
    if p == 0 {
      HeadWrites(m0, m1, m2, b.start, End(b), block);
      ReleaseCellsHead(m0, m2, bs, b, limit);
    } else if MergesBackward(bs, b) {
      GrowWrites(m0, m1, m2, prev, b.start, End(b), block);
      ReleaseCellsGrow(m0, m2, bs, b, limit);
    } else {
      LinkWrites(m0, m1, m2, prev, b.start, End(b), block);
      ReleaseCellsLink(m0, m2, bs, b, limit);
    }
  }

  /** Once the cells are as ReleasedCells says, the released list is in
      place: its headers are in memory, it is well formed, and its head is
      the merged block when nothing precedes it. */
  lemma ReleaseState(m0: seq<int>, m2: seq<int>, bs: seq<Block>, b: Block, limit: int, dealloc: int)
    requires Returnable(bs, b, limit) && |m0| == limit && Headers(m0, bs)
    requires ReleasedCells(m0, m2, bs, b, dealloc)
    ensures Headers(m2, Release(bs, b)) && WellFormed(Release(bs, b), limit)
    ensures StartAt(Release(bs, b), 0) == if Position(bs, End(b)) == 0 then dealloc else StartAt(bs, 0)
  {
    ReleaseAt(bs, b, 0);
    MergedSpan(bs, b);
    HeadersAfterRelease(m0, m2, bs, b, limit);
    ReleaseWellFormed(bs, b, limit);
  }

  class BlockAllocator {
    const base: Allocator
    /** mBlocks: offset of the first free block, or Null. */
    var blocks: int
    /** The free blocks, in list order. */
    ghost var Free: seq<Block>

    ghost predicate Valid()
      reads this, base, base.memory
    {
      && base.Valid()
      && HeaderSize < base.size
      && WellFormed(Free, base.size)
      && blocks == StartAt(Free, 0)
      && Headers(base.memory[..], Free)
    }

    /** Builds the base state (zeroing the arena) and makes the whole arena
        one free block. `ASSERT(size > sizeof(Block))` becomes the precondition. */
    constructor (memory: array<int>, size: int, report: bool)
      requires HeaderSize < size < Count64
      requires memory.Length == size
      modifies memory
      ensures Valid() && fresh(base)
      ensures base.memory == memory && base.size == size && base.report == report
      ensures base.used == 0 && base.allocations == 0
      ensures Free == [Block(0, size)] && blocks == 0
      ensures memory[0] == size && memory[W] == Null
      ensures forall j :: 0 <= j < size && j != 0 && j != W ==> memory[j] == 0
    {
      base := new Allocator(memory, size, report);
      new;
      blocks := 0;
      memory[0] := size;
      memory[W] := Null;
      Free := [Block(0, size)];
    }

    /** Zeroes the arena and makes it one free block again, exactly the state
        the constructor leaves; the counters are not touched. */
    method Clear()
      requires Valid()
      modifies this, base.memory
      ensures Valid()
      ensures Free == [Block(0, base.size)] && blocks == 0
      ensures base.memory[0] == base.size && base.memory[W] == Null
      ensures forall j :: 0 <= j < base.size && j != 0 && j != W ==> base.memory[j] == 0
    {
      Memset(base.memory, 0, base.size);
      blocks := 0;
      base.memory[blocks] := base.size;
      base.memory[blocks + W] := Null;
      Free := [Block(0, base.size)];
    }

    /** Hands out the first n bytes of free block k, found at `bestFit` with
        its predecessor at `bestFitPrev` (src/BlockAllocator.cpp:66-87): an
        exact fit is unlinked, otherwise the tail becomes a free block with
        the same successor; then the size tag n is written at the block's
        start. Only block k's cells and the link into it change. */
    method Take(bestFit: int, bestFitPrev: int, n: int, ghost k: int)
      requires Valid()
      requires 0 <= k < |Free| && ValidFit(Free[k].size, n) && HeaderSize <= n
      requires bestFit == Free[k].start && bestFitPrev == StartAt(Free, k - 1)
      requires Inside(Free, k, base.size) && (k > 0 ==> Inside(Free, k - 1, base.size))
      modifies this, base.memory
      ensures Valid()
      ensures Free == Carve(old(Free), k, n)
      ensures base.memory[bestFit] == n
      ensures SameOutside(old(base.memory[..]), base.memory[..], bestFit, End(old(Free)[k]), CarveLink(old(Free), k))
    {
      var mem := base.memory;
      ghost var bs := Free;
      assert HeaderAt(mem[..], bs, k);
      HeaderCellsInside(bs, base.size, k);
      if k > 0 {
        assert HeaderAt(mem[..], bs, k - 1);
        HeaderCellsInside(bs, base.size, k - 1);
        assert Apart(bs, k - 1, k);
      }
      if mem[bestFit] - n == 0 {
        if bestFitPrev != Null {
          mem[bestFitPrev + W] := mem[bestFit + W];
        } else {
          blocks := mem[blocks + W];
        }
      } else {
        var block := bestFit + n;
        mem[block] := mem[bestFit] - n;
        mem[block + W] := mem[bestFit + W];
        if bestFitPrev != Null {
          mem[bestFitPrev + W] := block;
        } else {
          blocks := block;
        }
      }
      mem[bestFit] := n;

      assert SameOutside(old(mem[..]), mem[..], bestFit, End(bs[k]), CarveLink(bs, k));
      CarveAt(bs, k, n, 0);
      CarveAt(bs, k, n, k);
      Free := Carve(bs, k, n);
      HeadersAfterCarve(old(mem[..]), mem[..], bs, k, n, base.size);
      CarveWellFormed(bs, k, n, base.size);
    }

    /** Reserves `size` bytes plus a one-word size tag (newSize = size + W):
        the scan picks the best fit, an exact fit is unlinked and a larger
        block is split with its tail left free; the tag goes at the block's
        start and the pointer returned is one word past it. With no candidate
        the result is Null and nothing changes (the `ASSERT(false)` there is
        compiled out). `ASSERT(size >= sizeof(Block))` and
        `ASSERT(mBlocks != nullptr)` become preconditions; ScanSound excludes
        the head-candidate quirk (see FreeList.HeadQuirkLosesHead). */
    method Allocate(size: int) returns (p: int)
      requires Valid()
      requires HeaderSize <= size && size + W < Count64
      requires blocks != Null
      requires ScanSound(Free, size + W)
      modifies this, base, base.memory
      ensures Valid()
      ensures Scan(old(Free), size + W).0 == -1 ==>
        && p == Null && Free == old(Free) && blocks == old(blocks)
        && base.memory[..] == old(base.memory[..])
        && base.used == old(base.used) && base.allocations == old(base.allocations)
      ensures Scan(old(Free), size + W).0 != -1 ==>
        var k := Scan(old(Free), size + W).0;
        var chosen := old(Free)[k];
        && p == chosen.start + W
        && W <= p < base.size
        && Free == Carve(old(Free), k, size + W)
        && TotalFree(Free) == TotalFree(old(Free)) - (size + W)
        && CheckSize(base.memory, p) == size + W
        && (forall x :: chosen.start <= x < p + size ==> !InFree(Free, x))
        && (forall j :: 0 <= j < base.size && !(chosen.start <= j < End(chosen)) && j != CarveLink(old(Free), k) ==>
              base.memory[j] == old(base.memory[j]))
      ensures Scan(old(Free), size + W).0 != -1 && base.report ==>
        base.used == Add64(old(base.used), size + W) && base.allocations == Inc32(old(base.allocations))
      ensures Scan(old(Free), size + W).0 != -1 && !base.report ==>
        base.used == old(base.used) && base.allocations == old(base.allocations)
    {
      var mem := base.memory;
      ghost var bs := Free;
      var n := size + W;
      WellFormedBounds(bs, base.size);
      var bestFit, bestFitPrev := FindBestFit(mem, blocks, n, bs);
      ghost var k := Scan(bs, n).0;
      if bestFit == Null {
        return Null;
      }
      assert Inside(bs, k, base.size);
      if k > 0 {
        assert Inside(bs, k - 1, base.size);
      }

      Take(bestFit, bestFitPrev, n, k);
      base.CountAllocation(n);
      p := bestFit + W;

      CarveTotal(bs, k, n);
      HeaderCellsInside(bs, base.size, k);
      CarveTakes(bs, k, n, base.size);
    }

    /** Links block `b` (its tag already at `d`, ending at `memoryEnd`) into
        the list at the walk's stopping point `block`, with `prev` before it:
        LinkIn, then AbsorbNext. Only the merged block's cells and the link
        into it change. */
    method Insert(d: int, memoryEnd: int, block: int, prev: int, ghost b: Block)
      requires Valid()
      requires Returnable(Free, b, base.size) && b.start == d && memoryEnd == End(b)
      requires base.memory[d] == b.size
      requires block == StartAt(Free, Position(Free, End(b)))
      requires prev == StartAt(Free, Position(Free, End(b)) - 1)
      modifies this, base.memory
      ensures Valid()
      ensures Free == Release(old(Free), b)
      ensures SameOutside(old(base.memory[..]), base.memory[..], Merged(old(Free), b).start,
                          End(Merged(old(Free), b)), ReleaseLink(old(Free), b))
    {
      var mem := base.memory;
      ghost var bs := Free;
      ghost var m0 := mem[..];
      ghost var p := Position(bs, End(b));
      ReleaseNeighbours(m0, bs, b, base.size);
      MergedSpan(bs, b);
      var dealloc, head := LinkIn(mem, d, prev, blocks);
      ghost var m1 := mem[..];
      AbsorbNext(mem, dealloc, memoryEnd, block);
      blocks := head;
      ReleaseCells(m0, m1, mem[..], bs, b, base.size, prev, block, dealloc);
      ReleaseState(m0, mem[..], bs, b, base.size, dealloc);
      Free := Release(bs, b);
    }

    /** Gives back the block whose payload starts at `p` (its size tag one
        word before): its next field is cleared, the counters drop by the
        tag, the walk finds the address position and the block is merged
        with the free neighbours it touches. `ASSERT(memory != nullptr)`
        becomes `W <= p`; that `p` came from Allocate and was not given back
        since is stated as Returnable. */
    method Deallocate(p: int)
      requires Valid()
      requires W <= p <= base.size
      requires Returnable(Free, Block(p - W, base.memory[p - W]), base.size)
      modifies this, base, base.memory
      ensures Valid()
      ensures var b := Block(p - W, old(base.memory[p - W]));
        && Free == Release(old(Free), b)
        && TotalFree(Free) == TotalFree(old(Free)) + b.size
        && (forall x :: InFree(Free, x) <==> InFree(old(Free), x) || b.start <= x < End(b))
        && SameOutside(old(base.memory[..]), base.memory[..], Merged(old(Free), b).start,
                       End(Merged(old(Free), b)), ReleaseLink(old(Free), b))
      ensures base.report ==>
        base.used == Sub64(old(base.used), old(base.memory[p - W])) && base.allocations == Dec32(old(base.allocations))
      ensures !base.report ==> base.used == old(base.used) && base.allocations == old(base.allocations)
    {
      var mem := base.memory;
      ghost var bs := Free;
      ghost var m0 := mem[..];
      var d := p - W;
      ghost var b := Block(d, mem[d]);
      mem[d + W] := Null;
      HeadersUntouched(m0, mem[..], bs, b, base.size);
      ghost var m1 := mem[..];

      base.CountRelease(mem[d]);

      var memoryEnd := d + mem[d];
      WellFormedBounds(bs, base.size);
      var block, prev := FindPosition(mem, blocks, memoryEnd, bs);
      Insert(d, memoryEnd, block, prev, b);

      MergedCovers(bs, b, 0);
      ReleaseTotal(bs, b);
      forall x
        ensures InFree(Free, x) <==> InFree(bs, x) || b.start <= x < End(b)
      {
        ReleaseCovers(bs, b, base.size, x);
      }
    }
  }

  /** Allocate picks the best fit of the reference definition whenever its
      scan is sound: Null exactly when no free block fits, else the best
      fitting block, carved. */
  method AllocateBestFit(ba: BlockAllocator, size: int) returns (p: int)
    requires ba.Valid()
    requires HeaderSize <= size && size + W < Count64
    requires ba.blocks != Null
    requires ScanSound(ba.Free, size + W)
    modifies ba, ba.base, ba.base.memory
    ensures ba.Valid()
    ensures p == Null <==> BestFit(old(ba.Free), size + W) == -1
    ensures p != Null ==>
      var k := BestFit(old(ba.Free), size + W);
      p == old(ba.Free)[k].start + W && ba.Free == Carve(old(ba.Free), k, size + W)
  {
    SoundScanIsBestFit(ba.Free, size + W);
    p := ba.Allocate(size);
  }

  /** On a fresh allocator (one free block over the whole arena), allocating
      `size` bytes and giving the pointer back restores the single block. */
  method AllocateThenFree(ba: BlockAllocator, size: int) returns (p: int)
    requires ba.Valid() && ba.Free == [Block(0, ba.base.size)]
    requires HeaderSize <= size && ValidFit(ba.base.size, size + W)
    modifies ba, ba.base, ba.base.memory
    ensures ba.Valid()
    ensures p == W && ba.Free == [Block(0, ba.base.size)]
  {
    var n := size + W;
    FreshRoundTrip(ba.base.size, n);
    p := ba.Allocate(size);
    var b := Block(0, n);
    assert ba.Free == Carve([Block(0, ba.base.size)], 0, n);
    assert Disjoint(ba.Free, b) by {
      if ba.Free != [] {
        assert ba.Free == [Block(n, ba.base.size - n)];
        assert Separate(ba.Free, 0, b);
      }
    }
    ba.Deallocate(p);
  }
}
