/**
 What the heap keeps, call by call and over whole runs.
 */
module HeapProofs {
  import opened Common
  import opened Bits
  import opened HeapSpec

  // ----- prefix sums

  lemma {:induction false} OffsetAgrees(bs: seq<Block>, cs: seq<Block>, i: nat)
    requires i <= |bs| && i <= |cs|
    requires forall j :: 0 <= j < i ==> bs[j].size == cs[j].size
    ensures Offset(bs, i) == Offset(cs, i)
  {
    if i > 0 {
      OffsetAgrees(bs, cs, i - 1);
    }
  }

  lemma {:induction false} BlocksInOrder(bs: seq<Block>, i: nat, j: nat)
    requires i < j <= |bs|
    ensures Offset(bs, i) + bs[i].size <= Offset(bs, j)
    decreases j
  {
    if i < j - 1 {
      BlocksInOrder(bs, i, j - 1);
    }
  }

  lemma OffsetMonotone(bs: seq<Block>, i: nat, j: nat)
    requires i <= j <= |bs|
    ensures Offset(bs, i) <= Offset(bs, j)
  {
    if i < j {
      BlocksInOrder(bs, i, j);
    }
  }

  lemma AppendOffset(bs: seq<Block>, b: Block)
    ensures Offset(bs + [b], |bs|) == Offset(bs, |bs|)
    ensures Offset(bs + [b], |bs| + 1) == Offset(bs, |bs|) + b.size
  {
    OffsetAgrees(bs, bs + [b], |bs|);
  }

  lemma FlagKeepsOffsets(h: HeapState, i: nat, used: bool, j: nat)
    requires i < |h.blocks| && j <= |h.blocks|
    ensures Offset(SetUsed(h, i, used).blocks, j) == Offset(h.blocks, j)
  {
    OffsetAgrees(h.blocks, SetUsed(h, i, used).blocks, j);
  }

  lemma FlagKeepsInv(h: HeapState, i: nat, used: bool)
    requires Inv(h) && i < |h.blocks|
    ensures Inv(SetUsed(h, i, used))
  {
    FlagKeepsOffsets(h, i, used, |h.blocks|);
  }

  // ----- find_block inverts translate

  lemma {:induction false} SeekFinds(bs: seq<Block>, t: int, i: nat, k: nat)
    requires i <= k < |bs|
    requires Offset(bs, |bs|) < WORD
    requires Offset(bs, k) <= t < Offset(bs, k) + bs[k].size
    ensures Seek(bs, t, i) == k
    decreases k - i
  {
    OffsetMonotone(bs, i + 1, |bs|);
    if i < k {
      OffsetMonotone(bs, i + 1, k);
      SeekFinds(bs, t, i + 1, k);
    }
  }

  /** Every address inside block k is traced back to entry k, and to no other. */
  lemma FindBlockInvertsTranslate(h: HeapState, k: nat, a: int)
    requires Inv(h) && k < |h.blocks|
    requires Addr(h.blocks, k) <= a < Addr(h.blocks, k) + h.blocks[k].size
    ensures Translate(h, k) == Addr(h.blocks, k)
    ensures BOTTOM <= a < h.last
    ensures FindBlock(h, a) == k
  {
    BlocksInOrder(h.blocks, k, |h.blocks|);
    SeekFinds(h.blocks, a - BOTTOM, 0, k);
  }

  // ----- sbrk covers although it rounds down

  lemma SbrkDoubleCovers(top: int, s: nat)
    requires BOTTOM <= top <= HEAP_MAX && top % PAGE == 0 && s > 0
    requires top + 2 * s < HEAP_MAX
    ensures var t := Sbrk(top, 2 * s); top + s <= t <= HEAP_MAX && t % PAGE == 0
  {
  }

  lemma SbrkPlusPageCovers(top: int, s: nat)
    requires BOTTOM <= top <= HEAP_MAX && top % PAGE == 0
    requires top + s + PAGE < HEAP_MAX
    ensures var t := Sbrk(top, s + PAGE); top + s < t <= HEAP_MAX && t % PAGE == 0
  {
  }

  /** Below the limit the break moves by whole pages: one for at most a page, else as many as fit in m. */
  lemma SbrkMoves(top: int, m: nat)
    requires BOTTOM <= top <= HEAP_MAX && top % PAGE == 0 && 0 < m && top + m < HEAP_MAX
    ensures var d := Sbrk(top, m) - top; d % PAGE == 0 && if m <= PAGE then d == PAGE else m - PAGE < d <= m
  {
    WrapSmall(top + m);
    WholePages(top, Pages(m));
    WrapSmall(top + Pages(m) * PAGE);
  }

  lemma WholePages(top: int, k: nat)
    ensures top + k * PAGE - top == k * PAGE && k * PAGE % PAGE == 0
  {
  }

  /** Once top + m reaches the limit, the break never ends up above the old one: it is kept, or it wraps. */
  lemma SbrkPastLimit(top: int, m: nat)
    requires BOTTOM <= top <= HEAP_MAX && top % PAGE == 0
    requires HEAP_MAX <= top + m && m <= FLAG
    ensures Sbrk(top, m) <= top
  {
  }

  // ----- exactly which calls keep the heap well formed

  /** There is room above `last` for n more bytes, taking malloc's doubled break request into account. */
  predicate Room(h: HeapState, n: nat) {
    h.last + n <= h.top || 2 * (h.last + n) - h.top < HEAP_MAX
  }

  /**
   malloc_a may end at `end` when the break is at `top`.  Ending exactly on a break
   that is already at the limit is not enough: the extra page then wraps to address 0.
   */
  predicate EndFits(top: int, end: int) {
    (end <= top && end < HEAP_MAX) || end + PAGE < HEAP_MAX
  }

  /** There is room for n bytes at the next page boundary, taking malloc_a's extra page into account. */
  predicate RoomAligned(h: HeapState, n: nat) {
    EndFits(h.top, AlignUp(h.last) + n)
  }

  /** malloc extends the heap for this request. */
  predicate Extends(h: HeapState, n: nat) {
    n > 0 && Best(h.blocks, n, |h.blocks|) == -1 && !TableFull(h)
  }

  /** malloc_a reaches its final append for this request. */
  predicate ExtendsAligned(h: HeapState) {
    !TableFull(h) && (NeedsPad(h) ==> |h.blocks| < MAX_BLOCKS)
  }

  lemma WrapSmall(x: int)
    requires 0 <= x < WORD
    ensures Wrap(x) == x
  {
  }

  lemma WrapOver(x: int)
    requires WORD <= x < 2 * WORD
    ensures Wrap(x) == x - WORD
  {
  }

  /** A request whose end passes 2^32 loses the tiling: the new end lies below the old one. */
  lemma WrappedEndBreaksTiling(h: HeapState, n: nat, top: int)
    requires Inv(h) && n < WORD && h.last + n >= WORD
    ensures !Tiled(HeapState(h.blocks + [Record(n)], top, Wrap(h.last + n)))
  {
    AppendOffset(h.blocks, Record(n));
    WrapOver(h.last + n);
  }

  lemma RecordTiles(h: HeapState, n: nat, top: int)
    requires Inv(h) && !TableFull(h) && h.last + n < WORD
    ensures Tiled(HeapState(h.blocks + [Record(n)], top, h.last + n))
  {
    AppendOffset(h.blocks, Record(n));
    assert Record(n).size == n;
  }

  lemma GrowExact(h: HeapState, n: nat)
    requires Inv(h) && n < WORD && !TableFull(h)
    ensures Inv(Grow(h, n).heap) <==> Room(h, n)
  {
    if h.last + n >= WORD {
      WrappedEndBreaksTiling(h, n, Grow(h, n).heap.top);
    } else {
      WrapSmall(h.last + n);
      var s := h.last + n - h.top;
      RecordTiles(h, n, Grow(h, n).heap.top);
      if s >= 0 {
        WrapSmall(2 * s);
        GrowBreak(h.top, s);
      }
    }
  }

  lemma GrowBreak(top: int, s: nat)
    requires BOTTOM <= top <= HEAP_MAX && top % PAGE == 0 && top + s < WORD
    ensures var t := Sbrk(top, 2 * s);
            (top + s <= t <= HEAP_MAX && t % PAGE == 0) <==> (s == 0 || top + 2 * s < HEAP_MAX)
  {
    if s > 0 {
      if top + 2 * s < HEAP_MAX {
        SbrkDoubleCovers(top, s);
      } else {
        SbrkPastLimit(top, 2 * s);
      }
    }
  }

  lemma GrowAlignedExact(h: HeapState, n: nat)
    requires Inv(h) && n < WORD && !TableFull(h)
    ensures Inv(GrowAligned(h, n).heap) <==> EndFits(h.top, h.last + n)
  {
    if h.last + n >= WORD {
      WrappedEndBreaksTiling(h, n, GrowAligned(h, n).heap.top);
    } else {
      WrapSmall(h.last + n);
      var s := h.last + n - h.top;
      RecordTiles(h, n, GrowAligned(h, n).heap.top);
      if s >= 0 {
        WrapSmall(s + PAGE);
        GrowAlignedBreak(h.top, s);
      }
    }
  }

  lemma GrowAlignedBreak(top: int, s: nat)
    requires BOTTOM <= top <= HEAP_MAX && top % PAGE == 0 && top + s < WORD
    ensures var t := Sbrk(top, s + PAGE);
            (top + s <= t <= HEAP_MAX && t % PAGE == 0) <==> EndFits(top, top + s)
  {
    if top + s + PAGE < HEAP_MAX {
      SbrkPlusPageCovers(top, s);
    } else {
      SbrkPastLimit(top, s + PAGE);
    }
  }

  /** For every request, malloc keeps tiling and coverage exactly when it reuses, refuses, or has room. */
  lemma MallocExact(h: HeapState, n: nat)
    requires Inv(h) && n < WORD
    ensures Inv(Malloc(h, n).heap) <==> (Extends(h, n) ==> Room(h, n))
  {
    var i := Best(h.blocks, n, |h.blocks|);
    if n > 0 && i >= 0 {
      FlagKeepsInv(h, i, true);
    } else if Extends(h, n) {
      GrowExact(h, n);
    }
  }

  lemma PadReachesBoundary(last: int)
    requires 0 <= last < WORD && last % PAGE != 0
    ensures PadSize(last) == AlignUp(last) - last
    ensures 0 < AlignUp(last) - last < PAGE
  {
  }

  /** A page-aligned limit is not passed by rounding up something below it. */
  lemma AlignUpBelow(x: int, top: int)
    requires x <= top && top % PAGE == 0
    ensures AlignUp(x) <= top
  {
  }

  /** The padding block ends on a page boundary, is free, and keeps the heap well formed. */
  lemma PadIsFreeAndAligns(h: HeapState)
    requires Inv(h) && NeedsPad(h) && !TableFull(h)
    ensures Inv(Pad(h)) && Pad(h).last == AlignUp(h.last) && Pad(h).top == h.top
    ensures Pad(h).blocks == h.blocks + [Block(AlignUp(h.last) - h.last, false)]
  {
    PadReachesBoundary(h.last);
    AlignUpBelow(h.last, h.top);
    var diff := AlignUp(h.last) - h.last;
    WrapSmall(h.last + diff);
    var h' := HeapState(h.blocks + [Record(diff)], h.top, h.last + diff);
    RecordTiles(h, diff, h.top);
    AppendOffset(h.blocks, Record(diff));
    FindBlockInvertsTranslate(h', |h.blocks|, h.last);
    FlagKeepsInv(h', |h.blocks|, false);
  }

  lemma NoPad(h: HeapState)
    requires Inv(h) && !NeedsPad(h)
    ensures Pad(h) == h && AlignUp(h.last) == h.last
  {
  }

  lemma PadKeepsInv(h: HeapState)
    requires Inv(h) && (NeedsPad(h) ==> !TableFull(h))
    ensures Inv(Pad(h)) && Pad(h).top == h.top
  {
    if NeedsPad(h) {
      PadIsFreeAndAligns(h);
    } else {
      NoPad(h);
    }
  }

  /** For every request, malloc_a keeps tiling and coverage exactly when it refuses or has room. */
  lemma MallocAExact(h: HeapState, n: nat)
    requires Inv(h) && n < WORD
    ensures Inv(MallocA(h, n).heap) <==> (ExtendsAligned(h) ==> RoomAligned(h, n))
  {
    if NeedsPad(h) {
      if !TableFull(h) {
        PadIsFreeAndAligns(h);
        if !TableFull(Pad(h)) {
          GrowAlignedExact(Pad(h), n);
        }
      }
    } else {
      NoPad(h);
      if !TableFull(h) {
        GrowAlignedExact(h, n);
      }
    }
  }

  /** A free block that malloc may reuse for n bytes. */
  predicate Reusable(b: Block, n: nat) {
    !b.used && n <= b.size <= 3 * n
  }

  /** No block is larger than the heap, so the wrapped limit 3n admits exactly the sizes from n to 3n. */
  lemma LimitIsExact(h: HeapState, n: nat, i: nat)
    requires Inv(h) && n < WORD && i < |h.blocks|
    ensures Fits(h.blocks[i], n, Cap(n)) <==> Reusable(h.blocks[i], n)
  {
    BlocksInOrder(h.blocks, i, |h.blocks|);
    assert h.blocks[i].size <= HEAP_MAX - BOTTOM;
    assert 3 * n < WORD ==> Wrap(3 * n) == 3 * n;
  }

  /** malloc extends the heap exactly when no free block has a size from n to 3n. */
  lemma ExtendsOnlyIfNoneFits(h: HeapState, n: nat)
    requires Inv(h) && 0 < n < WORD && !TableFull(h)
    ensures Extends(h, n) <==> forall i :: 0 <= i < |h.blocks| ==> !Reusable(h.blocks[i], n)
  {
    BestIsSmallestFit(h.blocks, n, |h.blocks|);
    forall i | 0 <= i < |h.blocks| ensures Fits(h.blocks[i], n, Cap(n)) <==> Reusable(h.blocks[i], n) {
      LimitIsExact(h, n, i);
    }
  }
}
