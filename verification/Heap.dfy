/**
 The kernel heap: a table of block sizes whose addresses are never stored.

 A table word keeps a block's size in its low 31 bits and its in-use flag in
 bit 31.  The address of block i is the heap's bottom plus the sizes of blocks
 0..i-1.  All quantities are 32-bit words, so every addition of the code is
 written with its wrap-around (`Wrap`).
 */
module HeapSpec {
  import opened Common
  import opened Bits

  const FLAG: int := 0x8000_0000
  const PAGE: int := 0x1000
  const BOTTOM: int := 0xC030_0000
  const HEAP_MAX: int := 0xFFFF_F000
  const MAX_BLOCKS: int := 1024

  datatype Block = Block(size: nat, used: bool)

  datatype HeapState = HeapState(blocks: seq<Block>, top: int, last: int)

  /** What a call returns together with the state it leaves behind; `ptr == 0` is NULL. */
  datatype Outcome = Outcome(heap: HeapState, ptr: int)

  function AlignUp(x: int): (r: int)
    ensures r % PAGE == 0 && x <= r < x + PAGE
  {
    (x + PAGE - 1) / PAGE * PAGE
  }

  /** Sum of the sizes of the first i blocks. */
  function Offset(bs: seq<Block>, i: nat): (r: nat)
    requires i <= |bs|
  {
    if i == 0 then 0 else Offset(bs, i - 1) + bs[i - 1].size
  }

  function Addr(bs: seq<Block>, i: nat): int
    requires i <= |bs|
  {
    BOTTOM + Offset(bs, i)
  }

  /** The recorded blocks fill [BOTTOM, last) without gap or overlap. */
  ghost predicate Tiled(h: HeapState) {
    h.last == Addr(h.blocks, |h.blocks|)
  }

  /** Everything handed out lies below the page-aligned break. */
  ghost predicate Covered(h: HeapState) {
    BOTTOM <= h.last <= h.top <= HEAP_MAX && h.top % PAGE == 0
  }

  ghost predicate Inv(h: HeapState) {
    Tiled(h) && Covered(h) && |h.blocks| <= MAX_BLOCKS + 1
  }

  // ----- find_best_free

  /** The size limit find_best_free starts from: three times the request, in 32 bits. */
  function Cap(n: nat): (r: nat) {
    Wrap(3 * n)
  }

  predicate Fits(b: Block, n: nat, limit: nat) {
    !b.used && n <= b.size <= limit
  }

  /** The block a single left-to-right scan of the first i entries settles on, or -1. */
  function Best(bs: seq<Block>, n: nat, i: nat): (r: int)
    requires i <= |bs|
    ensures -1 <= r < i
  {
    if i == 0 then -1 else
    var r := Best(bs, n, i - 1);
    if Fits(bs[i - 1], n, Limit(bs, n, r)) then i - 1 else r
  }

  /** The largest size still of interest once block r is the best so far. */
  function Limit(bs: seq<Block>, n: nat, r: int): nat
    requires -1 <= r < |bs|
  {
    if r == -1 then Cap(n) else bs[r].size
  }

  /** r is the smallest fitting block of the first i, the last one on ties, and -1 if there is none. */
  ghost predicate IsBest(bs: seq<Block>, n: nat, i: nat, r: int)
    requires i <= |bs|
  {
    && -1 <= r < i
    && (r == -1 ==> forall j :: 0 <= j < i ==> !Fits(bs[j], n, Cap(n)))
    && (r != -1 ==>
          && Fits(bs[r], n, Cap(n))
          && forall j :: 0 <= j < i && Fits(bs[j], n, Cap(n)) ==>
               bs[r].size <= bs[j].size && (bs[j].size == bs[r].size ==> j <= r))
  }

  lemma {:induction false} BestIsSmallestFit(bs: seq<Block>, n: nat, i: nat)
    requires i <= |bs|
    ensures IsBest(bs, n, i, Best(bs, n, i))
  {
    if i > 0 {
      BestIsSmallestFit(bs, n, i - 1);
    }
  }

  // ----- sbrk

  /** Number of pages sbrk(m) adds: m over the page size rounded DOWN, but at least one. */
  function Pages(m: nat): (r: nat) {
    if m > PAGE then m / PAGE else 1
  }

  function SbrkRefuses(top: int, m: nat): bool {
    m == 0 || Wrap(m + top) >= HEAP_MAX
  }

  /** The break after sbrk(m). */
  function Sbrk(top: int, m: nat): (r: int) {
    if SbrkRefuses(top, m) then top else Wrap(top + Pages(m) * PAGE)
  }

  // ----- the table operations

  function Record(n: nat): (b: Block) {
    Block(n % FLAG, true)
  }

  function TableFull(h: HeapState): bool {
    |h.blocks| > MAX_BLOCKS
  }

  /** Address of block i as `translate` computes it; 0 when it is past the last allocation. */
  function Translate(h: HeapState, i: nat): (r: int)
    requires i <= |h.blocks|
  {
    var a := Wrap(Addr(h.blocks, i));
    if a > h.last then 0 else a
  }

  /** First block whose end (in 32 bits) exceeds offset t, scanning from i; the last block if none does. */
  function Seek(bs: seq<Block>, t: int, i: nat): (r: int)
    requires i <= |bs|
    ensures i < |bs| ==> i <= r < |bs|
    decreases |bs| - i
  {
    if i == |bs| then |bs| - 1
    else if Wrap(Offset(bs, i + 1)) > t then i
    else Seek(bs, t, i + 1)
  }

  /** Table index `find_block` returns for a pointer at or below the last allocation. */
  function FindBlock(h: HeapState, ptr: int): (r: int)
    requires |h.blocks| > 0
    ensures 0 <= r < |h.blocks|
  {
    Seek(h.blocks, Wrap(ptr - BOTTOM), 0)
  }

  function SetUsed(h: HeapState, i: nat, used: bool): HeapState
    requires i < |h.blocks|
  {
    h.(blocks := h.blocks[i := h.blocks[i].(used := used)])
  }

  // ----- malloc, malloc_a, free, realloc

  function Grow(h: HeapState, n: nat): (r: Outcome) {
    if TableFull(h) then Outcome(h, 0) else
    var end := Wrap(h.last + n);
    var top := if end >= h.top then Sbrk(h.top, Wrap(2 * (end - h.top))) else h.top;
    Outcome(HeapState(h.blocks + [Record(n)], top, end), h.last)
  }

  function Malloc(h: HeapState, n: nat): (r: Outcome) {
    if n == 0 then Outcome(h, 0) else
    var i := Best(h.blocks, n, |h.blocks|);
    if i >= 0 then Outcome(SetUsed(h, i, true), Translate(SetUsed(h, i, true), i))
    else Grow(h, n)
  }

  function Free(h: HeapState, ptr: int): (r: HeapState)
    requires |h.blocks| > 0
  {
    SetUsed(h, FindBlock(h, ptr), false)
  }

  /** Distance from `last` to the next page boundary above it; a whole page when it is on one. */
  function PadSize(last: int): (r: nat) {
    Wrap(last - last % PAGE + PAGE - last)
  }

  /** A free block of `diff` bytes: appended as in use, then freed through its address. */
  function PadWith(h: HeapState, diff: nat): (r: HeapState) {
    var h' := HeapState(h.blocks + [Record(diff)], h.top, Wrap(h.last + diff));
    Free(h', Translate(h', |h'.blocks| - 1))
  }

  /** The padding step of malloc_a: a free block up to the next page boundary. */
  function Pad(h: HeapState): (r: HeapState) {
    var diff := PadSize(h.last);
    if diff == PAGE then h else PadWith(h, diff)
  }

  function NeedsPad(h: HeapState): bool {
    h.last % PAGE != 0
  }

  function GrowAligned(h: HeapState, n: nat): (r: Outcome) {
    if TableFull(h) then Outcome(h, 0) else
    var end := Wrap(h.last + n);
    var top := if end >= h.top then Sbrk(h.top, Wrap(end - h.top + PAGE)) else h.top;
    Outcome(HeapState(h.blocks + [Record(n)], top, end), h.last)
  }

  function MallocA(h: HeapState, n: nat): (r: Outcome) {
    if NeedsPad(h) && TableFull(h) then Outcome(h, 0)
    else GrowAligned(Pad(h), n)
  }

  /** A pointer past the last allocation is reported after the new block has been taken. */
  function Realloc(h: HeapState, ptr: int, n: nat): (r: Outcome)
    requires |h.blocks| > 0
  {
    var m := Malloc(h, n);
    if ptr > m.heap.last then Outcome(m.heap, 0) else
    Outcome(Free(m.heap, ptr), m.ptr)
  }
}
