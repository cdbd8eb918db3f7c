/**
 Whole runs of malloc, malloc_a, free and realloc.

 A run is a sequence of calls.  The `live` map is the caller's own ledger: the
 pointers it was given and has not given back, with the sizes it asked for.
 */
module HeapRuns {
  import opened Common
  import opened Bits
  import opened HeapSpec
  import opened HeapProofs

  datatype Call = CallMalloc(n: nat) | CallMallocA(n: nat) | CallFree(ptr: int) | CallRealloc(ptr: int, n: nat)

  datatype World = World(heap: HeapState, live: map<int, nat>)

  /** The caller frees and reallocates only what it holds, and asks malloc_a for at least one byte. */
  predicate Legal(w: World, c: Call) {
    match c
    case CallMalloc(n) => n < WORD
    case CallMallocA(n) => 0 < n < WORD
    case CallFree(ptr) => ptr in w.live
    case CallRealloc(ptr, n) => ptr in w.live && n < WORD
  }

  /** The call does not run into the end of the heap's address range. */
  predicate HasRoom(w: World, c: Call) {
    match c
    case CallMalloc(n) => Extends(w.heap, n) ==> Room(w.heap, n)
    case CallMallocA(n) => ExtendsAligned(w.heap) ==> RoomAligned(w.heap, n)
    case CallFree(_) => true
    case CallRealloc(_, n) => Extends(w.heap, n) ==> Room(w.heap, n)
  }

  function Grant(live: map<int, nat>, ptr: int, n: nat): map<int, nat> {
    if ptr == 0 then live else live[ptr := n]
  }

  function Step(w: World, c: Call): (r: World)
    requires c.CallFree? || c.CallRealloc? ==> |w.heap.blocks| > 0
  {
    match c
    case CallMalloc(n) =>
      var o := Malloc(w.heap, n);
      World(o.heap, Grant(w.live, o.ptr, n))
    case CallMallocA(n) =>
      var o := MallocA(w.heap, n);
      World(o.heap, Grant(w.live, o.ptr, n))
    case CallFree(ptr) =>
      World(Free(w.heap, ptr), w.live - {ptr})
    case CallRealloc(ptr, n) =>
      var o := Realloc(w.heap, ptr, n);
      World(o.heap, Grant(w.live - {ptr}, o.ptr, n))
  }

  /** Pointer p is the start of an in-use block of at least n > 0 bytes. */
  ghost predicate Owned(h: HeapState, p: int, n: nat) {
    && |h.blocks| > 0
    && var i := FindBlock(h, p);
       Addr(h.blocks, i) == p && h.blocks[i].used && 0 < n <= h.blocks[i].size
  }

  ghost predicate Good(w: World) {
    Inv(w.heap) && forall p :: p in w.live ==> Owned(w.heap, p, w.live[p])
  }

  // ----- one call

  /** Ownership survives any change that keeps sizes and the owner's own flag. */
  lemma OwnedKept(h: HeapState, h': HeapState, p: int, n: nat)
    requires Inv(h) && Inv(h') && Owned(h, p, n)
    requires |h.blocks| <= |h'.blocks|
    requires forall j :: 0 <= j < |h.blocks| ==> h'.blocks[j].size == h.blocks[j].size
    requires h'.blocks[FindBlock(h, p)].used
    ensures Owned(h', p, n) && FindBlock(h', p) == FindBlock(h, p)
  {
    var k := FindBlock(h, p);
    OffsetAgrees(h.blocks, h'.blocks, k);
    FindBlockInvertsTranslate(h', k, p);
  }

  /** h' differs from h in entry i alone, which it may have appended. */
  ghost predicate OnlyEntry(h: HeapState, h': HeapState, i: nat) {
    && |h.blocks| <= |h'.blocks| && i < |h'.blocks|
    && (forall j :: 0 <= j < |h.blocks| ==> h'.blocks[j].size == h.blocks[j].size)
    && (forall j :: 0 <= j < |h.blocks| && j != i ==> h'.blocks[j] == h.blocks[j])
  }

  /** A non-null result owns a block that nobody held before; every other entry is untouched. */
  lemma MallocGrants(h: HeapState, n: nat)
    requires Inv(h) && n < WORD && (Extends(h, n) ==> Room(h, n))
    requires Malloc(h, n).ptr != 0
    ensures var o := Malloc(h, n);
            && Inv(o.heap) && Owned(o.heap, o.ptr, n)
            && var i := FindBlock(o.heap, o.ptr);
               && OnlyEntry(h, o.heap, i)
               && (i < |h.blocks| ==> !h.blocks[i].used)
  {
    MallocExact(h, n);
    var o := Malloc(h, n);
    BestIsSmallestFit(h.blocks, n, |h.blocks|);
    var b := Best(h.blocks, n, |h.blocks|);
    if b >= 0 {
      FindBlockInvertsTranslate(o.heap, b, Addr(o.heap.blocks, b));
    } else {
      AppendOffset(h.blocks, Record(n));
      assert h.last + n < WORD;
      FindBlockInvertsTranslate(o.heap, |h.blocks|, h.last);
    }
  }

  /** A refused malloc leaves the heap alone. */
  lemma MallocRefuses(h: HeapState, n: nat)
    requires Inv(h) && n < WORD && (Extends(h, n) ==> Room(h, n))
    ensures Malloc(h, n).ptr == 0 <==> n == 0 || (Best(h.blocks, n, |h.blocks|) == -1 && TableFull(h))
    ensures Malloc(h, n).ptr == 0 ==> Malloc(h, n).heap == h
  {
    BestIsSmallestFit(h.blocks, n, |h.blocks|);
    var b := Best(h.blocks, n, |h.blocks|);
    if n > 0 && b >= 0 {
      var h' := SetUsed(h, b, true);
      FlagKeepsInv(h, b, true);
      FindBlockInvertsTranslate(h', b, Addr(h'.blocks, b));
    }
  }

  /** Some free block has a size from n to 3n. */
  ghost predicate SomeFit(h: HeapState, n: nat) {
    exists i :: 0 <= i < |h.blocks| && Reusable(h.blocks[i], n)
  }

  lemma FitIsFound(h: HeapState, n: nat)
    requires Inv(h) && n < WORD
    ensures Best(h.blocks, n, |h.blocks|) != -1 <==> SomeFit(h, n)
    ensures var b := Best(h.blocks, n, |h.blocks|);
            b != -1 ==> 0 <= b < |h.blocks| && Reusable(h.blocks[b], n)
                        && forall j :: 0 <= j < |h.blocks| && Reusable(h.blocks[j], n) ==> h.blocks[b].size <= h.blocks[j].size
  {
    BestIsSmallestFit(h.blocks, n, |h.blocks|);
    forall i | 0 <= i < |h.blocks| ensures Fits(h.blocks[i], n, Cap(n)) <==> Reusable(h.blocks[i], n) {
      LimitIsExact(h, n, i);
    }
  }

  /** Where malloc places a block: in the smallest free block of at most three times the size, else at the end. */
  lemma MallocPlaces(h: HeapState, n: nat)
    requires Inv(h) && 0 < n < WORD && (Extends(h, n) ==> Room(h, n))
    ensures SomeFit(h, n) ==>
              var o := Malloc(h, n);
              && o.ptr != 0 && o.heap.last == h.last && o.heap.top == h.top && |o.heap.blocks| == |h.blocks|
              && var k := FindBlock(o.heap, o.ptr);
                 && Reusable(h.blocks[k], n)
                 && forall j :: 0 <= j < |h.blocks| && Reusable(h.blocks[j], n) ==> h.blocks[k].size <= h.blocks[j].size
    ensures !SomeFit(h, n) && TableFull(h) ==> Malloc(h, n) == Outcome(h, 0)
    ensures !SomeFit(h, n) && !TableFull(h) ==>
              var o := Malloc(h, n);
              o.ptr == h.last && o.heap.last == h.last + n && o.heap.blocks == h.blocks + [Block(n, true)]
  {
    FitIsFound(h, n);
    var b := Best(h.blocks, n, |h.blocks|);
    if b >= 0 {
      var h' := SetUsed(h, b, true);
      FlagKeepsInv(h, b, true);
      FindBlockInvertsTranslate(h', b, Addr(h'.blocks, b));
    } else if !TableFull(h) {
      assert h.last + n < WORD && n < FLAG;
    }
  }

  /** malloc_a hands out a page-aligned block that nobody held before; every older entry is untouched. */
  lemma MallocAGrants(h: HeapState, n: nat)
    requires Inv(h) && 0 < n < WORD && (ExtendsAligned(h) ==> RoomAligned(h, n))
    ensures var o := MallocA(h, n);
            && Inv(o.heap)
            && (o.ptr != 0 <==> ExtendsAligned(h))
            && h.blocks <= o.heap.blocks
            && (o.ptr != 0 ==>
                  && o.ptr % PAGE == 0 && Owned(o.heap, o.ptr, n)
                  && h.last <= o.ptr < h.last + PAGE && o.heap.last == o.ptr + n
                  && FindBlock(o.heap, o.ptr) >= |h.blocks|)
  {
    MallocAExact(h, n);
    var o := MallocA(h, n);
    if NeedsPad(h) && !TableFull(h) {
      PadIsFreeAndAligns(h);
    } else if !NeedsPad(h) {
      NoPad(h);
    }
    if ExtendsAligned(h) {
      var h1 := Pad(h);
      assert o == GrowAligned(h1, n);
      AppendOffset(h1.blocks, Record(n));
      assert h1.last + n < WORD;
      FindBlockInvertsTranslate(o.heap, |h1.blocks|, h1.last);
    }
  }

  /** free clears the flag of the block that starts at ptr, and nothing else. */
  lemma FreeReleases(h: HeapState, ptr: int, n: nat)
    requires Inv(h) && Owned(h, ptr, n)
    ensures Inv(Free(h, ptr)) && OnlyEntry(h, Free(h, ptr), FindBlock(h, ptr))
    ensures !Free(h, ptr).blocks[FindBlock(h, ptr)].used
  {
    FlagKeepsInv(h, FindBlock(h, ptr), false);
  }

  lemma OthersKept(h: HeapState, h': HeapState, i: nat, live: map<int, nat>)
    requires Inv(h) && Inv(h') && OnlyEntry(h, h', i)
    requires |h.blocks| > 0 || live == map[]
    requires forall p :: p in live ==> Owned(h, p, live[p])
    requires forall p :: p in live ==> FindBlock(h, p) != i || h'.blocks[i].used
    ensures forall p :: p in live ==> Owned(h', p, live[p]) && FindBlock(h', p) == FindBlock(h, p)
  {
    forall p | p in live
      ensures Owned(h', p, live[p]) && FindBlock(h', p) == FindBlock(h, p)
    {
      OwnedKept(h, h', p, live[p]);
    }
  }

  /** Two live pointers with the same table entry are the same pointer. */
  lemma SameEntrySamePointer(h: HeapState, p: int, n: nat, q: int, m: nat)
    requires Owned(h, p, n) && Owned(h, q, m) && FindBlock(h, p) == FindBlock(h, q)
    ensures p == q
  {
  }

  lemma FreeStep(w: World, ptr: int)
    requires Good(w) && ptr in w.live
    ensures Good(World(Free(w.heap, ptr), w.live - {ptr}))
  {
    var h' := Free(w.heap, ptr);
    FreeReleases(w.heap, ptr, w.live[ptr]);
    forall p | p in w.live - {ptr}
      ensures FindBlock(w.heap, p) != FindBlock(w.heap, ptr)
    {
      if FindBlock(w.heap, p) == FindBlock(w.heap, ptr) {
        SameEntrySamePointer(w.heap, p, w.live[p], ptr, w.live[ptr]);
      }
    }
    OthersKept(w.heap, h', FindBlock(w.heap, ptr), w.live - {ptr});
  }

  lemma MallocStep(w: World, n: nat)
    requires Good(w) && n < WORD && (Extends(w.heap, n) ==> Room(w.heap, n))
    ensures var o := Malloc(w.heap, n);
            && Good(World(o.heap, Grant(w.live, o.ptr, n)))
            && o.ptr !in w.live
            && forall p :: p in w.live ==> Owned(o.heap, p, w.live[p]) && FindBlock(o.heap, p) == FindBlock(w.heap, p)
  {
    MallocRefuses(w.heap, n);
    var o := Malloc(w.heap, n);
    if o.ptr != 0 {
      MallocGrants(w.heap, n);
      OthersKept(w.heap, o.heap, FindBlock(o.heap, o.ptr), w.live);
    } else {
      forall p | p in w.live ensures p != 0 {
        assert Owned(w.heap, p, w.live[p]);
      }
    }
  }

  lemma MallocAStep(w: World, n: nat)
    requires Good(w) && 0 < n < WORD && (ExtendsAligned(w.heap) ==> RoomAligned(w.heap, n))
    ensures var o := MallocA(w.heap, n);
            Good(World(o.heap, Grant(w.live, o.ptr, n))) && o.ptr !in w.live
  {
    var o := MallocA(w.heap, n);
    MallocAGrants(w.heap, n);
    forall p | p in w.live
      ensures Owned(o.heap, p, w.live[p]) && FindBlock(o.heap, p) < |w.heap.blocks| && p != 0
    {
      OwnedKept(w.heap, o.heap, p, w.live[p]);
    }
  }

  lemma ReallocStep(w: World, ptr: int, n: nat)
    requires Good(w) && ptr in w.live && n < WORD && (Extends(w.heap, n) ==> Room(w.heap, n))
    ensures var o := Realloc(w.heap, ptr, n);
            Good(World(o.heap, Grant(w.live - {ptr}, o.ptr, n))) && o.ptr !in w.live
  {
    var m := Malloc(w.heap, n);
    MallocStep(w, n);
    var w' := World(m.heap, Grant(w.live, m.ptr, n));
    FindBlockInvertsTranslate(m.heap, FindBlock(m.heap, ptr), ptr);
    FreeStep(w', ptr);
    assert w'.live - {ptr} == Grant(w.live - {ptr}, m.ptr, n);
  }

  /**
   What realloc returns: nothing for no bytes, or when nothing fits and the table is full; else a
   block of the caller's own of at least n bytes, which was free or is new.  Either way the old
   block is free afterwards, and no other entry has changed.
   */
  lemma ReallocExact(w: World, ptr: int, n: nat)
    requires Good(w) && ptr in w.live && n < WORD && HasRoom(w, CallRealloc(ptr, n))
    ensures |w.heap.blocks| > 0
    ensures var h, o, k := w.heap, Realloc(w.heap, ptr, n), FindBlock(w.heap, ptr);
            && (o.ptr == 0 <==> n == 0 || (!SomeFit(h, n) && TableFull(h)))
            && k < |h.blocks| <= |o.heap.blocks| && o.heap.blocks[k] == h.blocks[k].(used := false)
            && (o.ptr == 0 ==> o.heap == h.(blocks := h.blocks[k := h.blocks[k].(used := false)]))
            && (o.ptr != 0 ==>
                  && Owned(o.heap, o.ptr, n) && o.ptr !in w.live
                  && var i := FindBlock(o.heap, o.ptr);
                     && i != k && (i < |h.blocks| ==> !h.blocks[i].used)
                     && forall j :: 0 <= j < |h.blocks| && j != i && j != k ==> o.heap.blocks[j] == h.blocks[j])
  {
    var h, m, o, k := w.heap, Malloc(w.heap, n), Realloc(w.heap, ptr, n), FindBlock(w.heap, ptr);
    assert Owned(h, ptr, w.live[ptr]);
    MallocRefuses(h, n);
    FitIsFound(h, n);
    MallocStep(w, n);
    FindBlockInvertsTranslate(m.heap, k, ptr);
    if m.ptr != 0 {
      MallocGrants(h, n);
      ReallocStep(w, ptr, n);
      FlagKeepsFind(m.heap, k, m.ptr, n);
      assert m.ptr in Grant(w.live - {ptr}, m.ptr, n);
    }
  }

  /** A change of a flag does not change where a pointer leads. */
  lemma FlagKeepsFind(h: HeapState, k: nat, p: int, n: nat)
    requires Inv(h) && k < |h.blocks| && Owned(h, p, n)
    ensures FindBlock(SetUsed(h, k, false), p) == FindBlock(h, p)
  {
    var h' := SetUsed(h, k, false);
    FlagKeepsInv(h, k, false);
    OffsetAgrees(h.blocks, h'.blocks, FindBlock(h, p));
    FindBlockInvertsTranslate(h', FindBlock(h, p), p);
  }

  /** Every legal call with room keeps the heap well formed and every live block owned. */
  lemma StepKeepsGood(w: World, c: Call)
    requires Good(w) && Legal(w, c) && HasRoom(w, c)
    ensures c.CallFree? || c.CallRealloc? ==> |w.heap.blocks| > 0
    ensures Good(Step(w, c))
  {
    match c
    case CallMalloc(n) => MallocStep(w, n);
    case CallMallocA(n) => MallocAStep(w, n);
    case CallFree(ptr) => FreeStep(w, ptr);
    case CallRealloc(ptr, n) => ReallocStep(w, ptr, n);
  }

  /** And no legal call without room does: the guard is exact. */
  lemma NoRoomBreaks(w: World, c: Call)
    requires Good(w) && Legal(w, c) && !HasRoom(w, c)
    ensures c.CallFree? || c.CallRealloc? ==> |w.heap.blocks| > 0
    ensures !Inv(Step(w, c).heap)
  {
    match c
    case CallMalloc(n) => MallocExact(w.heap, n);
    case CallMallocA(n) => MallocAExact(w.heap, n);
    case CallRealloc(ptr, n) =>
      MallocExact(w.heap, n);
      var m := Malloc(w.heap, n);
      if ptr <= m.heap.last && Inv(Free(m.heap, ptr)) {
        FlagKeepsOffsets(m.heap, FindBlock(m.heap, ptr), false, |m.heap.blocks|);
      }
  }

  // ----- runs

  predicate LegalRun(w: World, calls: seq<Call>)
    decreases |calls|
  {
    calls == [] ||
    (&& Legal(w, calls[0]) && HasRoom(w, calls[0])
     && (calls[0].CallFree? || calls[0].CallRealloc? ==> |w.heap.blocks| > 0)
     && LegalRun(Step(w, calls[0]), calls[1..]))
  }

  function Run(w: World, calls: seq<Call>): (r: World)
    requires LegalRun(w, calls)
    decreases |calls|
  {
    if calls == [] then w else Run(Step(w, calls[0]), calls[1..])
  }

  /** The heap k_heap_init leaves: no blocks, and sixteen pages below the break. */
  function Boot(): World {
    World(HeapState([], Sbrk(BOTTOM, 0x10000), BOTTOM), map[])
  }

  lemma {:induction false} RunKeepsGood(w: World, calls: seq<Call>)
    requires Good(w) && LegalRun(w, calls)
    ensures Good(Run(w, calls))
    decreases |calls|
  {
    if calls != [] {
      StepKeepsGood(w, calls[0]);
      RunKeepsGood(Step(w, calls[0]), calls[1..]);
    }
  }

  /** Live regions of a good world lie under the break and do not overlap. */
  lemma LiveRegionsDisjoint(w: World, p: int, q: int)
    requires Good(w) && p in w.live && q in w.live
    ensures BOTTOM <= p && p + w.live[p] <= w.heap.last <= w.heap.top
    ensures p != q ==> p + w.live[p] <= q || q + w.live[q] <= p
  {
    var bs := w.heap.blocks;
    assert Owned(w.heap, p, w.live[p]) && Owned(w.heap, q, w.live[q]);
    var i, j := FindBlock(w.heap, p), FindBlock(w.heap, q);
    BlocksInOrder(bs, i, |bs|);
    if i < j {
      BlocksInOrder(bs, i, j);
    } else if j < i {
      BlocksInOrder(bs, j, i);
    }
  }

  /**
   Main result: after any run from boot, the blocks tile the used part of the heap,
   the used part lies below the page-aligned break, and the regions the caller holds
   are inside it and pairwise disjoint.
   */
  lemma EveryRunIsSafe(calls: seq<Call>)
    requires LegalRun(Boot(), calls)
    ensures var w := Run(Boot(), calls);
            && Tiled(w.heap) && Covered(w.heap)
            && (forall p :: p in w.live ==> BOTTOM <= p && p + w.live[p] <= w.heap.last)
            && (forall p, q :: p in w.live && q in w.live && p != q ==>
                  p + w.live[p] <= q || q + w.live[q] <= p)
  {
    assert Boot().heap.top == BOTTOM + 0x10000;
    assert Good(Boot());
    RunKeepsGood(Boot(), calls);
    var w := Run(Boot(), calls);
    forall p, q | p in w.live && q in w.live
      ensures BOTTOM <= p && p + w.live[p] <= w.heap.last
      ensures p != q ==> p + w.live[p] <= q || q + w.live[q] <= p
    {
      LiveRegionsDisjoint(w, p, q);
    }
  }

  /** A failing input: the request passes 2^32, is granted, and the heap's end drops to a low address. */
  lemma HugeRequestBreaksTheHeap()
    ensures var o := Malloc(Boot().heap, 0x5000_0000);
            o.ptr == BOTTOM && o.heap.last == 0x1030_0000 && !Tiled(o.heap)
  {
    var h := Boot().heap;
    assert Best(h.blocks, 0x5000_0000, 0) == -1;
    var o := Malloc(h, 0x5000_0000);
    assert o.heap.blocks == [Record(0x5000_0000)];
    AppendOffset([], Record(0x5000_0000));
  }

  /** A second one: the doubled break request itself wraps, so the break moves below the heap. */
  lemma LargeRequestWrapsTheBreak()
    ensures var o := Malloc(Boot().heap, 0x2001_0000);
            o.ptr == BOTTOM && o.heap.last == 0xE031_0000 && o.heap.top == 0x0031_0000
  {
    var h := Boot().heap;
    assert Best(h.blocks, 0x2001_0000, 0) == -1;
    assert Sbrk(BOTTOM, 0x10000) == 0xC031_0000;
  }
}
