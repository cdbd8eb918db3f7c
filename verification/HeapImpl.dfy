/**
 The heap as the kernel runs it: a word table updated in place, scanned by
 pointer loops.  Every method is proved against its function in `HeapSpec`.
 */
module HeapImpl {
  import opened Common
  import opened Bits
  import opened HeapSpec
  import opened HeapProofs
  import opened HeapRuns
  import opened SbrkImpl
  import opened SbrkRuns
  import B = SbrkSpec

  // 4096 words: the table's 1024-word request sits in a 16 KB reservation.
  const TABLE_WORDS: int := 4096

  function Decode(w: int): Block
    requires 0 <= w < WORD
  {
    Block(w % FLAG, w >= FLAG)
  }

  function DecodeAll(ws: seq<int>): (bs: seq<Block>)
    requires forall i :: 0 <= i < |ws| ==> 0 <= ws[i] < WORD
    ensures |bs| == |ws| && forall i :: 0 <= i < |ws| ==> bs[i] == Decode(ws[i])
  {
    seq(|ws|, i requires 0 <= i < |ws| => Decode(ws[i]))
  }

  lemma WrapAdd(a: int, b: int)
    ensures Wrap(Wrap(a) + b) == Wrap(a + b)
  {
    assert Wrap(a) == a - a / WORD * WORD;
    assert Wrap(a) + b == (a + b) - a / WORD * WORD;
    WrapShift(a + b, a / WORD);
  }

  lemma WrapShift(x: int, k: int)
    ensures Wrap(x - k * WORD) == Wrap(x)
  {
    var y := x - k * WORD;
    assert y == (x / WORD - k) * WORD + x % WORD;
  }

  lemma BreakAfter(from: int, i: nat)
    ensures Wrap(Wrap(from + i * PAGE) + 0x1000) == Wrap(from + (i + 1) * PAGE)
  {
    WrapAdd(from + i * PAGE, PAGE);
  }

  lemma PadAsComputed(last: int)
    requires 0 <= last < WORD
    ensures Wrap(Wrap(last - last % PAGE + PAGE) - last) == PadSize(last)
    ensures PadSize(last) == PAGE <==> last % PAGE == 0
  {
    WrapAdd(last - last % PAGE + PAGE, -last);
  }

  /** The block realloc moves to lies apart from the whole old block, which keeps its entry. */
  lemma ReallocSeparates(h: HeapState, ptr: int, m: nat, n: nat)
    requires Inv(h) && Owned(h, ptr, m) && n < WORD
    ensures |Malloc(h, n).heap.blocks| > 0
    ensures var o := Malloc(h, n);
            var sz := h.blocks[FindBlock(h, ptr)].size;
            Inv(Realloc(h, ptr, n).heap) ==>
              && ptr <= o.heap.last
              && FindBlock(o.heap, ptr) == FindBlock(h, ptr)
              && o.heap.blocks[FindBlock(h, ptr)].size == sz
              && 0 <= o.ptr && o.ptr + n <= WORD && ptr + sz <= WORD
              && (o.ptr != 0 ==> o.ptr + n <= ptr || ptr + sz <= o.ptr) && BOTTOM <= ptr && sz < BOTTOM
  {
    var w := World(h, map[ptr := h.blocks[FindBlock(h, ptr)].size]);
    if HasRoom(w, CallRealloc(ptr, n)) {
      var o := Malloc(h, n);
      MallocStep(w, n);
      if o.ptr != 0 {
        var w' := World(o.heap, Grant(w.live, o.ptr, n));
        LiveRegionsDisjoint(w', o.ptr, ptr);
        LiveRegionsDisjoint(w', ptr, o.ptr);
        MallocGrants(h, n);
      } else {
        MallocRefuses(h, n);
        LiveRegionsDisjoint(w, ptr, ptr);
      }
    } else {
      NoRoomBreaks(w, CallRealloc(ptr, n));
    }
  }

  /** Two ranges of n bytes inside memory that do not overlap. */
  ghost predicate Apart(dst: int, src: int, n: nat) {
    0 <= dst && dst + n <= WORD && 0 <= src && src + n <= WORD && (dst + n <= src || src + n <= dst)
  }

  /** The n bytes at dst are those that were at src, and no other byte changed. */
  ghost predicate Copied(before: seq<byte>, after: seq<byte>, dst: int, src: int, n: nat) {
    && |before| == |after| == WORD && Apart(dst, src, n)
    && after[dst..dst + n] == before[src..src + n]
    && (forall a :: 0 <= a < WORD && !(dst <= a < dst + n) ==> after[a] == before[a])
  }

  lemma CopyDone(before: seq<byte>, after: seq<byte>, dst: int, src: int, n: nat)
    requires |before| == |after| == WORD && Apart(dst, src, n)
    requires forall a :: 0 <= a < WORD && !(dst <= a < dst + n) ==> after[a] == before[a]
    requires forall a :: dst <= a < dst + n ==> after[a] == before[src + (a - dst)]
    ensures Copied(before, after, dst, src, n)
  {
    assert after[dst..dst + n] == before[src..src + n];
  }

  function Min(a: nat, b: nat): nat {
    if a <= b then a else b
  }

  class KernelHeap {
    var table: array<int>
    var count: nat
    var top: int
    var last: int
    /** The page tables and frames under the heap. */
    const pages: KernelPages
    /** The 4 GB of addressable bytes. */
    const ram: array<byte>

    ghost predicate PagesValid()
      reads this, pages.tables, pages.tables.mem, pages.tables.mm, pages.tables.mm.pd, pages.tables.mm.pt
    {
      && pages.Valid() && table != pages.tables.mem && table != pages.tables.mm.pd && table != pages.tables.mm.pt
    }

    ghost predicate Valid()
      reads this, table
    {
      && table.Length == TABLE_WORDS && ram.Length == WORD
      && count <= MAX_BLOCKS + 1
      && 0 <= top < WORD && 0 <= last < WORD
      && (forall i :: 0 <= i < count ==> 0 <= table[i] < WORD)
      && (forall i :: count <= i < TABLE_WORDS ==> table[i] == 0)
    }

    ghost function State(): HeapState
      reads this, table
      requires Valid()
    {
      HeapState(DecodeAll(table[..count]), top, last)
    }

    /**
     k_heap_init; the reservation's words past the cleared 4 KB are taken to be zero already.
     It runs before there is a current page directory, and leaves the boot directory as it is.
     */
    constructor (reservation: array<int>, memory: array<byte>, under: KernelPages)
      requires reservation.Length == TABLE_WORDS && memory.Length == WORD
      requires forall i :: MAX_BLOCKS <= i < TABLE_WORDS ==> reservation[i] == 0
      modifies reservation
      ensures Valid() && table == reservation && ram == memory && pages == under
      ensures State() == Boot().heap
    {
      table, ram, pages := reservation, memory, under;
      count, top, last := 0, BOTTOM + 0x10000, BOTTOM;
      new;
      var i := 0;
      while i < MAX_BLOCKS
        invariant 0 <= i <= MAX_BLOCKS
        invariant table == reservation && count == 0 && top == BOTTOM + 0x10000 && last == BOTTOM
        invariant forall j :: 0 <= j < i || MAX_BLOCKS <= j < TABLE_WORDS ==> table[j] == 0
      {
        table[i] := 0;
        i := i + 1;
      }
      assert State().blocks == [];
    }

    /** One round of sbrk's loop: the page at the break is looked up and mapped, and the break moves over it. */
    method PassPage(ghost k: B.Kernel, ghost from: int, ghost i: nat)
      requires Valid() && PagesValid() && 0 <= from < WORD && i < B.ALL_PAGES
      requires top == Wrap(from + i * PAGE) && Reaches(k, pages.dir, BreakPage(from), i, pages.State())
      modifies this`top, pages.tables.mem, pages.tables.mm, pages.tables.mm.pd, pages.tables.mm.pt
      ensures Valid() && PagesValid() && State() == old(State()).(top := top)
      ensures pages.tables.mm.pd == old(pages.tables.mm.pd)
      ensures pages.tables.mm.pt == old(pages.tables.mm.pt) || fresh(pages.tables.mm.pt)
      ensures top == Wrap(from + (i + 1) * PAGE)
      ensures Reaches(k, pages.dir, BreakPage(from), i + 1, pages.State())
    {
      ghost var before := pages.State();
      pages.Back(top);
      RoundAt(k, pages.dir, from, i, top, before, pages.State());
      BreakAfter(from, i);
      top := Wrap(top + 0x1000);
    }

    method PassPages(n: nat)
      requires Valid() && PagesValid() && n < B.ALL_PAGES
      modifies this`top, pages.tables.mem, pages.tables.mm, pages.tables.mm.pd, pages.tables.mm.pt
      ensures Valid() && PagesValid() && State() == old(State()).(top := Wrap(old(top) + n * PAGE))
      ensures pages.tables.mm.pd == old(pages.tables.mm.pd)
      ensures pages.tables.mm.pt == old(pages.tables.mm.pt) || fresh(pages.tables.mm.pt)
      ensures Reaches(old(pages.State()), pages.dir, BreakPage(old(top)), n, pages.State())
    {
      ghost var k := pages.State();
      var i := 0;
      NoRoundYet(k, pages.dir, BreakPage(top));
      while i < n
        invariant 0 <= i <= n
        invariant Valid() && PagesValid() && State() == old(State()).(top := top)
        invariant pages.tables.mm.pd == old(pages.tables.mm.pd)
        invariant pages.tables.mm.pt == old(pages.tables.mm.pt) || fresh(pages.tables.mm.pt)
        invariant top == Wrap(old(top) + i * PAGE)
        invariant Reaches(k, pages.dir, BreakPage(old(top)), i, pages.State())
      {
        PassPage(k, old(top), i);
        i := i + 1;
      }
    }

    /** sbrk, one page at a time. */
    method SbrkCall(n: nat) returns (r: int)
      requires Valid() && PagesValid() && n < WORD
      modifies this`top, pages.tables.mem, pages.tables.mm, pages.tables.mm.pd, pages.tables.mm.pt
      ensures Valid() && PagesValid() && State() == old(State()).(top := Sbrk(old(top), n))
      ensures r == if SbrkRefuses(old(top), n) then 0 else top
      ensures pages.tables.mm.pd == old(pages.tables.mm.pd)
      ensures pages.tables.mm.pt == old(pages.tables.mm.pt) || fresh(pages.tables.mm.pt)
      ensures Moved(old(pages.State()), pages.dir, old(top), top, pages.State())
    {
      ghost var k := pages.State();
      NotMoved(k, pages.dir, top);
      if n == 0 {
        return 0;
      }
      if Wrap(n + top) >= HEAP_MAX {
        return 0;
      }
      var blocks := 1;
      if n > 0x1000 {
        blocks := n / 0x1000;
      }
      PassPages(blocks);
      MovedBySbrk(k, pages.dir, old(top), n, pages.State());
      return top;
    }

    method BlockchainAdd(size: nat) returns (ok: bool)
      requires Valid() && size < WORD
      modifies this`count, table
      ensures Valid() && ok == !old(TableFull(State()))
      ensures State() == if ok then old(State()).(blocks := old(State()).blocks + [Record(size)]) else old(State())
    {
      if count > 1024 {
        return false;
      }
      table[count] := FLAG + size % FLAG;
      assert Decode(table[count]) == Record(size);
      count := count + 1;
      assert State().blocks == old(State()).blocks + [Record(size)];
      return true;
    }

    /**
     find_best_free.  A hit restarts the counter but not the pointer, so the scan runs
     past the table; it still stops, stays below 2*count, and agrees with one plain scan.
     */
    method FindBestFree(n: nat) returns (smallest: int, scanned: nat)
      requires Valid() && 0 < n < WORD
      ensures smallest == Best(State().blocks, n, count)
      ensures IsBest(State().blocks, n, count, smallest)
      ensures scanned <= 2 * count
    {
      ghost var bs := State().blocks;
      var limit := Wrap(3 * n);
      var i := 0;
      smallest, scanned := -1, 0;
      while i < count
        invariant 0 <= i <= count && i <= scanned <= count + i
        invariant smallest == Best(bs, n, if scanned < count then scanned else count)
        invariant limit == Limit(bs, n, smallest)
        decreases 2 * count - scanned
      {
        var word := table[scanned];
        var size := word % FLAG;
        scanned := scanned + 1;
        if size >= n && size <= limit && word < FLAG {
          smallest := scanned - 1;
          limit := size;
          i := 0;
        } else {
          i := i + 1;
        }
      }
      BestIsSmallestFit(bs, n, count);
    }

    /** find_block: a table index, or -1 for a pointer past the last allocation. */
    method FindBlockOf(ptr: int) returns (r: int)
      requires Valid() && 0 <= ptr < WORD && count > 0
      ensures r == if ptr > last then -1 else FindBlock(State(), ptr)
    {
      if ptr > last {
        return -1;
      }
      ghost var bs := State().blocks;
      var toTraverse := Wrap(ptr - BOTTOM);
      var total := 0;
      var i := 0;
      while i < count
        invariant 0 <= i <= count
        invariant total == Wrap(Offset(bs, i))
        invariant Seek(bs, toTraverse, i) == Seek(bs, toTraverse, 0)
      {
        WrapAdd(Offset(bs, i), bs[i].size);
        total := Wrap(total + table[i] % FLAG);
        i := i + 1;
        if total > toTraverse {
          return i - 1;
        }
      }
      return i - 1;
    }

    method TranslateBlock(b: nat) returns (r: int)
      requires Valid() && b <= count
      ensures r == Translate(State(), b)
    {
      ghost var bs := State().blocks;
      var total := 0;
      var i := 0;
      while i != b
        invariant 0 <= i <= b
        invariant total == Wrap(Offset(bs, i))
      {
        WrapAdd(Offset(bs, i), bs[i].size);
        total := Wrap(total + table[i] % FLAG);
        i := i + 1;
      }
      WrapAdd(Offset(bs, b), BOTTOM);
      r := Wrap(BOTTOM + total);
      if r > last {
        r := 0;
      }
    }

    method SetFlag(i: nat, used: bool)
      requires Valid() && i < count
      modifies table
      ensures Valid() && State() == SetUsed(old(State()), i, used)
    {
      table[i] := table[i] % FLAG + if used then FLAG else 0;
      assert State().blocks == SetUsed(old(State()), i, used).blocks;
    }

    method FreePtr(ptr: int)
      requires Valid() && count > 0 && 0 <= ptr <= last
      modifies table
      ensures Valid() && State() == Free(old(State()), ptr)
    {
      var block := FindBlockOf(ptr);
      SetFlag(block, false);
    }

    method MallocCall(n: nat) returns (ptr: int)
      requires Valid() && PagesValid() && n < WORD
      modifies this`count, this`top, this`last, table, pages.tables.mem, pages.tables.mm, pages.tables.mm.pd, pages.tables.mm.pt
      ensures Valid() && State() == Malloc(old(State()), n).heap
      ensures ptr == Malloc(old(State()), n).ptr && 0 <= ptr < WORD
      ensures PagesValid() && Moved(old(pages.State()), pages.dir, old(top), top, pages.State())
    {
      NotMoved(pages.State(), pages.dir, top);
      if n == 0 {
        return 0;
      }
      var block, _ := FindBestFree(n);
      if block != -1 {
        SetFlag(block, true);
        ptr := TranslateBlock(block);
      } else {
        ptr := GrowCall(n);
      }
    }

    /** The branch of malloc that found no block to reuse. */
    method GrowCall(n: nat) returns (ptr: int)
      requires Valid() && PagesValid() && n < WORD
      modifies this`count, this`top, this`last, table, pages.tables.mem, pages.tables.mm, pages.tables.mm.pd, pages.tables.mm.pt
      ensures Valid() && State() == Grow(old(State()), n).heap
      ensures ptr == Grow(old(State()), n).ptr && 0 <= ptr < WORD
      ensures PagesValid() && Moved(old(pages.State()), pages.dir, old(top), top, pages.State())
    {
      NotMoved(pages.State(), pages.dir, top);
      var ok := BlockchainAdd(n);
      if !ok {
        return 0;
      }
      if Wrap(last + n) >= top {
        var _ := SbrkCall(Wrap(2 * (Wrap(n + last) - top)));
      }
      ptr := last;
      last := Wrap(last + n);
    }

    method MallocACall(n: nat) returns (ptr: int)
      requires Valid() && PagesValid() && n < WORD
      modifies this`count, this`top, this`last, table, pages.tables.mem, pages.tables.mm, pages.tables.mm.pd, pages.tables.mm.pt
      ensures Valid() && State() == MallocA(old(State()), n).heap
      ensures ptr == MallocA(old(State()), n).ptr && 0 <= ptr < WORD
      ensures PagesValid() && Moved(old(pages.State()), pages.dir, old(top), top, pages.State())
    {
      NotMoved(pages.State(), pages.dir, top);
      var base := Wrap(last - last % 0x1000 + 0x1000);
      var diff := Wrap(base - last);
      assert diff == PadSize(last) && (diff == PAGE <==> !NeedsPad(State())) by {
        PadAsComputed(last);
      }
      if diff != 0x1000 {
        var ok := PadCall(diff);
        if !ok {
          return 0;
        }
      }
      assert State() == Pad(old(State())) && top == old(top);
      ptr := GrowAlignedCall(n);
    }

    /** malloc_a's padding block: appended, then freed. */
    method PadCall(diff: nat) returns (ok: bool)
      requires Valid() && diff < WORD
      modifies this`count, this`last, table
      ensures Valid() && ok == !old(TableFull(State()))
      ensures State() == if ok then PadWith(old(State()), diff) else old(State())
    {
      ok := BlockchainAdd(diff);
      if ok {
        last := Wrap(last + diff);
        FreeLast();
      }
    }

    method FreeLast()
      requires Valid() && count > 0
      modifies table
      ensures Valid() && State() == Free(old(State()), Translate(old(State()), count - 1))
    {
      var p := TranslateBlock(count - 1);
      FreePtr(p);
    }

    /** malloc_a's block itself. */
    method GrowAlignedCall(n: nat) returns (ptr: int)
      requires Valid() && PagesValid() && n < WORD
      modifies this`count, this`top, this`last, table, pages.tables.mem, pages.tables.mm, pages.tables.mm.pd, pages.tables.mm.pt
      ensures Valid() && State() == GrowAligned(old(State()), n).heap
      ensures ptr == GrowAligned(old(State()), n).ptr && 0 <= ptr < WORD
      ensures PagesValid() && Moved(old(pages.State()), pages.dir, old(top), top, pages.State())
    {
      NotMoved(pages.State(), pages.dir, top);
      var ok := BlockchainAdd(n);
      if !ok {
        return 0;
      }
      ptr := last;
      last := Wrap(last + n);
      if last >= top {
        var _ := SbrkCall(Wrap(last - top + 0x1000));
      }
    }

    /** memcpy: bytes in ascending order; address arithmetic is 32-bit. */
    method Memcpy(dst: int, src: int, n: nat)
      requires Valid() && 0 <= dst < WORD && 0 <= src < WORD
      modifies ram
      ensures Apart(dst, src, n) ==> Copied(old(ram[..]), ram[..], dst, src, n)
    {
      var i := 0;
      while i < n
        invariant 0 <= i <= n
        invariant Apart(dst, src, n) ==> forall a :: 0 <= a < WORD && !(dst <= a < dst + i) ==> ram[a] == old(ram[a])
        invariant Apart(dst, src, n) ==> forall a :: dst <= a < dst + i ==> ram[a] == old(ram[src + (a - dst)])
      {
        ram[Wrap(dst + i)] := ram[Wrap(src + i)];
        i := i + 1;
      }
      if Apart(dst, src, n) {
        CopyDone(old(ram[..]), ram[..], dst, src, n);
      }
    }

    /**
     realloc of a block the caller holds.  Unless the heap overflows, the new block is
     disjoint from the old one, starts with its bytes, and no other byte changes.  When
     malloc refuses, the bytes go to address 0.
     */
    method ReallocCall(ptr: int, n: nat, ghost m: nat) returns (r: int)
      requires Valid() && PagesValid() && n < WORD && Inv(State()) && Owned(State(), ptr, m)
      modifies this`count, this`top, this`last, table, ram, pages.tables.mem, pages.tables.mm, pages.tables.mm.pd, pages.tables.mm.pt
      ensures Valid() && State() == Realloc(old(State()), ptr, n).heap
      ensures r == Realloc(old(State()), ptr, n).ptr
      ensures Inv(State()) ==>
                var size := old(State().blocks[FindBlock(State(), ptr)].size);
                && (r != 0 ==> r + n <= ptr || ptr + size <= r)
                && Copied(old(ram[..]), ram[..], r, ptr, Min(n, size))
      ensures PagesValid() && Moved(old(pages.State()), pages.dir, old(top), top, pages.State())
    {
      ghost var h := State();
      assert 0 <= ptr < WORD by {
        FindBlockInvertsTranslate(h, FindBlock(h, ptr), ptr);
      }
      var size;
      r, size := ReallocTable(ptr, n);
      ReallocSeparates(h, ptr, m, n);
      if size != -1 {
        Memcpy(r, ptr, if n <= size then n else size);
      }
    }

    /** The table half of realloc; `size` is the old block's size, or -1 for a pointer past the end. */
    method ReallocTable(ptr: int, n: nat) returns (r: int, size: int)
      requires Valid() && PagesValid() && n < WORD && 0 <= ptr < WORD && count > 0
      modifies this`count, this`top, this`last, table, pages.tables.mem, pages.tables.mm, pages.tables.mm.pd, pages.tables.mm.pt
      ensures Valid() && State() == Realloc(old(State()), ptr, n).heap
      ensures r == Realloc(old(State()), ptr, n).ptr && 0 <= r < WORD
      ensures var m := Malloc(old(State()), n).heap;
              |m.blocks| > 0 && size == if ptr > m.last then -1 else m.blocks[FindBlock(m, ptr)].size
      ensures PagesValid() && Moved(old(pages.State()), pages.dir, old(top), top, pages.State())
    {
      r := MallocCall(n);
      assert count > 0;
      var block := FindBlockOf(ptr);
      if block == -1 {
        return 0, -1;
      }
      size := table[block] % FLAG;
      SetFlag(block, false);
    }
  }
}
