/**
 Physical memory: the boot allocator that never frees, and the two bitmaps that
 hand out 4 KB pages, one for the 4 MB directories that are full and one for the
 pages of the directory in use.
 */
module PhysSpec {
  import opened Common
  import opened Bits
  import opened Bitmaps

  const ERR_NO_MEM: int := -1
  const PAGE: int := 0x1000
  const DIRECTORY: int := 0x40_0000
  const ENTRIES: int := 1024

  // ----- mm_alloc: MM_HEAP is a word pointer, so what is added to it counts four times

  const KERNEL_VIRT: int := 0xC000_0000
  const BOOT_LIMIT: int := 0xC030_0000

  datatype BootResult = BootResult(heap: int, addr: int)

  function BootStep(n: nat): int {
    if n >= PAGE then 4 * (n - n % PAGE) else 4 * PAGE
  }

  function BootAlloc(heap: int, n: nat): (r: BootResult) {
    if heap == 0 then BootResult(heap, 0)
    else if Wrap(heap + 4 * n) < BOOT_LIMIT then BootResult(Wrap(heap + BootStep(n)), heap)
    else BootResult(heap, 0)
  }

  ghost predicate BootOk(heap: int) {
    KERNEL_VIRT < heap < BOOT_LIMIT + 4 * PAGE && heap % PAGE == 0
  }

  /** The region handed out is below the limit and below everything handed out later. */
  ghost predicate RegionSafe(heap: int, n: nat, r: BootResult) {
    r.addr + n < BOOT_LIMIT && r.addr + n <= r.heap
  }

  /** Rounding the step down is harmless, exactly as long as the scaled request does not wrap. */
  lemma BootAllocExact(heap: int, n: nat)
    requires BootOk(heap) && n < WORD && BootAlloc(heap, n).addr != 0
    ensures RegionSafe(heap, n, BootAlloc(heap, n)) <==> heap + 4 * n < WORD
    ensures heap + 4 * n < WORD ==> BootOk(BootAlloc(heap, n).heap)
  {
    if heap + 4 * n < WORD {
      WrapSmall(heap + 4 * n);
      StepInRange(heap, n);
      WrapSmall(heap + BootStep(n));
    } else {
      assert n >= 0x0F00_0000;
    }
  }

  lemma WrapSmall(x: int)
    requires 0 <= x < WORD
    ensures Wrap(x) == x
  {
  }

  lemma StepInRange(heap: int, n: nat)
    requires BootOk(heap) && heap + 4 * n < BOOT_LIMIT
    ensures n <= BootStep(n) && heap + BootStep(n) < BOOT_LIMIT + 4 * PAGE && (heap + BootStep(n)) % PAGE == 0
  {
    assert n - n % PAGE == PAGE * (n / PAGE);
    assert n < 2 * PAGE * (n / PAGE) || n < PAGE;
    assert 4 * (PAGE * (n / PAGE)) == PAGE * (4 * (n / PAGE));
    MultipleAdded(heap, if n >= PAGE then 4 * (n / PAGE) else 4);
  }

  lemma MultipleAdded(a: int, k: nat)
    requires a % PAGE == 0
    ensures (a + PAGE * k) % PAGE == 0
  {
    assert a == PAGE * (a / PAGE);
    assert a + PAGE * k == PAGE * (a / PAGE + k);
  }

  /** A failing input: a request of 2^30 bytes wraps to nothing, so the same address is handed out again. */
  lemma HugeBootRequestRepeats(heap: int)
    requires BootOk(heap) && heap < BOOT_LIMIT
    ensures BootAlloc(heap, 0x4000_0000) == BootResult(heap, heap)
  {
  }

  datatype Region = Region(addr: int, size: nat)

  /** The non-null results of a sequence of mm_alloc calls. */
  function BootRun(heap: int, requests: seq<nat>): (rs: seq<Region>)
    decreases |requests|
  {
    if requests == [] then [] else
    var r := BootAlloc(heap, requests[0]);
    (if r.addr == 0 then [] else [Region(r.addr, requests[0])]) + BootRun(r.heap, requests[1..])
  }

  /** No granted request of the run is so large that four times it wraps. */
  predicate NoneWraps(heap: int, requests: seq<nat>)
    decreases |requests|
  {
    requests == [] ||
    (var r := BootAlloc(heap, requests[0]);
     && requests[0] < WORD
     && (r.addr != 0 ==> heap + 4 * requests[0] < WORD)
     && NoneWraps(r.heap, requests[1..]))
  }

  /** All regions of a run are aligned, below the limit, and each lies wholly before the next. */
  ghost predicate Separate(heap: int, rs: seq<Region>) {
    && (forall i :: 0 <= i < |rs| ==>
          heap <= rs[i].addr && rs[i].addr % PAGE == 0 && rs[i].addr + rs[i].size < BOOT_LIMIT)
    && (forall i, j :: 0 <= i < j < |rs| ==> rs[i].addr + rs[i].size <= rs[j].addr)
  }

  lemma {:induction false} BootRunSafe(heap: int, requests: seq<nat>)
    requires BootOk(heap) && NoneWraps(heap, requests)
    ensures Separate(heap, BootRun(heap, requests))
    decreases |requests|
  {
    if requests != [] {
      var n := requests[0];
      var r := BootAlloc(heap, n);
      var rest := BootRun(r.heap, requests[1..]);
      if r.addr == 0 {
        BootRunSafe(r.heap, requests[1..]);
        assert BootRun(heap, requests) == rest;
      } else {
        BootAllocExact(heap, n);
        BootRunSafe(r.heap, requests[1..]);
        assert BootRun(heap, requests) == [Region(r.addr, n)] + rest;
      }
    }
  }

  // ----- the page bitmaps, as sets of the bits that are on

  datatype Pages = Pages(pd: set<nat>, pt: set<nat>)

  datatype PageResult = PageResult(pages: Pages, addr: int)

  /** Lowest of the 1024 entries that is not in s, or ERR_NO_MEM. */
  function FirstFree(s: set<nat>): (r: int)
    ensures r == ERR_NO_MEM || 0 <= r < ENTRIES
  {
    FirstClear(s, 0, ENTRIES)
  }

  lemma FirstFreeIsLowest(s: set<nat>)
    ensures var r := FirstFree(s);
            && (forall j :: 0 <= j < (if r == ERR_NO_MEM then ENTRIES else r) ==> j in s)
            && (r != ERR_NO_MEM ==> r !in s)
  {
    FirstClearIsLowest(s, 0, ENTRIES);
  }

  /** mm_page_alloc.  The termination measure says it retries at most once. */
  function PageAlloc(m: Pages): (r: PageResult)
    decreases if FirstFree(m.pt) == ERR_NO_MEM then 1 else 0
  {
    var d, p := FirstFree(m.pd), FirstFree(m.pt);
    if d != ERR_NO_MEM && p != ERR_NO_MEM then
      PageResult(m.(pt := m.pt + {p}), d * DIRECTORY + p * PAGE)
    else if d != ERR_NO_MEM then
      PageAlloc(Pages(m.pd + {d}, {}))
    else
      PageResult(m, ERR_NO_MEM)
  }

  /** A bitmap for the next directory is needed exactly when this directory is full and another is left. */
  predicate NeedsBitmap(m: Pages) {
    FirstFree(m.pd) != ERR_NO_MEM && FirstFree(m.pt) == ERR_NO_MEM
  }

  /** The boot allocator's next address after mm_page_alloc. */
  function HeapAfterAlloc(m: Pages, heap: int): (r: int) {
    if NeedsBitmap(m) then BootAlloc(heap, 128).heap else heap
  }

  function EntryOf(addr: nat): (r: nat) {
    (addr - addr % 0x400) / PAGE % ENTRIES
  }

  /** mm_page_free: clears a bit of the current directory's bitmap, whatever directory the page is in. */
  function PageFree(m: Pages, addr: nat): (r: Pages) {
    m.(pt := m.pt - {EntryOf(addr)})
  }

  // ----- what every run keeps

  /** The directories marked full are exactly the first d; d is the one in use. */
  ghost predicate Current(m: Pages, d: nat) {
    1 <= d <= ENTRIES && forall k: nat :: k in m.pd <==> k < d
  }

  function PageAddr(d: nat, j: nat): int {
    d * DIRECTORY + j * PAGE
  }

  /** `held` are the pages handed out and not given back; d is the directory in use. */
  ghost predicate Inv(m: Pages, d: nat, held: set<int>) {
    && Current(m, d)
    && (forall j :: j in m.pt ==> j < ENTRIES)
    && (forall a :: a in held ==> DIRECTORY <= a && a % PAGE == 0 && a / DIRECTORY <= d && a < WORD)
    && (forall j :: 0 <= j < ENTRIES ==> (j in m.pt <==> PageAddr(d, j) in held))
  }

  lemma CurrentIsFirstFree(m: Pages, d: nat)
    requires Current(m, d)
    ensures FirstFree(m.pd) == if d == ENTRIES then ERR_NO_MEM else d
  {
    FirstFreeIsLowest(m.pd);
    var r := FirstFree(m.pd);
    if r == ERR_NO_MEM {
      assert forall j :: 0 <= j < ENTRIES ==> j in m.pd;
      assert d < ENTRIES ==> d in m.pd;
    }
  }

  lemma EmptyHasRoom()
    ensures FirstFree({}) == 0
  {
  }

  lemma NextDirectory(m: Pages, d: nat, held: set<int>)
    requires Inv(m, d, held) && d < ENTRIES
    ensures Inv(Pages(m.pd + {d}, {}), d + 1, held)
  {
    var e := d + 1;
    forall j | 0 <= j < ENTRIES
      ensures PageAddr(e, j) !in held
    {
      assert PageAddr(e, j) / DIRECTORY == e;
    }
  }

  lemma TakePage(m: Pages, d: nat, held: set<int>, p: nat)
    requires Inv(m, d, held) && d < ENTRIES && p < ENTRIES && p !in m.pt
    ensures PageAddr(d, p) !in held && PageAddr(d, p) / DIRECTORY == d
    ensures Inv(m.(pt := m.pt + {p}), d, held + {PageAddr(d, p)})
  {
    PageInDirectory(d, p);
    forall j | 0 <= j < ENTRIES ensures PageAddr(d, j) == PageAddr(d, p) ==> j == p {
    }
  }

  lemma PageInDirectory(d: nat, p: nat)
    requires d < ENTRIES && p < ENTRIES
    ensures var a := PageAddr(d, p); a % PAGE == 0 && a / DIRECTORY == d && d * DIRECTORY <= a < WORD
  {
    assert PageAddr(d, p) == PAGE * (d * ENTRIES + p);
  }

  /** The directory in use after an allocation: the next one exactly when this one is full. */
  function NextCurrent(m: Pages, d: nat): nat {
    if FirstFree(m.pt) == ERR_NO_MEM && d < ENTRIES then d + 1 else d
  }

  /** a is the lowest page of directory d that is not held. */
  ghost predicate LowestFree(d: nat, held: set<int>, a: int) {
    && a !in held && DIRECTORY <= a < WORD && a % PAGE == 0 && a / DIRECTORY == d
    && forall j :: 0 <= j && PageAddr(d, j) < a ==> PageAddr(d, j) in held
  }

  lemma TakeLowest(m: Pages, d: nat, held: set<int>)
    requires Inv(m, d, held) && d < ENTRIES && FirstFree(m.pt) != ERR_NO_MEM
    ensures var a := PageAddr(d, FirstFree(m.pt));
            && PageAlloc(m) == PageResult(m.(pt := m.pt + {FirstFree(m.pt)}), a)
            && Inv(PageAlloc(m).pages, d, held + {a}) && LowestFree(d, held, a)
  {
    CurrentIsFirstFree(m, d);
    FirstFreeIsLowest(m.pt);
    TakePage(m, d, held, FirstFree(m.pt));
  }

  /**
   Every allocation returns the lowest free page of the directory in use, which is new,
   aligned and at or above 4 MB; it fails exactly when no directory is left.
   */
  lemma AllocStep(m: Pages, d: nat, held: set<int>)
    requires Inv(m, d, held)
    ensures var r, d' := PageAlloc(m), NextCurrent(m, d);
            && (r.addr == ERR_NO_MEM <==> d' == ENTRIES)
            && Inv(r.pages, d', if r.addr == ERR_NO_MEM then held else held + {r.addr})
            && (r.addr != ERR_NO_MEM ==> LowestFree(d', held, r.addr))
  {
    CurrentIsFirstFree(m, d);
    if d < ENTRIES {
      if FirstFree(m.pt) != ERR_NO_MEM {
        TakeLowest(m, d, held);
      } else {
        var m' := Pages(m.pd + {d}, {});
        NextDirectory(m, d, held);
        assert PageAlloc(m) == PageAlloc(m');
        EmptyHasRoom();
        if d + 1 < ENTRIES {
          TakeLowest(m', d + 1, held);
        } else {
          CurrentIsFirstFree(m', d + 1);
        }
      }
    }
  }

  lemma EntryOfPage(d: nat, j: nat)
    requires j < ENTRIES
    ensures EntryOf(PageAddr(d, j)) == j
  {
    var a := PageAddr(d, j);
    var n := d * ENTRIES + j;
    assert a == n * PAGE;
    PageMultiple(n);
    assert n % ENTRIES == j;
  }

  lemma PageMultiple(n: nat)
    ensures n * PAGE % 0x400 == 0 && n * PAGE / PAGE == n
  {
    assert n * PAGE == 0x400 * (4 * n);
  }

  lemma PageOfAddress(a: nat)
    requires a % PAGE == 0
    ensures a == PageAddr(a / DIRECTORY, EntryOf(a))
  {
    assert a % 0x400 == 0;
  }

  /**
   Giving a page back keeps the bitmaps in step exactly when the page belongs to the
   directory in use, or its bit there happens to be clear.
   */
  lemma FreeExact(m: Pages, d: nat, held: set<int>, a: nat)
    requires Inv(m, d, held) && a in held
    ensures Inv(PageFree(m, a), d, held - {a}) <==> a / DIRECTORY == d || EntryOf(a) !in m.pt
  {
    PageOfAddress(a);
    var j := EntryOf(a);
    EntryOfPage(d, j);
    var m' := PageFree(m, a);
    forall i | 0 <= i < ENTRIES
      ensures PageAddr(d, i) == a ==> i == j && a / DIRECTORY == d
    {
      EntryOfPage(d, i);
      assert PageAddr(d, i) / DIRECTORY == d;
    }
    if a / DIRECTORY != d && j in m.pt {
      assert PageAddr(d, j) in held - {a} && j !in m'.pt;
    }
  }

  // ----- runs

  datatype PageCall = AllocCall | FreeCall(addr: nat)

  datatype PageWorld = PageWorld(pages: Pages, held: set<int>)

  /** A caller gives back only what it holds. */
  predicate Holds(w: PageWorld, c: PageCall) {
    c.FreeCall? ==> c.addr in w.held
  }

  /** The page is of the directory in use, the lowest not marked full, or its bit there is clear. */
  predicate InStep(w: PageWorld, c: PageCall) {
    c.FreeCall? ==> c.addr / DIRECTORY == FirstFree(w.pages.pd) || EntryOf(c.addr) !in w.pages.pt
  }

  predicate LegalCall(w: PageWorld, c: PageCall) {
    Holds(w, c) && InStep(w, c)
  }

  function CallStep(w: PageWorld, c: PageCall): PageWorld {
    match c
    case AllocCall =>
      var r := PageAlloc(w.pages);
      PageWorld(r.pages, if r.addr == ERR_NO_MEM then w.held else w.held + {r.addr})
    case FreeCall(a) => PageWorld(PageFree(w.pages, a), w.held - {a})
  }

  predicate LegalCalls(w: PageWorld, calls: seq<PageCall>)
    decreases |calls|
  {
    calls == [] || (LegalCall(w, calls[0]) && LegalCalls(CallStep(w, calls[0]), calls[1..]))
  }

  function PageRun(w: PageWorld, calls: seq<PageCall>): PageWorld
    decreases |calls|
  {
    if calls == [] then w else PageRun(CallStep(w, calls[0]), calls[1..])
  }

  /** A call keeps the bitmaps in step with the pages held exactly when it is legal. */
  lemma CallExact(w: PageWorld, d: nat, c: PageCall)
    requires Inv(w.pages, d, w.held) && Holds(w, c)
    ensures (exists e :: Inv(CallStep(w, c).pages, e, CallStep(w, c).held)) <==> InStep(w, c)
    ensures InStep(w, c) ==> Inv(CallStep(w, c).pages, CurrentAfter(w, d, c), CallStep(w, c).held)
  {
    var w' := CallStep(w, c);
    match c {
      case AllocCall =>
        AllocStep(w.pages, d, w.held);
        assert Inv(w'.pages, CurrentAfter(w, d, c), w'.held);
      case FreeCall(a) =>
        CurrentIsFirstFree(w.pages, d);
        InOwnDirectory(w, d, a);
        FreeExact(w.pages, d, w.held, a);
        assert InStep(w, c) ==> Inv(w'.pages, d, w'.held);
        forall e | Inv(w'.pages, e, w'.held) ensures e == d {
          OneCurrent(w.pages, PageFree(w.pages, a), d, e);
        }
    }
  }

  function CurrentAfter(w: PageWorld, d: nat, c: PageCall): nat {
    if c.AllocCall? then NextCurrent(w.pages, d) else d
  }

  lemma InOwnDirectory(w: PageWorld, d: nat, a: int)
    requires Inv(w.pages, d, w.held) && a in w.held
    ensures 0 <= a / DIRECTORY < ENTRIES
  {
  }

  /** The full directories say which one is in use. */
  lemma OneCurrent(m: Pages, m': Pages, d: nat, e: nat)
    requires Current(m, d) && Current(m', e) && m.pd == m'.pd
    ensures d == e
  {
    assert d in m'.pd <==> d < e;
    assert e in m.pd <==> e < d;
  }

  lemma {:induction false} PageRunKeeps(w: PageWorld, d: nat, calls: seq<PageCall>) returns (d': nat)
    requires Inv(w.pages, d, w.held) && LegalCalls(w, calls)
    ensures Inv(PageRun(w, calls).pages, d', PageRun(w, calls).held) && d <= d'
    decreases |calls|
  {
    if calls == [] {
      d' := d;
    } else {
      CallExact(w, d, calls[0]);
      d' := PageRunKeeps(CallStep(w, calls[0]), CurrentAfter(w, d, calls[0]), calls[1..]);
    }
  }

  /** What k_mm_init sets up: directory 0 marked full, then the first page taken. */
  function BootPages(): PageWorld {
    CallStep(PageWorld(Pages({0}, {}), {}), AllocCall)
  }

  lemma BootPagesGood()
    ensures Inv(BootPages().pages, 1, BootPages().held)
  {
    var m := Pages({0}, {});
    forall k: nat ensures k in m.pd <==> k < 1 {
    }
    assert Inv(m, 1, {});
    EmptyHasRoom();
    AllocStep(m, 1, {});
  }

  /** Main result: in every legal run from boot the held pages are aligned, at or above 4 MB, and the full directories a prefix. */
  lemma EveryPageRunIsSafe(calls: seq<PageCall>)
    requires LegalCalls(BootPages(), calls)
    ensures var w := PageRun(BootPages(), calls);
            && (forall a :: a in w.held ==> DIRECTORY <= a < WORD && a % PAGE == 0)
            && exists d :: Current(w.pages, d)
  {
    BootPagesGood();
    var d := PageRunKeeps(BootPages(), 1, calls);
    assert Current(PageRun(BootPages(), calls).pages, d);
  }

  /** In any legal run, the page an allocation returns was not held: no page is handed out twice. */
  lemma AllocationIsNew(calls: seq<PageCall>)
    requires LegalCalls(BootPages(), calls)
    ensures var w := PageRun(BootPages(), calls); PageAlloc(w.pages).addr !in w.held
  {
    BootPagesGood();
    var d := PageRunKeeps(BootPages(), 1, calls);
    var w := PageRun(BootPages(), calls);
    AllocStep(w.pages, d, w.held);
  }

  /** A failing input: giving back a page of an older directory lets a held page be handed out again. */
  lemma StaleFreeDuplicates()
    ensures var m := Pages({0, 1}, {0});
            var held := {PageAddr(1, 0), PageAddr(2, 0)};
            && Inv(m, 2, held)
            && PageAlloc(PageFree(m, PageAddr(1, 0))).addr == PageAddr(2, 0)
  {
    var m := Pages({0, 1}, {0});
    assert Current(m, 2);
    EntryOfPage(1, 0);
    var m' := PageFree(m, PageAddr(1, 0));
    assert m' == Pages({0, 1}, {});
    CurrentIsFirstFree(m', 2);
    EmptyHasRoom();
  }
}

/** The same allocators with their words updated in place. */
module PhysImpl {
  import opened Common
  import opened Bits
  import opened Bitmaps
  import opened PhysSpec

  /** A bitmap of 1024 bits. */
  predicate IsPageBitmap(ws: seq<int>) {
    |ws| == 32 && IsBitmap(ws)
  }

  class PageAllocator {
    var pd: array<int>
    var pt: array<int>
    var heap: int

    ghost predicate Valid()
      reads this, pd, pt
    {
      pd != pt && IsPageBitmap(pd[..]) && IsPageBitmap(pt[..])
    }

    ghost function State(): Pages
      reads this, pd, pt
      requires Valid()
    {
      Pages(BitsOf(pd[..]), BitsOf(pt[..]))
    }

    /** mm_alloc. */
    method BootAllocate(n: nat) returns (addr: int)
      modifies this`heap
      ensures BootAlloc(old(heap), n) == BootResult(heap, addr)
    {
      if heap == 0 {
        return 0;
      }
      if Wrap(heap + 4 * n) < BOOT_LIMIT {
        addr := heap;
        if n >= 0x1000 {
          heap := Wrap(heap + 4 * (n - n % 0x1000));
        } else {
          heap := Wrap(heap + 4 * 0x1000);
        }
      } else {
        addr := 0;
      }
    }

    /** mm_bitmap_init: 128 bytes from the boot allocator, cleared. */
    method NewBitmap() returns (b: array<int>)
      modifies this`heap
      ensures fresh(b) && IsPageBitmap(b[..]) && BitsOf(b[..]) == {}
      ensures heap == BootAlloc(old(heap), 128).heap
    {
      var _ := BootAllocate(128);
      b := new int[32](_ => 0);
      EmptyBitmap(b[..]);
    }

    /** k_mm_init. */
    constructor (kernelEnd: nat)
      requires kernelEnd < WORD - 0x1000
      ensures Valid() && fresh(pd) && fresh(pt) && State() == BootPages().pages
    {
      heap := (kernelEnd + 0x1000) - (kernelEnd + 0x1000) % 0x1000;
      pd, pt := new int[32], new int[32];
      new;
      pd := NewBitmap();
      pt := NewBitmap();
      SetBit(pd, 0);
      assert State() == Pages({0}, {});
      var _ := AllocatePage();
    }

    method SetBit(b: array<int>, bit: nat)
      requires IsPageBitmap(b[..]) && bit < ENTRIES
      modifies b
      ensures IsPageBitmap(b[..]) && BitsOf(b[..]) == old(BitsOf(b[..])) + {bit}
    {
      SetBitOf(b[..], bit, Or(b[bit / 32], Shift1(bit % 32)));
      b[bit / 32] := Or(b[bit / 32], Shift1(bit % 32));
      assert b[..] == old(b[..])[bit / 32 := b[bit / 32]];
    }

    method ClearBit(b: array<int>, bit: nat)
      requires IsPageBitmap(b[..]) && bit < ENTRIES
      modifies b
      ensures IsPageBitmap(b[..]) && BitsOf(b[..]) == old(BitsOf(b[..])) - {bit}
    {
      ClearBitOf(b[..], bit, AndNot(b[bit / 32], Shift1(bit % 32)));
      b[bit / 32] := AndNot(b[bit / 32], Shift1(bit % 32));
      assert b[..] == old(b[..])[bit / 32 := b[bit / 32]];
    }

    /** mm_page_alloc on the current bitmaps; a full page bitmap is replaced and the call made again. */
    method AllocatePage() returns (addr: int)
      requires Valid()
      modifies this`pt, this`heap, pd, pt
      ensures Valid() && pd == old(pd) && (pt == old(pt) || fresh(pt))
      ensures PageAlloc(old(State())) == PageResult(State(), addr)
      ensures heap == HeapAfterAlloc(old(State()), old(heap))
      decreases if FirstFree(State().pt) == ERR_NO_MEM then 1 else 0
    {
      var d := FirstFreeBit(pd[..]);
      var p := FirstFreeBit(pt[..]);
      if d != ERR_NO_MEM && p != ERR_NO_MEM {
        addr := d * 0x1000 * 0x400 + p * 0x1000;
        SetBit(pt, p);
      } else if d != ERR_NO_MEM && p == ERR_NO_MEM {
        pt := NewBitmap();
        SetBit(pd, d);
        EmptyHasRoom();
        addr := AllocatePage();
      } else {
        addr := ERR_NO_MEM;
      }
    }

    /** mm_page_free on the current bitmaps. */
    method FreePage(addr: nat)
      requires Valid()
      modifies pt
      ensures Valid() && State() == PageFree(old(State()), addr)
    {
      var aligned := addr - addr % 0x400;
      ClearBit(pt, aligned / 0x1000 % 0x400);
    }
  }
}
