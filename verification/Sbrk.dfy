/**
 sbrk over the page tables: each page the break passes is looked up, and when the
 look-up answers zero a frame is taken and mapped there.

 The look-up of a page whose directory entry has no table reads low memory instead,
 so a page can be passed without being mapped.  `PassedExact` says when.
 */
module SbrkSpec {
  import opened Common
  import opened Bits
  import opened PagingSpec
  import P = PhysSpec
  import H = HeapSpec

  const ALL_PAGES: int := 0x10_0000

  /** The number of a virtual page. */
  type Page = p: int | 0 <= p < 0x10_0000

  /** Low memory with the page tables, and the bitmaps of the frames. */
  datatype Kernel = Kernel(mem: Memory, pages: P.Pages)

  function TakeFrame(k: Kernel): (r: Kernel) {
    Kernel(k.mem.(heap := P.HeapAfterAlloc(k.pages, k.mem.heap)), P.PageAlloc(k.pages).pages)
  }

  /** The table word for a fresh frame; k_page_alloc's -1 is all ones. */
  function FrameWord(k: Kernel): (r: nat) {
    Or(Wrap(P.PageAlloc(k.pages).addr), 3)
  }

  ghost predicate ReadyBody(k: Kernel, dir: int, key: nat) {
    WellFormed(k.mem, dir)
  }

  /** The page tables are well formed; opened by an instance. */
  ghost predicate Ready(k: Kernel, dir: int) {
    forall key: nat :: ReadyBody(k, dir, key)
  }

  /** One round of sbrk's loop, at virtual page vp. */
  function BackPage(k: Kernel, dir: int, vp: nat): (r: Kernel)
    requires Ready(k, dir) && vp < ALL_PAGES
  {
    assert ReadyBody(k, dir, 0);
    if VirtToPhys(k.mem, dir, vp) != 0 then k else
    var k1 := TakeFrame(k);
    TakeFrameKeeps(k, dir);
    k1.(mem := Map(k1.mem, dir, Wrap(P.PageAlloc(k.pages).addr), vp, 3))
  }

  /** The entry of vp has a table, or the look-up reads a zero and there is room for a table. */
  predicate Granted(k: Kernel, dir: int, vp: nat)
    requires Ready(k, dir) && vp < ALL_PAGES
  {
    assert ReadyBody(k, dir, 0);
    || TableAt(k.mem, dir, vp / ENTRIES) != 0
    || (k.mem.words[vp % ENTRIES] == 0 && P.BootAlloc(TakeFrame(k).mem.heap, 0x1000).addr != 0)
  }

  predicate Mapped(k: Kernel, dir: int, vp: nat)
    requires Ready(k, dir) && vp < ALL_PAGES
  {
    PageWord(k, dir, vp) != 0
  }

  /** What page vp maps to. */
  function PageWord(k: Kernel, dir: int, vp: nat): int
    requires Ready(k, dir) && vp < ALL_PAGES
  {
    assert ReadyBody(k, dir, 0);
    View(k.mem, dir, vp)
  }

  // ----- one page

  lemma TakeFrameKeeps(k: Kernel, dir: int)
    requires WellFormed(k.mem, dir)
    ensures WellFormed(TakeFrame(k).mem, dir) && TakeFrame(k).mem.words == k.mem.words
    ensures k.mem.heap <= TakeFrame(k).mem.heap
  {
    BitmapTaken(k.mem.heap);
    HeapRaised(k.mem, dir, TakeFrame(k).mem.heap);
  }

  lemma BitmapTaken(heap: int)
    requires P.BootOk(heap)
    ensures P.BootOk(P.BootAlloc(heap, 128).heap) && heap <= P.BootAlloc(heap, 128).heap
  {
    if P.BootAlloc(heap, 128).addr != 0 {
      P.BootAllocExact(heap, 128);
    }
  }

  lemma HeapRaised(m: Memory, dir: int, heap: int)
    requires WellFormed(m, dir) && P.BootOk(heap) && m.heap <= heap
    ensures WellFormed(m.(heap := heap), dir)
  {
    var m' := m.(heap := heap);
    assert forall i :: 0 <= i < ENTRIES ==> TableAt(m', dir, i) == TableAt(m, dir, i);
  }

  lemma SameWordsSameView(m: Memory, m': Memory, dir: int, q: nat)
    requires WellFormed(m, dir) && WellFormed(m', dir) && m.words == m'.words && q < ALL_PAGES
    ensures View(m', dir, q) == View(m, dir, q)
    ensures forall i :: 0 <= i < ENTRIES ==> TableAt(m', dir, i) == TableAt(m, dir, i)
  {
  }

  lemma BackKeepsWellFormed(k: Kernel, dir: int, vp: nat)
    requires WellFormed(k.mem, dir) && vp < ALL_PAGES
    ensures WellFormed(BackPage(k, dir, vp).mem, dir)
  {
    TakeFrameKeeps(k, dir);
    MapKeepsWellFormed(TakeFrame(k).mem, dir, Wrap(P.PageAlloc(k.pages).addr), vp, 3);
  }

  lemma FrameWordNonZero(k: Kernel)
    ensures FrameWord(k) != 0
  {
  }

  /** What a round does to page q, when it maps vp at all. */
  lemma BackView(k: Kernel, dir: int, vp: nat, q: nat)
    requires WellFormed(k.mem, dir) && vp < ALL_PAGES && q < ALL_PAGES
    requires VirtToPhys(k.mem, dir, vp) == 0
    ensures WellFormed(BackPage(k, dir, vp).mem, dir)
    ensures var m' := BackPage(k, dir, vp).mem;
            View(m', dir, q) ==
              if && TableFor(TakeFrame(k).mem, dir, vp / ENTRIES).1 != 0
                 && TableAt(m', dir, q / ENTRIES) == TableAt(m', dir, vp / ENTRIES) && q % ENTRIES == vp % ENTRIES
              then FrameWord(k) else View(k.mem, dir, q)
  {
    var k1 := TakeFrame(k);
    var frame := Wrap(P.PageAlloc(k.pages).addr);
    TakeFrameKeeps(k, dir);
    SameWordsSameView(k.mem, k1.mem, dir, q);
    if TableFor(k1.mem, dir, vp / ENTRIES).1 != 0 {
      MapView(k1.mem, dir, frame, vp, 3, q);
    } else {
      MapWithoutTable(k1.mem, dir, frame, vp, 3, q);
    }
  }

  /** Which tables a round leaves: only the entry of vp can change, from none to a new one. */
  lemma BackTables(k: Kernel, dir: int, vp: nat, i: nat)
    requires WellFormed(k.mem, dir) && vp < ALL_PAGES && i < ENTRIES
    ensures WellFormed(BackPage(k, dir, vp).mem, dir)
    ensures var t, t' := TableAt(k.mem, dir, i), TableAt(BackPage(k, dir, vp).mem, dir, i);
            && (t != 0 || i != vp / ENTRIES ==> t' == t)
            && (t == 0 && t' != 0 ==> t' >= k.mem.heap - KERNEL_VIRT)
  {
    BackKeepsWellFormed(k, dir, vp);
    if VirtToPhys(k.mem, dir, vp) == 0 {
      var k1 := TakeFrame(k);
      TakeFrameKeeps(k, dir);
      SameWordsSameView(k.mem, k1.mem, dir, vp);
      TableForInMemory(k1.mem, dir, vp / ENTRIES);
      MapTables(k1.mem, dir, Wrap(P.PageAlloc(k.pages).addr), vp, 3, i);
    }
  }

  /** A round leaves its page mapped exactly when it is granted, and never remaps a page that was mapped. */
  lemma BackPageExact(k: Kernel, dir: int, vp: nat)
    requires WellFormed(k.mem, dir) && vp < ALL_PAGES
    ensures WellFormed(BackPage(k, dir, vp).mem, dir)
    ensures Mapped(BackPage(k, dir, vp), dir, vp) <==> Granted(k, dir, vp)
    ensures Granted(k, dir, vp) && !Mapped(k, dir, vp) ==>
              View(BackPage(k, dir, vp).mem, dir, vp) == FrameWord(k)
    ensures !Granted(k, dir, vp) ==> TableAt(BackPage(k, dir, vp).mem, dir, vp / ENTRIES) == 0
  {
    BackKeepsWellFormed(k, dir, vp);
    VirtToPhysExact(k.mem, dir, vp);
    if VirtToPhys(k.mem, dir, vp) == 0 {
      var k1 := TakeFrame(k);
      TakeFrameKeeps(k, dir);
      SameWordsSameView(k.mem, k1.mem, dir, vp);
      TableForInMemory(k1.mem, dir, vp / ENTRIES);
      MapTables(k1.mem, dir, Wrap(P.PageAlloc(k.pages).addr), vp, 3, vp / ENTRIES);
      BackView(k, dir, vp, vp);
      FrameWordNonZero(k);
    }
  }

  lemma BackKeepsMapped(k: Kernel, dir: int, vp: nat, q: nat)
    requires WellFormed(k.mem, dir) && vp < ALL_PAGES && q < ALL_PAGES && Mapped(k, dir, q)
    ensures WellFormed(BackPage(k, dir, vp).mem, dir)
    ensures View(BackPage(k, dir, vp).mem, dir, q) == View(k.mem, dir, q)
  {
    BackKeepsWellFormed(k, dir, vp);
    if VirtToPhys(k.mem, dir, vp) == 0 {
      BackView(k, dir, vp, q);
      BackTables(k, dir, vp, q / ENTRIES);
      BackTables(k, dir, vp, vp / ENTRIES);
      VirtToPhysExact(k.mem, dir, vp);
    }
  }

  /** A page that is not mapped, and whose entry shares no table, is mapped by no other page's round. */
  lemma BackKeepsUnmapped(k: Kernel, dir: int, vp: nat, q: nat)
    requires WellFormed(k.mem, dir) && vp < ALL_PAGES && q < ALL_PAGES && q != vp
    requires !Mapped(k, dir, q) && Unshared(k.mem, dir, q / ENTRIES)
    ensures WellFormed(BackPage(k, dir, vp).mem, dir)
    ensures !Mapped(BackPage(k, dir, vp), dir, q)
    ensures Unshared(BackPage(k, dir, vp).mem, dir, q / ENTRIES)
  {
    BackKeepsWellFormed(k, dir, vp);
    BackKeepsUnshared(k, dir, vp, q / ENTRIES);
    if VirtToPhys(k.mem, dir, vp) == 0 {
      BackView(k, dir, vp, q);
      BackTables(k, dir, vp, vp / ENTRIES);
      if q / ENTRIES == vp / ENTRIES && q % ENTRIES == vp % ENTRIES {
        SamePage(q, vp);
      }
    }
  }

  lemma BackKeepsUnshared(k: Kernel, dir: int, vp: nat, i: nat)
    requires WellFormed(k.mem, dir) && vp < ALL_PAGES && i < ENTRIES && Unshared(k.mem, dir, i)
    ensures WellFormed(BackPage(k, dir, vp).mem, dir)
    ensures Unshared(BackPage(k, dir, vp).mem, dir, i)
  {
    BackKeepsWellFormed(k, dir, vp);
    BackTables(k, dir, vp, i);
    var m' := BackPage(k, dir, vp).mem;
    forall j | 0 <= j < ENTRIES && j != i && TableAt(m', dir, i) != 0
      ensures TableAt(m', dir, j) != TableAt(m', dir, i)
    {
      BackTables(k, dir, vp, j);
    }
  }

  // ----- the loop

  /** The j-th page from page vp up; addresses are 32-bit. */
  function PageNo(vp: Page, j: nat): (r: Page)
    requires j <= ALL_PAGES
  {
    if vp + j < ALL_PAGES then vp + j else vp + j - ALL_PAGES
  }

  lemma PagesDistinct(vp: Page, i: nat, j: nat)
    requires i < j < ALL_PAGES
    ensures PageNo(vp, i) != PageNo(vp, j)
  {
  }

  /** The first n rounds of sbrk's loop. */
  function BackPages(k: Kernel, dir: int, p: Page, n: nat): (r: Kernel)
    requires Ready(k, dir) && n <= ALL_PAGES
    ensures Ready(r, dir)
  {
    if n == 0 then k else
    var k1 := BackPages(k, dir, p, n - 1);
    assert ReadyBody(k1, dir, 0);
    BackKeepsWellFormed(k1, dir, PageNo(p, n - 1));
    BackPage(k1, dir, PageNo(p, n - 1))
  }

  ghost predicate RoundBody(k: Kernel, dir: int, vp: Page, r: Kernel, key: nat) {
    Ready(k, dir) && r == BackPage(k, dir, vp)
  }

  /** One round at page vp leads from k to r; opened by an instance. */
  ghost predicate Round(k: Kernel, dir: int, vp: Page, r: Kernel) {
    forall key: nat :: RoundBody(k, dir, vp, r, key)
  }

  ghost predicate HoldsWordBody(k: Kernel, dir: int, q: nat, word: int, key: nat) {
    q < ALL_PAGES && Ready(k, dir) && PageWord(k, dir, q) == word != 0
  }

  /** Page q maps to `word`; opened by an instance. */
  ghost predicate HoldsWord(k: Kernel, dir: int, q: nat, word: int) {
    forall key: nat :: HoldsWordBody(k, dir, q, word, key)
  }

  ghost predicate LostBody(k: Kernel, dir: int, q: nat, key: nat) {
    q < ALL_PAGES && WellFormed(k.mem, dir) && !Mapped(k, dir, q) && Unshared(k.mem, dir, q / ENTRIES)
  }

  /** Page q is not mapped, and its entry shares no table; opened by an instance. */
  ghost predicate Lost(k: Kernel, dir: int, q: nat) {
    forall key: nat :: LostBody(k, dir, q, key)
  }

  lemma HoldsStep(k: Kernel, dir: int, p: Page, i: nat, q: nat, word: int)
    requires Ready(k, dir) && i < ALL_PAGES && HoldsWord(BackPages(k, dir, p, i), dir, q, word)
    ensures HoldsWord(BackPages(k, dir, p, i + 1), dir, q, word)
  {
    assert HoldsWordBody(BackPages(k, dir, p, i), dir, q, word, 0);
    assert ReadyBody(BackPages(k, dir, p, i), dir, 0);
    BackKeepsMapped(BackPages(k, dir, p, i), dir, PageNo(p, i), q);
  }

  lemma LostStep(k: Kernel, dir: int, p: Page, j: nat, i: nat)
    requires Ready(k, dir) && j < i < ALL_PAGES
    requires Lost(BackPages(k, dir, p, i), dir, PageNo(p, j))
    ensures Lost(BackPages(k, dir, p, i + 1), dir, PageNo(p, j))
  {
    assert LostBody(BackPages(k, dir, p, i), dir, PageNo(p, j), 0);
    PagesDistinct(p, j, i);
    BackKeepsUnmapped(BackPages(k, dir, p, i), dir, PageNo(p, i), PageNo(p, j));
  }

  lemma {:induction false} PagesKeepMapped(k: Kernel, dir: int, p: Page, j: nat, n: nat, q: nat, word: int)
    requires Ready(k, dir) && j <= n <= ALL_PAGES && HoldsWord(BackPages(k, dir, p, j), dir, q, word)
    ensures HoldsWord(BackPages(k, dir, p, n), dir, q, word)
    decreases n
  {
    if j < n {
      PagesKeepMapped(k, dir, p, j, n - 1, q, word);
      HoldsStep(k, dir, p, n - 1, q, word);
    }
  }

  lemma {:induction false} PagesKeepLost(k: Kernel, dir: int, p: Page, j: nat, n: nat)
    requires Ready(k, dir) && j < n <= ALL_PAGES
    requires Lost(BackPages(k, dir, p, j + 1), dir, PageNo(p, j))
    ensures Lost(BackPages(k, dir, p, n), dir, PageNo(p, j))
    decreases n
  {
    if j + 1 < n {
      PagesKeepLost(k, dir, p, j, n - 1);
      LostStep(k, dir, p, j, n - 1);
    }
  }

  /**
   Main result: of the pages sbrk passes, the j-th ends up mapped exactly when its entry
   had a table by then, or the look-up read a zero and there was room for a table.
   */
  lemma PassedExact(k: Kernel, dir: int, p: Page, n: nat, j: nat)
    requires Ready(k, dir) && j < n <= ALL_PAGES
    ensures Mapped(BackPages(k, dir, p, n), dir, PageNo(p, j)) <==>
            Granted(BackPages(k, dir, p, j), dir, PageNo(p, j))
  {
    var q := PageNo(p, j);
    var word := RoundExact(k, dir, p, j);
    if Granted(BackPages(k, dir, p, j), dir, q) {
      MappedToTheEnd(k, dir, p, n, j, q, word);
    } else {
      LostToTheEnd(k, dir, p, n, j);
    }
  }

  lemma MappedToTheEnd(k: Kernel, dir: int, p: Page, n: nat, j: nat, q: Page, word: int)
    requires Ready(k, dir) && j < n <= ALL_PAGES && HoldsWord(BackPages(k, dir, p, j + 1), dir, q, word)
    ensures Mapped(BackPages(k, dir, p, n), dir, q)
  {
    PagesKeepMapped(k, dir, p, j + 1, n, q, word);
    MappedIfHolds(BackPages(k, dir, p, n), dir, q, word);
  }

  lemma LostToTheEnd(k: Kernel, dir: int, p: Page, n: nat, j: nat)
    requires Ready(k, dir) && j < n <= ALL_PAGES && Lost(BackPages(k, dir, p, j + 1), dir, PageNo(p, j))
    ensures !Mapped(BackPages(k, dir, p, n), dir, PageNo(p, j))
  {
    PagesKeepLost(k, dir, p, j, n);
    UnmappedIfLost(BackPages(k, dir, p, n), dir, PageNo(p, j));
  }

  lemma MappedIfHolds(k: Kernel, dir: int, q: Page, word: int)
    requires Ready(k, dir) && HoldsWord(k, dir, q, word)
    ensures PageWord(k, dir, q) == word != 0
  {
    assert HoldsWordBody(k, dir, q, word, 0);
  }

  lemma UnmappedIfLost(k: Kernel, dir: int, q: Page)
    requires Ready(k, dir) && Lost(k, dir, q)
    ensures !Mapped(k, dir, q)
  {
    assert LostBody(k, dir, q, 0);
  }

  lemma RoundExact(k: Kernel, dir: int, p: Page, j: nat) returns (word: int)
    requires Ready(k, dir) && j < ALL_PAGES
    ensures Granted(BackPages(k, dir, p, j), dir, PageNo(p, j)) ==>
              HoldsWord(BackPages(k, dir, p, j + 1), dir, PageNo(p, j), word)
    ensures !Granted(BackPages(k, dir, p, j), dir, PageNo(p, j)) ==>
              Lost(BackPages(k, dir, p, j + 1), dir, PageNo(p, j))
  {
    RoundOfLoop(k, dir, p, j);
    word := OneRoundExact(BackPages(k, dir, p, j), dir, PageNo(p, j), BackPages(k, dir, p, j + 1));
  }

  lemma RoundOfLoop(k: Kernel, dir: int, p: Page, j: nat)
    requires Ready(k, dir) && j < ALL_PAGES
    ensures Round(BackPages(k, dir, p, j), dir, PageNo(p, j), BackPages(k, dir, p, j + 1))
  {
  }

  lemma OneRoundExact(k: Kernel, dir: int, q: Page, r: Kernel) returns (word: int)
    requires Ready(k, dir) && Round(k, dir, q, r)
    ensures Granted(k, dir, q) ==> HoldsWord(r, dir, q, word)
    ensures !Granted(k, dir, q) ==> Lost(r, dir, q)
  {
    assert ReadyBody(k, dir, 0) && RoundBody(k, dir, q, r, 0);
    BackPageExact(k, dir, q);
    word := PageWord(r, dir, q);
  }
}

/** The pages under the heap, over whole runs of malloc, malloc_a, free and realloc. */
module SbrkRuns {
  import opened Common
  import opened Bits
  import opened HeapSpec
  import opened HeapProofs
  import opened HeapRuns
  import opened SbrkSpec
  import P = PhysSpec
  import V = PagingSpec

  const BOTTOM_PAGE: int := 0xC0300

  predicate GrantedAt(k: Kernel, dir: int, p: Page, j: nat)
    requires Ready(k, dir) && j < ALL_PAGES
  {
    Granted(BackPages(k, dir, p, j), dir, PageNo(p, j))
  }

  /** Each of the n pages from page p up is granted when its turn comes. */
  ghost predicate AllGranted(k: Kernel, dir: int, p: Page, n: nat)
    requires Ready(k, dir) && n <= ALL_PAGES
  {
    forall j :: 0 <= j < n ==> GrantedAt(k, dir, p, j)
  }

  /** Every page from the bottom of the heap up to page p is mapped. */
  ghost predicate Backed(k: Kernel, dir: int, p: nat)
    requires Ready(k, dir) && p <= ALL_PAGES
  {
    forall q :: BOTTOM_PAGE <= q < p ==> Mapped(k, dir, q)
  }

  lemma StaysMapped(k: Kernel, dir: int, p: Page, n: nat, q: Page)
    requires Ready(k, dir) && Mapped(k, dir, q) && n <= ALL_PAGES
    ensures PageWord(BackPages(k, dir, p, n), dir, q) == PageWord(k, dir, q)
  {
    var word := PageWord(k, dir, q);
    assert BackPages(k, dir, p, 0) == k;
    PagesKeepMapped(k, dir, p, 0, n, q, word);
    MappedIfHolds(BackPages(k, dir, p, n), dir, q, word);
  }

  lemma PassedAt(k: Kernel, dir: int, p: Page, n: nat, j: nat, q: Page)
    requires Ready(k, dir) && j < n <= ALL_PAGES && q == PageNo(p, j)
    ensures Mapped(BackPages(k, dir, p, n), dir, q) <==> GrantedAt(k, dir, p, j)
  {
    PassedExact(k, dir, p, n, j);
  }

  /** Moving the break up over n pages keeps the heap backed exactly when all of them are granted. */
  lemma BackedExact(k: Kernel, dir: int, p: Page, n: nat)
    requires Ready(k, dir) && BOTTOM_PAGE <= p && p + n <= ALL_PAGES && Backed(k, dir, p)
    ensures Backed(BackPages(k, dir, p, n), dir, p + n) <==> AllGranted(k, dir, p, n)
  {
    var k' := BackPages(k, dir, p, n);
    if AllGranted(k, dir, p, n) {
      forall q | BOTTOM_PAGE <= q < p + n
        ensures Mapped(k', dir, q)
      {
        BackedIfGranted(k, dir, p, n, q);
      }
    }
    if Backed(k', dir, p + n) {
      forall j | 0 <= j < n
        ensures GrantedAt(k, dir, p, j)
      {
        PassedAt(k, dir, p, n, j, p + j);
        assert Mapped(k', dir, p + j);
      }
    }
  }

  lemma BackedIfGranted(k: Kernel, dir: int, p: Page, n: nat, q: Page)
    requires Ready(k, dir) && BOTTOM_PAGE <= p && p + n <= ALL_PAGES
    requires Backed(k, dir, p) && AllGranted(k, dir, p, n) && BOTTOM_PAGE <= q < p + n
    ensures Mapped(BackPages(k, dir, p, n), dir, q)
  {
    if q < p {
      StaysMapped(k, dir, p, n, q);
    } else {
      assert GrantedAt(k, dir, p, q - p);
      PassedAt(k, dir, p, n, q - p, q);
    }
  }

  // ----- what can be told before the call

  ghost predicate HasTableBody(k: Kernel, dir: int, i: nat, key: nat) {
    V.WellFormed(k.mem, dir) && i < V.ENTRIES && V.TableAt(k.mem, dir, i) != 0
  }

  /** Directory entry i has a table; opened by an instance. */
  ghost predicate HasTable(k: Kernel, dir: int, i: nat) {
    forall key: nat :: HasTableBody(k, dir, i, key)
  }

  lemma TableStep(k: Kernel, dir: int, p: Page, j: nat, i: nat)
    requires Ready(k, dir) && j < ALL_PAGES && HasTable(BackPages(k, dir, p, j), dir, i)
    ensures HasTable(BackPages(k, dir, p, j + 1), dir, i)
  {
    assert HasTableBody(BackPages(k, dir, p, j), dir, i, 0);
    BackTables(BackPages(k, dir, p, j), dir, PageNo(p, j), i);
  }

  lemma {:induction false} TableStays(k: Kernel, dir: int, p: Page, j: nat, n: nat, i: nat)
    requires Ready(k, dir) && j <= n <= ALL_PAGES && HasTable(BackPages(k, dir, p, j), dir, i)
    ensures HasTable(BackPages(k, dir, p, n), dir, i)
    decreases n
  {
    if j < n {
      TableStays(k, dir, p, j, n - 1, i);
      TableStep(k, dir, p, n - 1, i);
    }
  }

  lemma GrantedWithTable(k: Kernel, dir: int, p: Page, j: nat, i: nat)
    requires Ready(k, dir) && j < ALL_PAGES && i == PageNo(p, j) / V.ENTRIES
    requires HasTable(BackPages(k, dir, p, j), dir, i)
    ensures GrantedAt(k, dir, p, j)
  {
    assert HasTableBody(BackPages(k, dir, p, j), dir, i, 0);
  }

  lemma FirstRound(k: Kernel, dir: int, p: Page)
    requires Ready(k, dir)
    ensures GrantedAt(k, dir, p, 0) <==> Granted(k, dir, p)
    ensures Granted(k, dir, p) ==> HasTable(BackPages(k, dir, p, 1), dir, p / V.ENTRIES)
  {
    assert BackPages(k, dir, p, 0) == k && PageNo(p, 0) == p;
    assert ReadyBody(k, dir, 0);
    BackPageExact(k, dir, p);
    assert BackPages(k, dir, p, 1) == BackPage(k, dir, p);
  }

  /** For pages of one directory entry, the first decides for all of them. */
  lemma FirstPageDecides(k: Kernel, dir: int, p: Page, n: nat)
    requires Ready(k, dir) && n > 0 && p + n <= (p / V.ENTRIES + 1) * V.ENTRIES
    ensures n <= ALL_PAGES && (AllGranted(k, dir, p, n) <==> Granted(k, dir, p))
  {
    FirstRound(k, dir, p);
    if Granted(k, dir, p) {
      forall j | 1 <= j < n
        ensures GrantedAt(k, dir, p, j)
      {
        SameEntry(p, n, j);
        TableStays(k, dir, p, 1, j, p / V.ENTRIES);
        GrantedWithTable(k, dir, p, j, p / V.ENTRIES);
      }
    }
    if AllGranted(k, dir, p, n) {
      assert GrantedAt(k, dir, p, 0);
    }
  }

  lemma SameEntry(p: Page, n: nat, j: nat)
    requires j < n && p + n <= (p / V.ENTRIES + 1) * V.ENTRIES
    ensures n <= ALL_PAGES && PageNo(p, j) / V.ENTRIES == p / V.ENTRIES
  {
  }

  // ----- runs

  /** Number of pages from page p up to page q; addresses are 32-bit. */
  function PageGap(p: Page, q: Page): (n: nat)
    ensures n < ALL_PAGES && PageNo(p, n) == q
  {
    if p <= q then q - p else q - p + ALL_PAGES
  }

  /** The page a break is on. */
  function BreakPage(top: int): Page {
    Wrap(top) / PAGE
  }

  /** The kernel after a call that moved the break from top to top'. */
  function KernelAfter(k: Kernel, dir: int, top: int, top': int): (r: Kernel)
    requires Ready(k, dir)
    ensures Ready(r, dir)
  {
    BackPages(k, dir, BreakPage(top), PageGap(BreakPage(top), BreakPage(top')))
  }

  ghost predicate MovedBody(k: Kernel, dir: int, top: int, top': int, r: Kernel, key: nat) {
    Ready(k, dir) && r == KernelAfter(k, dir, top, top')
  }

  /** r is the kernel after the break moved from top to top'; opened by an instance. */
  ghost predicate Moved(k: Kernel, dir: int, top: int, top': int, r: Kernel) {
    forall key: nat :: MovedBody(k, dir, top, top', r, key)
  }

  lemma NotMoved(k: Kernel, dir: int, top: int)
    requires Ready(k, dir)
    ensures Moved(k, dir, top, top, k)
  {
  }

  lemma MovedBySbrk(k: Kernel, dir: int, top: int, m: nat, r: Kernel)
    requires Ready(k, dir) && 0 <= top < WORD && m < WORD && !SbrkRefuses(top, m)
    requires Pages(m) < ALL_PAGES && Reaches(k, dir, BreakPage(top), Pages(m), r)
    ensures Moved(k, dir, top, Sbrk(top, m), r)
  {
    SbrkPasses(top, m);
    Arrived(k, dir, BreakPage(top), Pages(m), r);
  }

  /** sbrk's loop runs over exactly the pages between the two breaks. */
  lemma SbrkPasses(top: int, m: nat)
    requires 0 <= top < WORD && m < WORD
    ensures PageGap(BreakPage(top), BreakPage(Sbrk(top, m))) == if SbrkRefuses(top, m) then 0 else Pages(m)
  {
    if !SbrkRefuses(top, m) {
      RoundOf(top, Pages(m));
    }
  }

  /** After n rounds the break is n pages further up. */
  lemma RoundOf(top: int, n: nat)
    requires 0 <= top < WORD && n <= ALL_PAGES
    ensures BreakPage(Wrap(top + n * PAGE)) == PageNo(BreakPage(top), n)
  {
    assert (top + n * PAGE) / PAGE == top / PAGE + n;
    if top / PAGE + n < ALL_PAGES {
      WrapSmall(top + n * PAGE);
    } else {
      WrapOver(top + n * PAGE);
      assert (top + n * PAGE - WORD) / PAGE == top / PAGE + n - ALL_PAGES;
    }
  }

  function RunKernel(k: Kernel, dir: int, w: World, calls: seq<Call>): (r: Kernel)
    requires Ready(k, dir) && Good(w) && LegalRun(w, calls)
    ensures Ready(r, dir)
    decreases |calls|
  {
    if calls == [] then k else
    StepKeepsGood(w, calls[0]);
    var w1 := Step(w, calls[0]);
    RunKernel(KernelAfter(k, dir, w.heap.top, w1.heap.top), dir, w1, calls[1..])
  }

  lemma GrowMovesUp(h: HeapState, n: nat)
    requires Inv(h) && n < WORD
    ensures Inv(Grow(h, n).heap) ==> h.top <= Grow(h, n).heap.top
    ensures Inv(GrowAligned(h, n).heap) ==> h.top <= GrowAligned(h, n).heap.top
  {
  }

  /** Inside the limits of the heap the break only moves up. */
  lemma BreakMovesUp(w: World, c: Call)
    requires Good(w) && Legal(w, c) && HasRoom(w, c)
    requires c.CallFree? || c.CallRealloc? ==> |w.heap.blocks| > 0
    requires Good(Step(w, c))
    ensures BreakPage(w.heap.top) <= BreakPage(Step(w, c).heap.top)
  {
    assert w.heap.top <= Step(w, c).heap.top by {
      match c {
        case CallMalloc(n) => GrowMovesUp(w.heap, n);
        case CallMallocA(n) =>
          if !(NeedsPad(w.heap) && TableFull(w.heap)) {
            PadKeepsInv(w.heap);
            GrowMovesUp(Pad(w.heap), n);
          }
        case CallFree(_) =>
        case CallRealloc(ptr, n) => ReallocMovesUp(w, ptr, n);
      }
    }
    BreakPageMonotone(w.heap.top, Step(w, c).heap.top);
  }

  lemma ReallocMovesUp(w: World, ptr: int, n: nat)
    requires Good(w) && n < WORD && |w.heap.blocks| > 0 && (Extends(w.heap, n) ==> Room(w.heap, n))
    ensures w.heap.top <= Realloc(w.heap, ptr, n).heap.top
  {
    MallocExact(w.heap, n);
    GrowMovesUp(w.heap, n);
  }

  lemma BreakPageMonotone(a: int, b: int)
    requires 0 <= a <= b < WORD
    ensures BreakPage(a) <= BreakPage(b)
  {
  }

  ghost predicate ReachesBody(k: Kernel, dir: int, p: Page, n: nat, r: Kernel, key: nat) {
    Ready(k, dir) && n <= ALL_PAGES && r == BackPages(k, dir, p, n)
  }

  /** n rounds from page p on lead from k to r; opened by an instance. */
  ghost predicate Reaches(k: Kernel, dir: int, p: Page, n: nat, r: Kernel) {
    forall key: nat :: ReachesBody(k, dir, p, n, r, key)
  }

  lemma LastRound(k: Kernel, dir: int, p: Page, n: nat, r: Kernel) returns (before: Kernel)
    requires 0 < n <= ALL_PAGES && Reaches(k, dir, p, n, r)
    ensures Reaches(k, dir, p, n - 1, before) && Round(before, dir, PageNo(p, n - 1), r)
  {
    assert ReachesBody(k, dir, p, n, r, 0);
    before := BackPages(k, dir, p, n - 1);
  }

  lemma OneMore(k: Kernel, dir: int, p: Page, n: nat, before: Kernel, r: Kernel)
    requires n < ALL_PAGES && Reaches(k, dir, p, n, before) && Round(before, dir, PageNo(p, n), r)
    ensures Reaches(k, dir, p, n + 1, r)
  {
    assert ReachesBody(k, dir, p, n, before, 0);
    assert RoundBody(before, dir, PageNo(p, n), r, 0);
  }

  lemma NoRoundYet(k: Kernel, dir: int, p: Page)
    requires Ready(k, dir)
    ensures Reaches(k, dir, p, 0, k)
  {
  }

  lemma Arrived(k: Kernel, dir: int, p: Page, n: nat, r: Kernel)
    requires Ready(k, dir) && n <= ALL_PAGES && Reaches(k, dir, p, n, r)
    ensures r == BackPages(k, dir, p, n)
  {
    assert ReachesBody(k, dir, p, n, r, 0);
  }

  lemma NoRound(k: Kernel, dir: int, p: Page, r: Kernel)
    requires Reaches(k, dir, p, 0, r)
    ensures r == k
  {
    assert ReachesBody(k, dir, p, 0, r, 0);
  }

  /** What a round does when the break is i pages above `from`. */
  lemma RoundAt(k: Kernel, dir: int, from: int, i: nat, top: int, before: Kernel, r: Kernel)
    requires 0 <= from < WORD && i < ALL_PAGES && top == Wrap(from + i * PAGE)
    requires Reaches(k, dir, BreakPage(from), i, before)
    requires Ready(before, dir) && r == BackPage(before, dir, top / PAGE)
    ensures Reaches(k, dir, BreakPage(from), i + 1, r)
  {
    assert top / PAGE == PageNo(BreakPage(from), i) by {
      RoundOf(from, i);
    }
    RoundOn(before, dir, top / PAGE, r);
    OneMore(k, dir, BreakPage(from), i, before, r);
  }

  lemma RoundOn(k: Kernel, dir: int, vp: Page, r: Kernel)
    requires Ready(k, dir) && r == BackPage(k, dir, vp)
    ensures Round(k, dir, vp, r)
  {
  }

  lemma {:induction false} Compose(k: Kernel, dir: int, p: Page, a: nat, k1: Kernel, b: nat, k2: Kernel)
    requires a + b <= ALL_PAGES && Reaches(k, dir, p, a, k1) && Reaches(k1, dir, PageNo(p, a), b, k2)
    ensures Reaches(k, dir, p, a + b, k2)
    decreases b
  {
    if b == 0 {
      NoRound(k1, dir, PageNo(p, a), k2);
    } else {
      var before := LastRound(k1, dir, PageNo(p, a), b, k2);
      Compose(k, dir, p, a, k1, b - 1, before);
      assert PageNo(PageNo(p, a), b - 1) == PageNo(p, a + b - 1);
      OneMore(k, dir, p, a + b - 1, before, k2);
    }
  }

  lemma MovesAddUp(k: Kernel, dir: int, p: Page, q: Page, r: Page)
    requires Ready(k, dir) && p <= q <= r
    ensures BackPages(BackPages(k, dir, p, PageGap(p, q)), dir, q, PageGap(q, r)) == BackPages(k, dir, p, PageGap(p, r))
  {
    var k1 := BackPages(k, dir, p, PageGap(p, q));
    var k2 := BackPages(k1, dir, q, PageGap(q, r));
    Compose(k, dir, p, PageGap(p, q), k1, PageGap(q, r), k2);
    assert ReachesBody(k, dir, p, PageGap(p, r), k2, 0);
  }

  /** All a run does to the page tables is what one long move of the break would do. */
  lemma {:induction false} RunIsOneMove(k: Kernel, dir: int, w: World, calls: seq<Call>)
    requires Ready(k, dir) && Good(w) && LegalRun(w, calls)
    ensures BreakPage(w.heap.top) <= BreakPage(Run(w, calls).heap.top)
    ensures RunKernel(k, dir, w, calls) == KernelAfter(k, dir, w.heap.top, Run(w, calls).heap.top)
    decreases |calls|
  {
    if calls != [] {
      StepKeepsGood(w, calls[0]);
      var w1 := Step(w, calls[0]);
      BreakMovesUp(w, calls[0]);
      RunIsOneMove(KernelAfter(k, dir, w.heap.top, w1.heap.top), dir, w1, calls[1..]);
      MovesAddUp(k, dir, BreakPage(w.heap.top), BreakPage(w1.heap.top), BreakPage(Run(w1, calls[1..]).heap.top));
    }
  }

  lemma BootIsGood()
    ensures Good(Boot()) && BreakPage(Boot().heap.top) == BOOT_PAGE
  {
  }

  /** The break after k_heap_init. */
  const BOOT_PAGE: Page := 0xC0310

  /**
   Main result: after any run from boot the heap is mapped up to its break exactly when
   each page the break passed was granted when its turn came.
   */
  lemma EveryRunBackedExact(k: Kernel, dir: int, calls: seq<Call>)
    requires LegalRun(Boot(), calls) && Ready(k, dir) && Backed(k, dir, BOOT_PAGE)
    ensures Good(Boot())
    ensures var p := BreakPage(Run(Boot(), calls).heap.top);
            && BOOT_PAGE <= p
            && (Backed(RunKernel(k, dir, Boot(), calls), dir, p) <==> AllGranted(k, dir, BOOT_PAGE, p - BOOT_PAGE))
  {
    BootIsGood();
    RunFromBoot(k, dir, Boot(), calls);
  }

  lemma RunFromBoot(k: Kernel, dir: int, w: World, calls: seq<Call>)
    requires Good(w) && LegalRun(w, calls) && Ready(k, dir)
    requires BOTTOM_PAGE <= BreakPage(w.heap.top) && Backed(k, dir, BreakPage(w.heap.top))
    ensures var p, q := BreakPage(w.heap.top), BreakPage(Run(w, calls).heap.top);
            && p <= q
            && (Backed(RunKernel(k, dir, w, calls), dir, q) <==> AllGranted(k, dir, p, q - p))
  {
    RunIsOneMove(k, dir, w, calls);
    BackedAfter(k, dir, w.heap.top, Run(w, calls).heap.top);
  }

  lemma BackedAfter(k: Kernel, dir: int, top: int, top': int)
    requires Ready(k, dir) && BOTTOM_PAGE <= BreakPage(top) <= BreakPage(top') && Backed(k, dir, BreakPage(top))
    ensures Backed(KernelAfter(k, dir, top, top'), dir, BreakPage(top')) <==>
            AllGranted(k, dir, BreakPage(top), BreakPage(top') - BreakPage(top))
  {
    BackedBetween(k, dir, BreakPage(top), BreakPage(top'), KernelAfter(k, dir, top, top'));
  }

  lemma BackedBetween(k: Kernel, dir: int, p: Page, q: Page, r: Kernel)
    requires Ready(k, dir) && BOTTOM_PAGE <= p <= q && Backed(k, dir, p) && Ready(r, dir)
    requires r == BackPages(k, dir, p, PageGap(p, q))
    ensures Backed(r, dir, q) <==> AllGranted(k, dir, p, q - p)
  {
    BackedExact(k, dir, p, q - p);
  }

  // ----- the boot directory

  /** The first page that the boot directory's table does not map. */
  const PAST_BOOT: Page := 0xC0400

  /** The directory start.s sets up maps the heap up to 0xC0400000. */
  lemma BootBacked(k: Kernel, dir: int, pt: int)
    requires V.WellFormed(k.mem, dir) && V.PageAligned(pt) && pt != dir && V.BootDirectory(k.mem, dir, pt)
    requires pt + V.PAGE <= k.mem.heap - V.KERNEL_VIRT
    ensures Ready(k, dir) && Backed(k, dir, PAST_BOOT)
  {
    V.BootDirectoryView(k.mem, dir, pt);
  }

  /** And it stays mapped there, whatever the run. */
  lemma RunKeepsBacked(k: Kernel, dir: int, w: World, calls: seq<Call>, p: Page)
    requires Good(w) && LegalRun(w, calls) && Ready(k, dir) && Backed(k, dir, p)
    ensures Backed(RunKernel(k, dir, w, calls), dir, p)
  {
    RunIsOneMove(k, dir, w, calls);
    var n := PageGap(BreakPage(w.heap.top), BreakPage(Run(w, calls).heap.top));
    forall q | BOTTOM_PAGE <= q < p
      ensures Mapped(RunKernel(k, dir, w, calls), dir, q)
    {
      StaysMapped(k, dir, BreakPage(w.heap.top), n, q);
    }
  }

  /**
   The first page past it shows the failure: the break moves over it, and it ends up
   mapped exactly when the first word of memory is zero.
   */
  lemma FirstPagePastBoot(low: nat, pages: P.Pages)
    requires low < WORD
    ensures var k := Kernel(V.BootMemory(low), pages);
            && Sbrk(PAST_BOOT * PAGE, 0x1000) == PAST_BOOT * PAGE + PAGE
            && Ready(k, V.BOOT_DIRECTORY) && Backed(k, V.BOOT_DIRECTORY, PAST_BOOT)
            && (Mapped(BackPages(k, V.BOOT_DIRECTORY, PAST_BOOT, 1), V.BOOT_DIRECTORY, PAST_BOOT) <==> low == 0)
  {
    var k := Kernel(V.BootMemory(low), pages);
    V.BootMemoryIsSound(low);
    BootBacked(k, V.BOOT_DIRECTORY, V.BOOT_TABLE);
    PassedAt(k, V.BOOT_DIRECTORY, PAST_BOOT, 1, 0, PAST_BOOT);
    FirstRound(k, V.BOOT_DIRECTORY, PAST_BOOT);
    GrantedPastBoot(k, low);
  }

  lemma GrantedPastBoot(k: Kernel, low: nat)
    requires low < WORD && k.mem == V.BootMemory(low) && Ready(k, V.BOOT_DIRECTORY)
    ensures Granted(k, V.BOOT_DIRECTORY, PAST_BOOT) <==> low == 0
  {
    V.TablePartOfPage(0, 0);
    assert k.mem.words[0] == low;
  }
}

/** One round of sbrk's loop on the page tables and bitmaps themselves. */
module SbrkImpl {
  import opened Common
  import opened Bits
  import opened PagingSpec
  import opened PagingImpl
  import opened SbrkSpec
  import P = PhysSpec

  class KernelPages {
    const tables: PageTables
    const dir: int

    ghost predicate Valid()
      reads tables, tables.mem, tables.mm, tables.mm.pd, tables.mm.pt
    {
      && tables.mm.Valid() && tables.mem != tables.mm.pd && tables.mem != tables.mm.pt
      && Ready(Kernel(tables.State(), tables.mm.State()), dir)
    }

    ghost function State(): (k: Kernel)
      reads tables, tables.mem, tables.mm, tables.mm.pd, tables.mm.pt
      requires Valid()
      ensures Ready(k, dir)
    {
      Kernel(tables.State(), tables.mm.State())
    }

    constructor (t: PageTables, d: int)
      ensures tables == t && dir == d
    {
      tables, dir := t, d;
    }

    /** Looks the page up and maps a new frame there when the answer is zero. */
    method Back(virt: nat)
      requires Valid() && virt < WORD
      modifies tables.mem, tables.mm, tables.mm.pd, tables.mm.pt
      ensures Valid() && tables.mm.pd == old(tables.mm.pd)
      ensures tables.mm.pt == old(tables.mm.pt) || fresh(tables.mm.pt)
      ensures State() == BackPage(old(State()), dir, virt / 0x1000)
    {
      ghost var k := State();
      assert ReadyBody(k, dir, 0);
      var entry := tables.Translate(dir, virt);
      if entry == 0 {
        TakeFrameKeeps(k, dir);
        var phys := tables.mm.AllocatePage();
        assert tables.State() == TakeFrame(k).mem && tables.mm.State() == TakeFrame(k).pages;
        tables.MapPage(dir, Wrap(phys), virt, 3);
        BackKeepsWellFormed(k, dir, virt / 0x1000);
      }
    }
  }
}
