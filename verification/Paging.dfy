/**
 Two-level page tables in the low 4 MB of physical memory, which the kernel reaches
 both at its own address and at 3 GB above it (Intel SDM Volume 3A, section 4.3).

 A directory entry holds a table's address in its upper bits; the code masks off
 the low ten bits only.
 */
module PagingSpec {
  import opened Common
  import opened Bits
  import P = PhysSpec

  const LOW: int := 0x40_0000
  const LOW_WORDS: int := 0x10_0000
  const KERNEL_VIRT: int := 0xC000_0000
  const PAGE: int := 0x1000
  const ENTRIES: int := 1024
  // Where the boot allocator stops and the kernel heap begins.
  const BOOT_WORDS: int := 0xC_0000

  /** Low memory word by word, and the boot allocator's next address. */
  datatype Memory = Memory(words: seq<int>, heap: int)

  function P2V(x: int): int {
    if x <= KERNEL_VIRT then x + KERNEL_VIRT else x
  }

  function V2P(x: int): int {
    if x >= KERNEL_VIRT then x - KERNEL_VIRT else x
  }

  /** x & ~0x3FF */
  function TablePart(x: int): (r: int)
    ensures r % 0x400 == 0 && r <= x < r + 0x400
  {
    x - x % 0x400
  }

  predicate Sized(m: Memory) {
    |m.words| == LOW_WORDS && forall i :: 0 <= i < LOW_WORDS ==> 0 <= m.words[i] < WORD
  }

  predicate PageAligned(a: int) {
    a % PAGE == 0 && 0 < a && a + PAGE <= LOW
  }

  function Pde(m: Memory, dir: int, i: nat): (r: int)
    requires Sized(m) && PageAligned(dir) && i < ENTRIES
    ensures 0 <= r < WORD
  {
    m.words[dir / 4 + i]
  }

  function TableAt(m: Memory, dir: int, i: nat): (r: int)
    requires Sized(m) && PageAligned(dir) && i < ENTRIES
  {
    TablePart(Pde(m, dir, i))
  }

  /**
   The directory and its tables are whole pages below the boot allocator's next address,
   and no table is the directory; from there to the heap memory is still zero.  Two directory
   entries may share a table, as entries 0 and 768 of the boot directory do.
   */
  ghost predicate WellFormed(m: Memory, dir: int) {
    && Sized(m) && P.BootOk(m.heap) && PageAligned(dir) && dir + PAGE <= m.heap - KERNEL_VIRT
    && (forall i :: 0 <= i < ENTRIES && TableAt(m, dir, i) != 0 ==>
          var t := TableAt(m, dir, i);
          PageAligned(t) && t != dir && t + PAGE <= m.heap - KERNEL_VIRT)
    && (forall k :: (m.heap - KERNEL_VIRT) / 4 <= k < BOOT_WORDS ==> m.words[k] == 0)
  }

  /** What virtual page vp maps to: the table word, or 0 when there is no table. */
  function View(m: Memory, dir: int, vp: nat): (r: int)
    requires WellFormed(m, dir) && vp < ENTRIES * ENTRIES
  {
    var t := TableAt(m, dir, vp / ENTRIES);
    if t == 0 then 0 else m.words[t / 4 + vp % ENTRIES]
  }

  function Write(m: Memory, phys: int, v: int): (r: Memory)
    requires |m.words| == LOW_WORDS && 0 <= phys / 4 < LOW_WORDS
  {
    m.(words := m.words[phys / 4 := v])
  }

  // ----- _paging_map, _paging_unmap, _virt_to_phys

  /** The table _paging_map writes to: the entry's own, or a new one from mm_alloc (0 when that fails). */
  function TableFor(m: Memory, dir: int, i: nat): (r: (Memory, int))
    requires Sized(m) && PageAligned(dir) && i < ENTRIES
  {
    var t := TableAt(m, dir, i);
    if t != 0 then (m, P2V(t)) else
    var b := P.BootAlloc(m.heap, 0x1000);
    (m.(heap := b.heap), b.addr)
  }

  function Map(m: Memory, dir: int, phys: nat, vp: nat, flags: nat): (r: Memory)
    requires WellFormed(m, dir) && vp < ENTRIES * ENTRIES
  {
    var (m1, pt) := TableFor(m, dir, vp / ENTRIES);
    TableForInMemory(m, dir, vp / ENTRIES);
    var m2 := Write(m1, V2P(pt) + 4 * (vp % ENTRIES), Or(phys, flags));
    Write(m2, dir + 4 * (vp / ENTRIES), Or(V2P(pt), flags))
  }

  function Unmap(m: Memory, dir: int, vp: nat): (r: Memory)
    requires WellFormed(m, dir) && vp < ENTRIES * ENTRIES
  {
    var t := TableAt(m, dir, vp / ENTRIES);
    if t == 0 then m else Write(m, t + 4 * (vp % ENTRIES), 0)
  }

  /** _virt_to_phys: its test for a missing table never fires, so it then reads low memory. */
  function VirtToPhys(m: Memory, dir: int, vp: nat): (r: int)
    requires WellFormed(m, dir) && vp < ENTRIES * ENTRIES
  {
    var pt := P2V(TableAt(m, dir, vp / ENTRIES));
    m.words[V2P(pt) / 4 + vp % ENTRIES]
  }

  // ----- proofs

  lemma TableForInMemory(m: Memory, dir: int, i: nat)
    requires WellFormed(m, dir) && i < ENTRIES
    ensures var t := V2P(TableFor(m, dir, i).1);
            && (t == 0 || PageAligned(t)) && t % PAGE == 0 && 0 <= t && t + PAGE <= LOW
            && (TableAt(m, dir, i) != 0 ==> t == TableAt(m, dir, i))
            && t != dir
            && (TableAt(m, dir, i) == 0 && t != 0 ==> t == m.heap - KERNEL_VIRT)
            && (t == 0 <==> TableFor(m, dir, i).1 == 0)
            && P.BootOk(TableFor(m, dir, i).0.heap) && m.heap <= TableFor(m, dir, i).0.heap
            && (t != 0 ==> t + PAGE <= TableFor(m, dir, i).0.heap - KERNEL_VIRT)
  {
    TableTaken(m.heap);
  }

  /** A page for a table, if there is room for it. */
  lemma TableTaken(heap: int)
    requires P.BootOk(heap)
    ensures var b := P.BootAlloc(heap, 0x1000);
            && P.BootOk(b.heap)
            && if b.addr == 0 then b.heap == heap
               else b.addr == heap && heap + PAGE <= b.heap && heap - KERNEL_VIRT + PAGE <= BOOT_WORDS * 4
  {
    if P.BootAlloc(heap, 0x1000).addr != 0 {
      P.BootAllocExact(heap, 0x1000);
    }
  }

  /** _virt_to_phys answers with the mapping exactly when there is a table, or low memory happens to be zero there. */
  lemma VirtToPhysExact(m: Memory, dir: int, vp: nat)
    requires WellFormed(m, dir) && vp < ENTRIES * ENTRIES
    ensures VirtToPhys(m, dir, vp) == View(m, dir, vp) <==>
            TableAt(m, dir, vp / ENTRIES) != 0 || m.words[vp % ENTRIES] == 0
  {
  }

  lemma OrPage(a: nat, f: nat)
    requires a % PAGE == 0 && f < 0x400
    ensures Or(a, f) == a + f
  {
    Shift1Of32();
    PageInTableUnits(a);
    ShiftedBy10(a / 0x400, Shift1(10), a);
    OrOfDisjoint(a / 0x400, f, 10);
  }

  lemma OrOfWords(a: nat, b: nat)
    requires a < WORD && b < WORD
    ensures Or(a, b) < WORD
  {
    Shift1Of32();
    Bounded(a, b, 32);
  }

  lemma PageInTableUnits(a: nat)
    requires a % PAGE == 0
    ensures a == 0x400 * (a / 0x400)
  {
    assert a == PAGE * (a / PAGE);
    FourUnits(a / PAGE);
  }

  lemma FourUnits(k: nat)
    ensures PAGE * k / 0x400 == 4 * k
  {
  }

  lemma ShiftedBy10(k: nat, s: nat, a: nat)
    requires s == 0x400 && a == 0x400 * k
    ensures k * s == a
  {
  }

  lemma TablePartOfPage(a: nat, f: nat)
    requires a % PAGE == 0 && f < 0x400
    ensures TablePart(a + f) == a
  {
    PageInTableUnits(a);
    InTableUnits(a / 0x400, f);
  }

  lemma InTableUnits(k: nat, f: nat)
    requires f < 0x400
    ensures (0x400 * k + f) % 0x400 == f && (0x400 * k + f) / 0x400 == k
  {
  }

  /** Words of different pages have different indices. */
  lemma PagesApart(a: int, b: int, i: nat, j: nat)
    requires a % PAGE == 0 && b % PAGE == 0 && a != b && i < ENTRIES && j < ENTRIES
    ensures a / 4 + i != b / 4 + j
  {
    QuarterOfPage(a);
    QuarterOfPage(b);
  }

  lemma QuarterOfPage(a: int)
    requires a % PAGE == 0
    ensures a / 4 == ENTRIES * (a / PAGE) && a == PAGE * (a / PAGE)
  {
    var k := a / PAGE;
    assert a == 4 * (ENTRIES * k);
  }

  /** Flags below the mask's ten bits, as the kernel uses; `FlagsExact` is about all others. */
  ghost predicate MapPre(m: Memory, dir: int, phys: nat, vp: nat, flags: nat) {
    WellFormed(m, dir) && vp < ENTRIES * ENTRIES && phys < WORD && flags < 0x400
  }

  /** The page and the directory entry _paging_map leaves behind. */
  lemma MapWords(m: Memory, dir: int, phys: nat, vp: nat, flags: nat)
    requires MapPre(m, dir, phys, vp, flags)
    ensures var t := V2P(TableFor(m, dir, vp / ENTRIES).1);
            && 0 <= t / 4 + vp % ENTRIES < LOW_WORDS
            && Map(m, dir, phys, vp, flags) ==
                 Memory(m.words[t / 4 + vp % ENTRIES := Or(phys, flags)][dir / 4 + vp / ENTRIES := t + flags],
                        TableFor(m, dir, vp / ENTRIES).0.heap)
  {
    var t := V2P(TableFor(m, dir, vp / ENTRIES).1);
    TableForInMemory(m, dir, vp / ENTRIES);
    OrPage(t, flags);
    SlotIndex(t, vp % ENTRIES);
    SlotIndex(dir, vp / ENTRIES);
  }

  /** Word i of a page. */
  lemma SlotIndex(a: nat, i: nat)
    requires a % PAGE == 0
    ensures (a + 4 * i) / 4 == a / 4 + i
  {
  }

  lemma MapSized(m: Memory, dir: int, phys: nat, vp: nat, flags: nat)
    requires MapPre(m, dir, phys, vp, flags)
    ensures Sized(Map(m, dir, phys, vp, flags))
  {
    MapWords(m, dir, phys, vp, flags);
    TableForInMemory(m, dir, vp / ENTRIES);
    OrOfWords(phys, flags);
  }

  /** Which directory entries change their table: the one written, which then holds the table used. */
  lemma MapTables(m: Memory, dir: int, phys: nat, vp: nat, flags: nat, i: nat)
    requires MapPre(m, dir, phys, vp, flags)
    requires i < ENTRIES
    ensures Sized(Map(m, dir, phys, vp, flags))
    ensures TableAt(Map(m, dir, phys, vp, flags), dir, i) ==
            if i == vp / ENTRIES then V2P(TableFor(m, dir, i).1) else TableAt(m, dir, i)
  {
    MapSized(m, dir, phys, vp, flags);
    MapWords(m, dir, phys, vp, flags);
    TableForInMemory(m, dir, vp / ENTRIES);
    var t := V2P(TableFor(m, dir, vp / ENTRIES).1);
    PagesApart(t, dir, vp % ENTRIES, i);
    if i == vp / ENTRIES {
      TablePartOfPage(t, flags);
    } else {
      assert Pde(Map(m, dir, phys, vp, flags), dir, i) == Pde(m, dir, i);
    }
  }

  lemma MapKeepsWellFormed(m: Memory, dir: int, phys: nat, vp: nat, flags: nat)
    requires MapPre(m, dir, phys, vp, flags)
    ensures WellFormed(Map(m, dir, phys, vp, flags), dir)
  {
    var m' := Map(m, dir, phys, vp, flags);
    MapWords(m, dir, phys, vp, flags);
    TableForInMemory(m, dir, vp / ENTRIES);
    MapTables(m, dir, phys, vp, flags, 0);
    forall i | 0 <= i < ENTRIES && TableAt(m', dir, i) != 0
      ensures var t := TableAt(m', dir, i); PageAligned(t) && t != dir && t + PAGE <= m'.heap - KERNEL_VIRT
    {
      MapTables(m, dir, phys, vp, flags, i);
    }
  }

  /**
   _paging_map sets exactly one word of the table it uses: the page maps to phys|flags,
   in every directory entry that shares that table, and every other page is unchanged.
   */
  lemma MapView(m: Memory, dir: int, phys: nat, vp: nat, flags: nat, q: nat)
    requires MapPre(m, dir, phys, vp, flags)
    requires q < ENTRIES * ENTRIES && TableFor(m, dir, vp / ENTRIES).1 != 0
    ensures WellFormed(Map(m, dir, phys, vp, flags), dir)
    ensures var m' := Map(m, dir, phys, vp, flags);
            View(m', dir, q) ==
              if TableAt(m', dir, q / ENTRIES) == TableAt(m', dir, vp / ENTRIES) && q % ENTRIES == vp % ENTRIES
              then Or(phys, flags) else View(m, dir, q)
  {
    MapKeepsWellFormed(m, dir, phys, vp, flags);
    var m' := Map(m, dir, phys, vp, flags);
    var t, u := TableAt(m', dir, vp / ENTRIES), TableAt(m', dir, q / ENTRIES);
    TablesAfterMap(m, dir, phys, vp, flags, q);
    if u != 0 {
      MapWordInPage(m, dir, phys, vp, flags, u, q % ENTRIES);
    }
    ViewFromWord(m, m', dir, vp, q, t, Or(phys, flags));
  }

  lemma TablesAfterMap(m: Memory, dir: int, phys: nat, vp: nat, flags: nat, q: nat)
    requires MapPre(m, dir, phys, vp, flags)
    requires q < ENTRIES * ENTRIES && TableFor(m, dir, vp / ENTRIES).1 != 0
    ensures Sized(Map(m, dir, phys, vp, flags))
    ensures var m' := Map(m, dir, phys, vp, flags);
            var t := TableAt(m', dir, vp / ENTRIES);
            && t == V2P(TableFor(m, dir, vp / ENTRIES).1) && TableReady(m, dir, vp / ENTRIES, t)
            && (q / ENTRIES != vp / ENTRIES ==> TableAt(m', dir, q / ENTRIES) == TableAt(m, dir, q / ENTRIES))
  {
    MapTables(m, dir, phys, vp, flags, q / ENTRIES);
    MapTables(m, dir, phys, vp, flags, vp / ENTRIES);
    TableForInMemory(m, dir, vp / ENTRIES);
  }

  /** t is the table of entry i, or a page of zeros when the entry has none. */
  ghost predicate TableReady(m: Memory, dir: int, i: nat, t: int)
    requires Sized(m) && PageAligned(dir) && i < ENTRIES
  {
    && PageAligned(t)
    && if TableAt(m, dir, i) != 0 then t == TableAt(m, dir, i)
       else forall k :: t / 4 <= k < t / 4 + ENTRIES ==> m.words[k] == 0
  }

  lemma ViewFromWord(m: Memory, m': Memory, dir: int, vp: nat, q: nat, t: int, word: int)
    requires WellFormed(m, dir) && WellFormed(m', dir) && vp < ENTRIES * ENTRIES && q < ENTRIES * ENTRIES
    requires t == TableAt(m', dir, vp / ENTRIES) && TableReady(m, dir, vp / ENTRIES, t)
    requires q / ENTRIES != vp / ENTRIES ==> TableAt(m', dir, q / ENTRIES) == TableAt(m, dir, q / ENTRIES)
    requires var u := TableAt(m', dir, q / ENTRIES);
             u != 0 ==>
               m'.words[u / 4 + q % ENTRIES] ==
                 if u == t && q % ENTRIES == vp % ENTRIES then word else m.words[u / 4 + q % ENTRIES]
    ensures View(m', dir, q) ==
            if TableAt(m', dir, q / ENTRIES) == t && q % ENTRIES == vp % ENTRIES then word else View(m, dir, q)
  {
  }

  /** A word outside the directory is phys|flags if it is the one mapped, and unchanged otherwise. */
  lemma MapWordInPage(m: Memory, dir: int, phys: nat, vp: nat, flags: nat, u: int, j: nat)
    requires MapPre(m, dir, phys, vp, flags)
    requires PageAligned(u) && u != dir && j < ENTRIES
    ensures Map(m, dir, phys, vp, flags).words[u / 4 + j] ==
            if u == V2P(TableFor(m, dir, vp / ENTRIES).1) && j == vp % ENTRIES then Or(phys, flags)
            else m.words[u / 4 + j]
  {
    MapWords(m, dir, phys, vp, flags);
    TableForInMemory(m, dir, vp / ENTRIES);
    var t := V2P(TableFor(m, dir, vp / ENTRIES).1);
    PagesApart(u, dir, j, vp / ENTRIES);
    if u != t {
      PagesApart(u, t, j, vp % ENTRIES);
    }
  }

  /** When there is neither a table nor room for one, no page is mapped and none is lost. */
  lemma MapWithoutTable(m: Memory, dir: int, phys: nat, vp: nat, flags: nat, q: nat)
    requires MapPre(m, dir, phys, vp, flags)
    requires q < ENTRIES * ENTRIES && TableFor(m, dir, vp / ENTRIES).1 == 0
    ensures WellFormed(Map(m, dir, phys, vp, flags), dir)
    ensures TableAt(Map(m, dir, phys, vp, flags), dir, q / ENTRIES) == TableAt(m, dir, q / ENTRIES)
    ensures View(Map(m, dir, phys, vp, flags), dir, q) == View(m, dir, q)
    ensures View(m, dir, vp) == 0
  {
    MapKeepsWellFormed(m, dir, phys, vp, flags);
    MapTables(m, dir, phys, vp, flags, q / ENTRIES);
    TableForInMemory(m, dir, vp / ENTRIES);
    var u := TableAt(m, dir, q / ENTRIES);
    if u != 0 {
      MapWordInPage(m, dir, phys, vp, flags, u, q % ENTRIES);
    }
  }

  /** No other directory entry holds the table that entry i uses. */
  ghost predicate Unshared(m: Memory, dir: int, i: nat)
    requires Sized(m) && PageAligned(dir) && i < ENTRIES
  {
    forall j :: 0 <= j < ENTRIES && j != i && TableAt(m, dir, i) != 0 ==> TableAt(m, dir, j) != TableAt(m, dir, i)
  }

  /** m' maps page vp to word, and every other page as m does. */
  ghost predicate Updated(m: Memory, m': Memory, dir: int, vp: nat, word: int)
    requires WellFormed(m, dir) && WellFormed(m', dir)
  {
    forall q :: 0 <= q < ENTRIES * ENTRIES ==> View(m', dir, q) == if q == vp then word else View(m, dir, q)
  }

  /** A new table lies above everything in use, so it is shared with no entry. */
  lemma NewTableUnshared(m: Memory, dir: int, phys: nat, vp: nat, flags: nat)
    requires MapPre(m, dir, phys, vp, flags) && TableFor(m, dir, vp / ENTRIES).1 != 0
    requires TableAt(m, dir, vp / ENTRIES) == 0 || Unshared(m, dir, vp / ENTRIES)
    ensures Sized(Map(m, dir, phys, vp, flags)) && Unshared(Map(m, dir, phys, vp, flags), dir, vp / ENTRIES)
  {
    var m' := Map(m, dir, phys, vp, flags);
    MapSized(m, dir, phys, vp, flags);
    TableForInMemory(m, dir, vp / ENTRIES);
    forall j | 0 <= j < ENTRIES && j != vp / ENTRIES
      ensures TableAt(m', dir, j) != TableAt(m', dir, vp / ENTRIES)
    {
      MapTables(m, dir, phys, vp, flags, j);
      MapTables(m, dir, phys, vp, flags, vp / ENTRIES);
    }
  }

  lemma PageNumber(j: nat, k: nat)
    requires j < ENTRIES && k < ENTRIES
    ensures var q := j * ENTRIES + k; q / ENTRIES == j && q % ENTRIES == k && q < ENTRIES * ENTRIES
  {
  }

  lemma SamePage(q: nat, vp: nat)
    requires q / ENTRIES == vp / ENTRIES && q % ENTRIES == vp % ENTRIES
    ensures q == vp
  {
  }

  /** _paging_map is an update of the page map when the table it uses is new or unshared. */
  lemma MapRefinesUpdate(m: Memory, dir: int, phys: nat, vp: nat, flags: nat)
    requires MapPre(m, dir, phys, vp, flags) && TableFor(m, dir, vp / ENTRIES).1 != 0
    requires TableAt(m, dir, vp / ENTRIES) == 0 || Unshared(m, dir, vp / ENTRIES)
    ensures WellFormed(Map(m, dir, phys, vp, flags), dir)
    ensures Updated(m, Map(m, dir, phys, vp, flags), dir, vp, Or(phys, flags))
  {
    var m' := Map(m, dir, phys, vp, flags);
    MapKeepsWellFormed(m, dir, phys, vp, flags);
    NewTableUnshared(m, dir, phys, vp, flags);
    MapTables(m, dir, phys, vp, flags, vp / ENTRIES);
    TableForInMemory(m, dir, vp / ENTRIES);
    forall q | 0 <= q < ENTRIES * ENTRIES
      ensures View(m', dir, q) == if q == vp then Or(phys, flags) else View(m, dir, q)
    {
      MapView(m, dir, phys, vp, flags, q);
      if TableAt(m', dir, q / ENTRIES) == TableAt(m', dir, vp / ENTRIES) && q % ENTRIES == vp % ENTRIES {
        SamePage(q, vp);
      }
    }
  }

  /**
   Exactly when _paging_map is an update: it got a table or the word is zero, and either
   no other entry shares that table or the word written was there already.
   */
  lemma MapExact(m: Memory, dir: int, phys: nat, vp: nat, flags: nat)
    requires MapPre(m, dir, phys, vp, flags)
    ensures WellFormed(Map(m, dir, phys, vp, flags), dir)
    ensures Updated(m, Map(m, dir, phys, vp, flags), dir, vp, Or(phys, flags)) <==>
            && (TableFor(m, dir, vp / ENTRIES).1 != 0 || Or(phys, flags) == 0)
            && (TableAt(m, dir, vp / ENTRIES) == 0 || Unshared(m, dir, vp / ENTRIES) || View(m, dir, vp) == Or(phys, flags))
  {
    var m' := Map(m, dir, phys, vp, flags);
    var i := vp / ENTRIES;
    MapKeepsWellFormed(m, dir, phys, vp, flags);
    TableForInMemory(m, dir, i);
    MapTables(m, dir, phys, vp, flags, i);
    if TableFor(m, dir, i).1 == 0 {
      MapWithoutTable(m, dir, phys, vp, flags, vp);
      forall q | 0 <= q < ENTRIES * ENTRIES
        ensures View(m', dir, q) == View(m, dir, q)
      {
        MapWithoutTable(m, dir, phys, vp, flags, q);
      }
    } else if TableAt(m, dir, i) == 0 || Unshared(m, dir, i) {
      MapRefinesUpdate(m, dir, phys, vp, flags);
    } else {
      var j :| 0 <= j < ENTRIES && j != i && TableAt(m, dir, j) == TableAt(m, dir, i);
      SharedPage(m, dir, phys, vp, flags, j);
      if View(m, dir, vp) == Or(phys, flags) {
        MapAgain(m, dir, phys, vp, flags);
      }
    }
  }

  /** Mapping a page to what it maps to already changes no page. */
  lemma MapAgain(m: Memory, dir: int, phys: nat, vp: nat, flags: nat)
    requires MapPre(m, dir, phys, vp, flags)
    requires TableAt(m, dir, vp / ENTRIES) != 0 && View(m, dir, vp) == Or(phys, flags)
    ensures WellFormed(Map(m, dir, phys, vp, flags), dir)
    ensures Updated(m, Map(m, dir, phys, vp, flags), dir, vp, Or(phys, flags))
  {
    var m' := Map(m, dir, phys, vp, flags);
    MapKeepsWellFormed(m, dir, phys, vp, flags);
    forall q | 0 <= q < ENTRIES * ENTRIES
      ensures View(m', dir, q) == if q == vp then Or(phys, flags) else View(m, dir, q)
    {
      MapAgainAt(m, dir, phys, vp, flags, q);
    }
  }

  lemma MapAgainAt(m: Memory, dir: int, phys: nat, vp: nat, flags: nat, q: nat)
    requires MapPre(m, dir, phys, vp, flags) && q < ENTRIES * ENTRIES
    requires TableAt(m, dir, vp / ENTRIES) != 0 && View(m, dir, vp) == Or(phys, flags)
    ensures WellFormed(Map(m, dir, phys, vp, flags), dir)
    ensures View(Map(m, dir, phys, vp, flags), dir, q) == View(m, dir, q)
  {
    TableForInMemory(m, dir, vp / ENTRIES);
    MapView(m, dir, phys, vp, flags, q);
    TablesAfterMap(m, dir, phys, vp, flags, q);
    if TableAt(m, dir, q / ENTRIES) == TableAt(m, dir, vp / ENTRIES) && q % ENTRIES == vp % ENTRIES {
      SameTableSameView(m, dir, q, vp);
    }
  }

  /** Through entry j, which shares the table, another page is remapped as well. */
  lemma SharedPage(m: Memory, dir: int, phys: nat, vp: nat, flags: nat, j: nat)
    requires MapPre(m, dir, phys, vp, flags)
    requires j < ENTRIES && j != vp / ENTRIES
    requires TableAt(m, dir, j) == TableAt(m, dir, vp / ENTRIES) != 0
    ensures WellFormed(Map(m, dir, phys, vp, flags), dir)
    ensures var q := j * ENTRIES + vp % ENTRIES;
            q != vp && q < ENTRIES * ENTRIES &&
            View(m, dir, q) == View(m, dir, vp) && View(Map(m, dir, phys, vp, flags), dir, q) == Or(phys, flags)
  {
    var q := PageIn(j, vp % ENTRIES);
    SharedPageAt(m, dir, phys, vp, flags, j, q);
  }

  lemma PageIn(j: nat, r: nat) returns (q: nat)
    requires j < ENTRIES && r < ENTRIES
    ensures q == j * ENTRIES + r && q / ENTRIES == j && q % ENTRIES == r && q < ENTRIES * ENTRIES
  {
    PageNumber(j, r);
    q := j * ENTRIES + r;
  }

  lemma SharedPageAt(m: Memory, dir: int, phys: nat, vp: nat, flags: nat, j: nat, q: nat)
    requires MapPre(m, dir, phys, vp, flags)
    requires j < ENTRIES && j != vp / ENTRIES && TableAt(m, dir, j) == TableAt(m, dir, vp / ENTRIES) != 0
    requires q < ENTRIES * ENTRIES && q / ENTRIES == j && q % ENTRIES == vp % ENTRIES
    ensures WellFormed(Map(m, dir, phys, vp, flags), dir)
    ensures View(m, dir, q) == View(m, dir, vp) && View(Map(m, dir, phys, vp, flags), dir, q) == Or(phys, flags)
  {
    SameTableSameView(m, dir, q, vp);
    var m' := Map(m, dir, phys, vp, flags);
    assert TableFor(m, dir, vp / ENTRIES).1 != 0 && Sized(m') && TableAt(m', dir, q / ENTRIES) == TableAt(m', dir, vp / ENTRIES) by {
      SharedTables(m, dir, phys, vp, flags, j);
    }
    MapView(m, dir, phys, vp, flags, q);
  }

  lemma SameTableSameView(m: Memory, dir: int, q: nat, vp: nat)
    requires WellFormed(m, dir) && q < ENTRIES * ENTRIES && vp < ENTRIES * ENTRIES
    requires TableAt(m, dir, q / ENTRIES) == TableAt(m, dir, vp / ENTRIES) && q % ENTRIES == vp % ENTRIES
    ensures View(m, dir, q) == View(m, dir, vp)
  {
  }

  lemma SharedTables(m: Memory, dir: int, phys: nat, vp: nat, flags: nat, j: nat)
    requires MapPre(m, dir, phys, vp, flags)
    requires j < ENTRIES && j != vp / ENTRIES
    requires TableAt(m, dir, j) == TableAt(m, dir, vp / ENTRIES) != 0
    ensures TableFor(m, dir, vp / ENTRIES).1 != 0 && Sized(Map(m, dir, phys, vp, flags))
    ensures var m' := Map(m, dir, phys, vp, flags); TableAt(m', dir, j) == TableAt(m', dir, vp / ENTRIES)
  {
    TableForInMemory(m, dir, vp / ENTRIES);
    MapTables(m, dir, phys, vp, flags, j);
    MapTables(m, dir, phys, vp, flags, vp / ENTRIES);
  }

  /** t can stand in a directory entry: no table, or a whole page that is in use and not the directory. */
  predicate EntryFits(heap: int, dir: int, t: int) {
    t == 0 || (PageAligned(t) && t != dir && t + PAGE <= heap - KERNEL_VIRT)
  }

  /**
   The directory stays well formed exactly when the table's address with the flags in it
   still is one; for flags inside a page, exactly when they fit the ten masked bits.
   */
  lemma FlagsExact(m: Memory, dir: int, phys: nat, vp: nat, flags: nat)
    requires WellFormed(m, dir) && vp < ENTRIES * ENTRIES && phys < WORD && flags < WORD
    ensures V2P(TableFor(m, dir, vp / ENTRIES).1) >= 0
    ensures var u := TableFor(m, dir, vp / ENTRIES);
            WellFormed(Map(m, dir, phys, vp, flags), dir) <==>
            EntryFits(u.0.heap, dir, TablePart(Or(V2P(u.1), flags)))
    ensures flags < 0x1000 ==> (WellFormed(Map(m, dir, phys, vp, flags), dir) <==> flags < 0x400)
  {
    AnyFlags(m, dir, phys, vp, flags);
    if flags < 0x400 {
      MapKeepsWellFormed(m, dir, phys, vp, flags);
    } else if flags < 0x1000 {
      TableForInMemory(m, dir, vp / ENTRIES);
      WideNeverFits(TableFor(m, dir, vp / ENTRIES).0.heap, dir, V2P(TableFor(m, dir, vp / ENTRIES).1), flags);
    }
  }

  lemma WideNeverFits(heap: int, dir: int, t: nat, flags: nat)
    requires t % PAGE == 0 && 0x400 <= flags < 0x1000
    ensures !EntryFits(heap, dir, TablePart(Or(t, flags)))
  {
    OrWide(t, flags);
  }

  lemma AnyFlags(m: Memory, dir: int, phys: nat, vp: nat, flags: nat)
    requires WellFormed(m, dir) && vp < ENTRIES * ENTRIES && phys < WORD && flags < WORD
    ensures V2P(TableFor(m, dir, vp / ENTRIES).1) >= 0
    ensures var u := TableFor(m, dir, vp / ENTRIES);
            WellFormed(Map(m, dir, phys, vp, flags), dir) <==>
            EntryFits(u.0.heap, dir, TablePart(Or(V2P(u.1), flags)))
  {
    var t := V2P(TableFor(m, dir, vp / ENTRIES).1);
    TableForInMemory(m, dir, vp / ENTRIES);
    EntryAfterMap(m, dir, phys, vp, flags, t, vp / ENTRIES);
    if EntryFits(TableFor(m, dir, vp / ENTRIES).0.heap, dir, TablePart(Or(t, flags))) {
      FittingEntry(m, dir, phys, vp, flags, t);
    }
  }

  lemma WordsAfterMap(m: Memory, dir: int, phys: nat, vp: nat, flags: nat, t: int)
    requires WellFormed(m, dir) && vp < ENTRIES * ENTRIES && phys < WORD && flags < WORD
    requires t == V2P(TableFor(m, dir, vp / ENTRIES).1)
    ensures t >= 0 && Sized(Map(m, dir, phys, vp, flags))
  {
    TableForInMemory(m, dir, vp / ENTRIES);
    OrOfWords(phys, flags);
    OrOfWords(t, flags);
  }

  lemma EntryAfterMap(m: Memory, dir: int, phys: nat, vp: nat, flags: nat, t: int, i: nat)
    requires WellFormed(m, dir) && vp < ENTRIES * ENTRIES && phys < WORD && flags < WORD && i < ENTRIES
    requires t == V2P(TableFor(m, dir, vp / ENTRIES).1)
    ensures t >= 0 && Sized(Map(m, dir, phys, vp, flags))
    ensures TableAt(Map(m, dir, phys, vp, flags), dir, i) ==
            if i == vp / ENTRIES then TablePart(Or(t, flags)) else TableAt(m, dir, i)
  {
    WordsAfterMap(m, dir, phys, vp, flags, t);
    TableForInMemory(m, dir, vp / ENTRIES);
    PagesApart(t, dir, vp % ENTRIES, i);
    assert Pde(Map(m, dir, phys, vp, flags), dir, i) == if i == vp / ENTRIES then Or(t, flags) else Pde(m, dir, i);
  }

  lemma FittingEntry(m: Memory, dir: int, phys: nat, vp: nat, flags: nat, t: int)
    requires WellFormed(m, dir) && vp < ENTRIES * ENTRIES && phys < WORD && flags < WORD
    requires t == V2P(TableFor(m, dir, vp / ENTRIES).1) && t >= 0
    requires EntryFits(TableFor(m, dir, vp / ENTRIES).0.heap, dir, TablePart(Or(t, flags)))
    ensures WellFormed(Map(m, dir, phys, vp, flags), dir)
  {
    TableForInMemory(m, dir, vp / ENTRIES);
    WordsAfterMap(m, dir, phys, vp, flags, t);
    var m' := Map(m, dir, phys, vp, flags);
    forall i | 0 <= i < ENTRIES && TableAt(m', dir, i) != 0
      ensures EntryFits(m'.heap, dir, TableAt(m', dir, i))
    {
      EntryAfterMap(m, dir, phys, vp, flags, t, i);
    }
  }

  lemma OrWide(a: nat, f: nat)
    requires a % PAGE == 0 && 0x400 <= f < 0x1000
    ensures Or(a, f) == a + f && TablePart(a + f) % PAGE != 0
  {
    var k := a / 0x1000;
    assert k * Shift1(12) == a && f < Shift1(12) by {
      Shift1Of32();
    }
    OrOfDisjoint(k, f, 12);
    WideTablePart(k, f);
  }

  lemma WideTablePart(k: nat, f: nat)
    requires 0x400 <= f < 0x1000
    ensures TablePart(0x1000 * k + f) % PAGE != 0
  {
    var h := f / 0x400;
    assert 1 <= h <= 3;
    var x := 0x1000 * k + f;
    assert x == 0x400 * (4 * k + h) + f % 0x400;
    assert TablePart(x) == 0x400 * (4 * k + h);
    assert 0x400 * (4 * k + h) == 0x1000 * k + 0x400 * h;
  }

  lemma UnmapKeepsWellFormed(m: Memory, dir: int, vp: nat)
    requires WellFormed(m, dir) && vp < ENTRIES * ENTRIES
    ensures WellFormed(Unmap(m, dir, vp), dir)
    ensures forall i :: 0 <= i < ENTRIES ==> TableAt(Unmap(m, dir, vp), dir, i) == TableAt(m, dir, i)
  {
    var m' := Unmap(m, dir, vp);
    var t := TableAt(m, dir, vp / ENTRIES);
    if t != 0 {
      assert Sized(m') && t / 4 + vp % ENTRIES < (m.heap - KERNEL_VIRT) / 4;
      forall i | 0 <= i < ENTRIES
        ensures TableAt(m', dir, i) == TableAt(m, dir, i)
      {
        PagesApart(t, dir, vp % ENTRIES, i);
        assert Pde(m', dir, i) == Pde(m, dir, i);
      }
    }
  }

  /** _paging_unmap clears one word of the table, in every entry that shares it; other pages are unchanged. */
  lemma UnmapView(m: Memory, dir: int, vp: nat, q: nat)
    requires WellFormed(m, dir) && vp < ENTRIES * ENTRIES && q < ENTRIES * ENTRIES
    ensures WellFormed(Unmap(m, dir, vp), dir)
    ensures View(Unmap(m, dir, vp), dir, q) ==
            if TableAt(m, dir, q / ENTRIES) == TableAt(m, dir, vp / ENTRIES) && q % ENTRIES == vp % ENTRIES
            then 0 else View(m, dir, q)
  {
    UnmapKeepsWellFormed(m, dir, vp);
    var t, u := TableAt(m, dir, vp / ENTRIES), TableAt(m, dir, q / ENTRIES);
    if t != u {
      PagesApart(u, t, q % ENTRIES, vp % ENTRIES);
    }
  }

  /** With unshared tables, _paging_unmap is removal from the page map. */
  lemma UnmapRefinesRemoval(m: Memory, dir: int, vp: nat)
    requires WellFormed(m, dir) && vp < ENTRIES * ENTRIES && Unshared(m, dir, vp / ENTRIES)
    ensures WellFormed(Unmap(m, dir, vp), dir) && Updated(m, Unmap(m, dir, vp), dir, vp, 0)
  {
    UnmapKeepsWellFormed(m, dir, vp);
    forall q | 0 <= q < ENTRIES * ENTRIES
      ensures View(Unmap(m, dir, vp), dir, q) == if q == vp then 0 else View(m, dir, q)
    {
      UnmapView(m, dir, vp, q);
      if q / ENTRIES == vp / ENTRIES && q % ENTRIES == vp % ENTRIES {
        SamePage(q, vp);
      }
    }
  }

  /** Exactly when _paging_unmap is removal: no other entry shares the table, or the page was not mapped. */
  lemma UnmapExact(m: Memory, dir: int, vp: nat)
    requires WellFormed(m, dir) && vp < ENTRIES * ENTRIES
    ensures WellFormed(Unmap(m, dir, vp), dir)
    ensures Updated(m, Unmap(m, dir, vp), dir, vp, 0) <==> Unshared(m, dir, vp / ENTRIES) || View(m, dir, vp) == 0
  {
    var i := vp / ENTRIES;
    UnmapKeepsWellFormed(m, dir, vp);
    if Unshared(m, dir, i) {
      UnmapRefinesRemoval(m, dir, vp);
    } else if View(m, dir, vp) == 0 {
      UnmapNothing(m, dir, vp);
    } else {
      var j :| 0 <= j < ENTRIES && j != i && TableAt(m, dir, j) == TableAt(m, dir, i);
      SharedUnmap(m, dir, vp, j);
    }
  }

  /** Unmapping a page that is not mapped changes no page. */
  lemma UnmapNothing(m: Memory, dir: int, vp: nat)
    requires WellFormed(m, dir) && vp < ENTRIES * ENTRIES && View(m, dir, vp) == 0
    ensures WellFormed(Unmap(m, dir, vp), dir) && Updated(m, Unmap(m, dir, vp), dir, vp, 0)
  {
    UnmapKeepsWellFormed(m, dir, vp);
    forall q | 0 <= q < ENTRIES * ENTRIES
      ensures View(Unmap(m, dir, vp), dir, q) == if q == vp then 0 else View(m, dir, q)
    {
      UnmapView(m, dir, vp, q);
    }
  }

  /** Through entry j, which shares the table, another page is unmapped as well. */
  lemma SharedUnmap(m: Memory, dir: int, vp: nat, j: nat)
    requires WellFormed(m, dir) && vp < ENTRIES * ENTRIES && View(m, dir, vp) != 0
    requires j < ENTRIES && j != vp / ENTRIES && TableAt(m, dir, j) == TableAt(m, dir, vp / ENTRIES)
    ensures WellFormed(Unmap(m, dir, vp), dir) && !Updated(m, Unmap(m, dir, vp), dir, vp, 0)
  {
    var q := j * ENTRIES + vp % ENTRIES;
    PageNumber(j, vp % ENTRIES);
    UnmapView(m, dir, vp, q);
    SameTableSameView(m, dir, q, vp);
    assert q != vp && View(Unmap(m, dir, vp), dir, q) != View(m, dir, q);
  }

  /** The heap's own words are no concern of the page tables: any data may be there. */
  lemma HeapDataIsApart(m: Memory, m': Memory, dir: int, q: nat)
    requires WellFormed(m, dir) && Sized(m') && m'.heap == m.heap && m'.heap <= P.BOOT_LIMIT && q < ENTRIES * ENTRIES
    requires m'.words[..BOOT_WORDS] == m.words[..BOOT_WORDS]
    ensures WellFormed(m', dir) && View(m', dir, q) == View(m, dir, q)
  {
    forall k | 0 <= k < BOOT_WORDS
      ensures m'.words[k] == m.words[k]
    {
      assert m'.words[..BOOT_WORDS][k] == m.words[..BOOT_WORDS][k];
    }
    assert forall i :: 0 <= i < ENTRIES ==> TableAt(m', dir, i) == TableAt(m, dir, i);
  }

  // ----- the directory start.s leaves behind

  const KERNEL_ENTRY: int := 768

  /** Entries 0 and 768 hold one table, which maps the first 4 MB to themselves. */
  ghost predicate BootDirectory(m: Memory, dir: int, pt: int)
    requires Sized(m) && PageAligned(dir) && PageAligned(pt)
  {
    && (forall i :: 0 <= i < ENTRIES ==> Pde(m, dir, i) == if i == 0 || i == KERNEL_ENTRY then pt + 3 else 0)
    && (forall j :: 0 <= j < ENTRIES ==> m.words[pt / 4 + j] == j * PAGE + 3)
  }

  /** Such a directory is well formed, and maps both windows to the first 4 MB and nothing else. */
  lemma BootDirectoryView(m: Memory, dir: int, pt: int)
    requires Sized(m) && P.BootOk(m.heap) && PageAligned(dir) && PageAligned(pt) && pt != dir
    requires dir + PAGE <= m.heap - KERNEL_VIRT && pt + PAGE <= m.heap - KERNEL_VIRT
    requires forall k :: (m.heap - KERNEL_VIRT) / 4 <= k < BOOT_WORDS ==> m.words[k] == 0
    requires BootDirectory(m, dir, pt)
    ensures WellFormed(m, dir)
    ensures forall q :: 0 <= q < ENTRIES * ENTRIES ==>
              View(m, dir, q) ==
                if q / ENTRIES == 0 || q / ENTRIES == KERNEL_ENTRY then q % ENTRIES * PAGE + 3 else 0
  {
    TablePartOfPage(pt, 3);
    TablePartOfPage(0, 0);
    forall i | 0 <= i < ENTRIES
      ensures TableAt(m, dir, i) == if i == 0 || i == KERNEL_ENTRY then pt else 0
    {
    }
  }

  const BOOT_TABLE: int := 0x11_0000
  const BOOT_DIRECTORY: int := 0x11_1000

  /** A memory as start.s leaves it, with `low` in its first word, where the BIOS keeps an interrupt vector. */
  function BootMemory(low: nat): (m: Memory)
    requires low < WORD
    ensures Sized(m)
  {
    Memory(seq(LOW_WORDS, i requires 0 <= i < LOW_WORDS => BootWord(low, i)), KERNEL_VIRT + 0x12_0000)
  }

  function BootWord(low: nat, i: nat): (r: int)
    requires low < WORD && i < LOW_WORDS
    ensures 0 <= r < WORD
  {
    if i == 0 then low
    else if BOOT_TABLE / 4 <= i < BOOT_TABLE / 4 + ENTRIES then (i - BOOT_TABLE / 4) * PAGE + 3
    else if i == BOOT_DIRECTORY / 4 || i == BOOT_DIRECTORY / 4 + KERNEL_ENTRY then BOOT_TABLE + 3
    else 0
  }

  lemma BootMemoryIsSound(low: nat)
    requires low < WORD
    ensures var m := BootMemory(low);
            && WellFormed(m, BOOT_DIRECTORY) && BootDirectory(m, BOOT_DIRECTORY, BOOT_TABLE)
            && TableAt(m, BOOT_DIRECTORY, 0) == TableAt(m, BOOT_DIRECTORY, KERNEL_ENTRY) != 0
  {
    var m := BootMemory(low);
    BootDirectoryView(m, BOOT_DIRECTORY, BOOT_TABLE);
    TablePartOfPage(BOOT_TABLE, 3);
  }

  /** A failing input for _virt_to_phys: no table at 0xC0400000, and a non-zero word at the bottom of memory. */
  lemma MissingTableReadsLowMemory(low: nat)
    requires 0 < low < WORD
    ensures var m := BootMemory(low);
            && WellFormed(m, BOOT_DIRECTORY)
            && View(m, BOOT_DIRECTORY, 769 * ENTRIES) == 0
            && VirtToPhys(m, BOOT_DIRECTORY, 769 * ENTRIES) == low
  {
    BootMemoryIsSound(low);
    BootDirectoryView(BootMemory(low), BOOT_DIRECTORY, BOOT_TABLE);
    TablePartOfPage(0, 0);
  }

  // ----- runs of _paging_map and _paging_unmap

  datatype PageOp = MapOp(phys: nat, vp: nat, flags: nat) | UnmapOp(vp: nat)

  ghost predicate LegalOp(op: PageOp) {
    op.vp < ENTRIES * ENTRIES && (op.MapOp? ==> op.phys < WORD && op.flags < 0x400)
  }

  ghost predicate LegalOps(ops: seq<PageOp>) {
    forall k :: 0 <= k < |ops| ==> LegalOp(ops[k])
  }

  function OpWord(op: PageOp): int {
    if op.MapOp? then Or(op.phys, op.flags) else 0
  }

  function DoOp(m: Memory, dir: int, op: PageOp): (r: Memory)
    requires WellFormed(m, dir) && LegalOp(op)
    ensures WellFormed(r, dir)
  {
    match op
    case MapOp(phys, vp, flags) =>
      MapKeepsWellFormed(m, dir, phys, vp, flags);
      Map(m, dir, phys, vp, flags)
    case UnmapOp(vp) =>
      UnmapKeepsWellFormed(m, dir, vp);
      Unmap(m, dir, vp)
  }

  function DoOps(m: Memory, dir: int, ops: seq<PageOp>): (r: Memory)
    requires WellFormed(m, dir) && LegalOps(ops)
    ensures WellFormed(r, dir)
    decreases |ops|
  {
    if ops == [] then m else DoOps(DoOp(m, dir, ops[0]), dir, ops[1..])
  }

  /** Every page mapped finds a table or room for one. */
  predicate AllGranted(m: Memory, dir: int, ops: seq<PageOp>)
    requires WellFormed(m, dir) && LegalOps(ops)
    decreases |ops|
  {
    ops != [] ==>
      && (ops[0].MapOp? ==> TableFor(m, dir, ops[0].vp / ENTRIES).1 != 0)
      && AllGranted(DoOp(m, dir, ops[0]), dir, ops[1..])
  }

  /** A page map as it should be: page q held `word`, and each operation on q replaces it. */
  function Recorded(word: int, ops: seq<PageOp>, q: nat): int
    decreases |ops|
  {
    if ops == [] then word
    else Recorded(if ops[0].vp == q then OpWord(ops[0]) else word, ops[1..], q)
  }

  /** No operation uses an entry whose table another entry shares. */
  ghost predicate AllAlone(m: Memory, dir: int, ops: seq<PageOp>)
    requires WellFormed(m, dir) && LegalOps(ops)
  {
    forall k :: 0 <= k < |ops| ==> Unshared(m, dir, ops[k].vp / ENTRIES)
  }

  lemma MapKeepsUnshared(m: Memory, dir: int, phys: nat, vp: nat, flags: nat, i: nat)
    requires MapPre(m, dir, phys, vp, flags) && i < ENTRIES && Unshared(m, dir, i) && Unshared(m, dir, vp / ENTRIES)
    ensures WellFormed(Map(m, dir, phys, vp, flags), dir) && Unshared(Map(m, dir, phys, vp, flags), dir, i)
  {
    var m' := Map(m, dir, phys, vp, flags);
    MapKeepsWellFormed(m, dir, phys, vp, flags);
    TableForInMemory(m, dir, vp / ENTRIES);
    MapTables(m, dir, phys, vp, flags, i);
    forall j | 0 <= j < ENTRIES && j != i && TableAt(m', dir, i) != 0
      ensures TableAt(m', dir, j) != TableAt(m', dir, i)
    {
      MapTables(m, dir, phys, vp, flags, j);
    }
  }

  lemma OpKeepsUnshared(m: Memory, dir: int, op: PageOp, i: nat)
    requires WellFormed(m, dir) && LegalOp(op) && i < ENTRIES
    requires Unshared(m, dir, i) && Unshared(m, dir, op.vp / ENTRIES)
    ensures Unshared(DoOp(m, dir, op), dir, i)
  {
    if op.MapOp? {
      MapKeepsUnshared(m, dir, op.phys, op.vp, op.flags, i);
    } else {
      UnmapKeepsWellFormed(m, dir, op.vp);
    }
  }

  lemma OpUpdates(m: Memory, dir: int, op: PageOp, q: nat)
    requires WellFormed(m, dir) && LegalOp(op) && q < ENTRIES * ENTRIES
    requires Unshared(m, dir, op.vp / ENTRIES) && (op.MapOp? ==> TableFor(m, dir, op.vp / ENTRIES).1 != 0)
    ensures View(DoOp(m, dir, op), dir, q) == if q == op.vp then OpWord(op) else View(m, dir, q)
  {
    if op.MapOp? {
      MapRefinesUpdate(m, dir, op.phys, op.vp, op.flags);
    } else {
      UnmapRefinesRemoval(m, dir, op.vp);
    }
  }

  lemma AloneKept(m: Memory, dir: int, ops: seq<PageOp>)
    requires WellFormed(m, dir) && ops != [] && LegalOps(ops) && AllAlone(m, dir, ops)
    ensures AllAlone(DoOp(m, dir, ops[0]), dir, ops[1..])
  {
    forall k | 1 <= k < |ops|
      ensures Unshared(DoOp(m, dir, ops[0]), dir, ops[k].vp / ENTRIES)
    {
      OpKeepsUnshared(m, dir, ops[0], ops[k].vp / ENTRIES);
    }
  }

  /** Main result: every run on unshared entries is the same run of updates and removals on a page map. */
  lemma {:induction false} RunIsPageMap(m: Memory, dir: int, ops: seq<PageOp>, q: nat)
    requires WellFormed(m, dir) && q < ENTRIES * ENTRIES
    requires LegalOps(ops)
    requires AllGranted(m, dir, ops) && AllAlone(m, dir, ops)
    ensures View(DoOps(m, dir, ops), dir, q) == Recorded(View(m, dir, q), ops, q)
    decreases |ops|
  {
    if ops != [] {
      var m1 := DoOp(m, dir, ops[0]);
      OpUpdates(m, dir, ops[0], q);
      AloneKept(m, dir, ops);
      RunIsPageMap(m1, dir, ops[1..], q);
    }
  }

  // ----- k_map_kernel

  function KernelPage(j: nat): (r: nat)
    requires j < ENTRIES
    ensures r / ENTRIES == KERNEL_ENTRY && r % ENTRIES == j && r < ENTRIES * ENTRIES
  {
    PageNumber(KERNEL_ENTRY, j);
    KERNEL_ENTRY * ENTRIES + j
  }

  lemma KernelAddress(j: nat)
    requires j < ENTRIES
    ensures j * PAGE + KERNEL_VIRT < WORD && (j * PAGE + KERNEL_VIRT) / 0x1000 == KernelPage(j)
  {
  }

  lemma KernelPagePre(m: Memory, dir: int, j: nat)
    requires WellFormed(m, dir) && j < ENTRIES
    ensures MapPre(m, dir, j * PAGE, KernelPage(j), 3)
  {
  }

  /** The directory after k_map_kernel has mapped the first k pages above 3 GB. */
  function MapKernel(m: Memory, dir: int, k: nat): (r: Memory)
    requires WellFormed(m, dir) && k <= ENTRIES
    ensures WellFormed(r, dir)
  {
    if k == 0 then m else
    var m1 := MapKernel(m, dir, k - 1);
    KernelPagePre(m1, dir, k - 1);
    MapKeepsWellFormed(m1, dir, (k - 1) * PAGE, KernelPage(k - 1), 3);
    Map(m1, dir, (k - 1) * PAGE, KernelPage(k - 1), 3)
  }

  lemma MapKernelStep(m: Memory, dir: int, k: nat)
    requires WellFormed(m, dir) && k < ENTRIES
    ensures MapKernel(m, dir, k + 1) == Map(MapKernel(m, dir, k), dir, k * PAGE, KernelPage(k), 3)
  {
  }

  ghost predicate EmptyDirectory(m: Memory, dir: int)
    requires WellFormed(m, dir)
  {
    forall i :: 0 <= i < ENTRIES ==> TableAt(m, dir, i) == 0
  }

  /** One table has been taken, it is at entry 768 only, and 3 GB + a maps to a for the first k pages. */
  ghost predicate KernelMapped(m: Memory, m': Memory, dir: int, k: nat)
    requires WellFormed(m, dir) && WellFormed(m', dir) && k <= ENTRIES
  {
    && m'.heap == P.BootAlloc(m.heap, 0x1000).heap
    && TableAt(m', dir, KERNEL_ENTRY) == m.heap - KERNEL_VIRT
    && (forall i :: 0 <= i < ENTRIES && i != KERNEL_ENTRY ==> TableAt(m', dir, i) == 0)
    && (forall j :: 0 <= j < k ==> View(m', dir, KernelPage(j)) == j * PAGE + 3)
  }

  /** The first page takes the table. */
  lemma KernelFirst(m: Memory, dir: int)
    requires WellFormed(m, dir) && EmptyDirectory(m, dir) && P.BootAlloc(m.heap, 0x1000).addr != 0
    ensures WellFormed(Map(m, dir, 0, KernelPage(0), 3), dir)
    ensures KernelMapped(m, Map(m, dir, 0, KernelPage(0), 3), dir, 1)
  {
    var m' := Map(m, dir, 0, KernelPage(0), 3);
    TableForInMemory(m, dir, KERNEL_ENTRY);
    MapRefinesUpdate(m, dir, 0, KernelPage(0), 3);
    OrPage(0, 3);
    MapWords(m, dir, 0, KernelPage(0), 3);
    forall i | 0 <= i < ENTRIES
      ensures TableAt(m', dir, i) == if i == KERNEL_ENTRY then m.heap - KERNEL_VIRT else 0
    {
      MapTables(m, dir, 0, KernelPage(0), 3, i);
    }
  }

  /** Every later page uses it again. */
  lemma KernelNext(m: Memory, m1: Memory, dir: int, k: nat)
    requires WellFormed(m, dir) && WellFormed(m1, dir) && k < ENTRIES && KernelMapped(m, m1, dir, k)
    ensures WellFormed(Map(m1, dir, k * PAGE, KernelPage(k), 3), dir)
    ensures KernelMapped(m, Map(m1, dir, k * PAGE, KernelPage(k), 3), dir, k + 1)
  {
    var m' := Map(m1, dir, k * PAGE, KernelPage(k), 3);
    KernelPagePre(m1, dir, k);
    TableForInMemory(m1, dir, KERNEL_ENTRY);
    MapRefinesUpdate(m1, dir, k * PAGE, KernelPage(k), 3);
    OrPage(k * PAGE, 3);
    MapWords(m1, dir, k * PAGE, KernelPage(k), 3);
    forall i | 0 <= i < ENTRIES
      ensures TableAt(m', dir, i) == TableAt(m1, dir, i)
    {
      MapTables(m1, dir, k * PAGE, KernelPage(k), 3, i);
    }
  }

  /** k_map_kernel on an empty directory takes exactly one table and maps 3 GB + a to a for all a below 4 MB. */
  lemma MapKernelTakesOneTable(m: Memory, dir: int, k: nat)
    requires WellFormed(m, dir) && EmptyDirectory(m, dir) && 1 <= k <= ENTRIES
    requires P.BootAlloc(m.heap, 0x1000).addr != 0
    ensures KernelMapped(m, MapKernel(m, dir, k), dir, k)
  {
    KernelDone(m, dir, k);
    assert KernelReadyBody(m, MapKernel(m, dir, k), dir, k, 0);
  }

  ghost predicate KernelReadyBody(m: Memory, r: Memory, dir: int, k: nat, key: nat) {
    WellFormed(m, dir) && WellFormed(r, dir) && k <= ENTRIES && KernelMapped(m, r, dir, k)
  }

  /** KernelMapped, carried unopened through the induction. */
  ghost predicate KernelReady(m: Memory, r: Memory, dir: int, k: nat) {
    forall key: nat :: KernelReadyBody(m, r, dir, k, key)
  }

  lemma NextReady(m: Memory, m1: Memory, dir: int, k: nat)
    requires k < ENTRIES && WellFormed(m1, dir) && KernelReady(m, m1, dir, k)
    ensures KernelReady(m, Map(m1, dir, k * PAGE, KernelPage(k), 3), dir, k + 1)
  {
    assert KernelReadyBody(m, m1, dir, k, 0);
    KernelNext(m, m1, dir, k);
  }

  lemma {:induction false} KernelDone(m: Memory, dir: int, k: nat)
    requires WellFormed(m, dir) && EmptyDirectory(m, dir) && 1 <= k <= ENTRIES
    requires P.BootAlloc(m.heap, 0x1000).addr != 0
    ensures KernelReady(m, MapKernel(m, dir, k), dir, k)
    decreases k
  {
    if k == 1 {
      FirstReady(m, dir);
    } else {
      KernelDone(m, dir, k - 1);
      NextReady(m, MapKernel(m, dir, k - 1), dir, k - 1);
      MapKernelStep(m, dir, k - 1);
    }
  }

  lemma FirstReady(m: Memory, dir: int)
    requires WellFormed(m, dir) && EmptyDirectory(m, dir) && P.BootAlloc(m.heap, 0x1000).addr != 0
    ensures KernelReady(m, MapKernel(m, dir, 1), dir, 1)
  {
    KernelFirst(m, dir);
    assert MapKernel(m, dir, 1) == Map(m, dir, 0, KernelPage(0), 3);
  }
}

/** The same operations writing memory in place. */
module PagingImpl {
  import opened Common
  import opened Bits
  import opened PagingSpec
  import opened PhysImpl

  class PageTables {
    const mem: array<int>
    const mm: PageAllocator

    ghost function State(): Memory
      reads this, mem, mm
    {
      Memory(mem[..], mm.heap)
    }

    constructor (words: array<int>, allocator: PageAllocator)
      ensures mem == words && mm == allocator
    {
      mem, mm := words, allocator;
    }

    /** The table of directory entry pdi: its own, or a new one. */
    method FindTable(dir: int, pdi: nat) returns (pt: int)
      requires WellFormed(State(), dir) && pdi < ENTRIES
      modifies mm`heap
      ensures (State(), pt) == TableFor(old(State()), dir, pdi)
    {
      var t := TablePart(mem[dir / 4 + pdi]);
      if t != 0 {
        pt := P2V(t);
      } else {
        pt := mm.BootAllocate(0x1000);
      }
    }

    method MapPage(dir: int, phys: nat, virt: nat, flags: nat)
      requires WellFormed(State(), dir) && virt < WORD
      modifies mm`heap, mem
      ensures State() == Map(old(State()), dir, phys, virt / 0x1000, flags)
    {
      var pdi := virt / 0x40_0000;
      var pti := virt / 0x1000 % 0x400;
      assert pdi == virt / 0x1000 / ENTRIES;
      var pt := FindTable(dir, pdi);
      MapWrites(old(State()), State(), dir, phys, virt / 0x1000, flags, pt);
      mem[V2P(pt) / 4 + pti] := Or(phys, flags);
      mem[dir / 4 + pdi] := Or(V2P(pt), flags);
    }

    /** Returns 0 when the address was never mapped; the table is written at its physical address. */
    method UnmapPage(dir: int, virt: nat) returns (r: int)
      requires WellFormed(State(), dir) && virt < WORD
      modifies mem
      ensures State() == Unmap(old(State()), dir, virt / 0x1000)
      ensures r == 0 <==> TableAt(old(State()), dir, virt / 0x40_0000) == 0
    {
      var pdi := virt / 0x40_0000;
      var pti := virt / 0x1000 % 0x400;
      assert pdi == virt / 0x1000 / ENTRIES;
      var pt := TablePart(mem[dir / 4 + pdi]);
      if pt == 0 {
        return 0;
      }
      mem[pt / 4 + pti] := 0;
      return 1;
    }

    method Translate(dir: int, virt: nat) returns (entry: int)
      requires WellFormed(State(), dir) && virt < WORD
      ensures entry == VirtToPhys(State(), dir, virt / 0x1000)
    {
      var pdi := virt / 0x40_0000;
      var pti := virt / 0x1000 % 0x400;
      assert pdi == virt / 0x1000 / ENTRIES;
      var pt := P2V(TablePart(mem[dir / 4 + pdi]));
      assert pt == P2V(TableAt(State(), dir, pdi));
      entry := mem[V2P(pt) / 4 + pti];
    }

    method MapOnePage(dir: int, phys: nat, virt: nat, flags: nat)
      requires WellFormed(State(), dir) && virt < WORD
      modifies mm`heap, mem
      ensures Maps(old(State()), State(), dir, phys, virt / 0x1000, flags)
    {
      MapPage(dir, phys, virt, flags);
    }

    /** One turn of k_map_kernel's loop; k pages of the directory `m` are mapped so far. */
    method MapKernelPage(dir: int, i: nat, ghost m: Memory, ghost k: nat)
      requires k < ENTRIES && i == k * PAGE && WellFormed(State(), dir) && AfterPages(State(), m, dir, k)
      modifies mm`heap, mem
      ensures WellFormed(State(), dir) && AfterPages(State(), m, dir, k + 1)
    {
      KernelAddress(k);
      MapOnePage(dir, i, i + KERNEL_VIRT, 3);
      OnePageMore(old(State()), State(), m, dir, k);
    }

    /** k_map_kernel; `k` counts the pages mapped. */
    method MapKernelPages(dir: int) returns (ghost k: nat)
      requires WellFormed(State(), dir)
      modifies mm`heap, mem
      ensures k == ENTRIES && State() == MapKernel(old(State()), dir, k)
    {
      var i := 0;
      k := 0;
      ghost var m := State();
      while i < 0x0040_0000
        invariant 0 <= k <= ENTRIES && i == k * PAGE
        invariant WellFormed(State(), dir) && AfterPages(State(), m, dir, k)
        decreases ENTRIES - k
      {
        MapKernelPage(dir, i, m, k);
        i := i + 0x1000;
        k := k + 1;
      }
      assert AfterPagesBody(State(), m, dir, k, 0);
    }
  }

  /** The two words that mapping a page writes, once the table is found. */
  lemma MapWrites(m: Memory, m1: Memory, dir: int, phys: nat, vp: nat, flags: nat, pt: int)
    requires WellFormed(m, dir) && vp < ENTRIES * ENTRIES && TableFor(m, dir, vp / ENTRIES) == (m1, pt)
    ensures m1.words == m.words && |m.words| == LOW_WORDS && 0 <= V2P(pt) && V2P(pt) / 4 + vp % ENTRIES < |m.words|
    ensures 0 <= dir / 4 && dir / 4 + vp / ENTRIES < |m.words|
    ensures Map(m, dir, phys, vp, flags)
         == Memory(m.words[V2P(pt) / 4 + vp % ENTRIES := Or(phys, flags)][dir / 4 + vp / ENTRIES := Or(V2P(pt), flags)], m1.heap)
  {
    TableForInMemory(m, dir, vp / ENTRIES);
  }

  ghost predicate AfterPagesBody(s: Memory, m: Memory, dir: int, k: nat, key: nat) {
    WellFormed(m, dir) && k <= ENTRIES && s == MapKernel(m, dir, k)
  }

  /** s is m with the first k pages of the kernel mapped; opened by an instance. */
  ghost predicate AfterPages(s: Memory, m: Memory, dir: int, k: nat) {
    forall key: nat :: AfterPagesBody(s, m, dir, k, key)
  }

  ghost predicate MapsBody(s: Memory, t: Memory, dir: int, phys: nat, vp: nat, flags: nat, key: nat) {
    WellFormed(s, dir) && vp < ENTRIES * ENTRIES && t == Map(s, dir, phys, vp, flags)
  }

  /** t is s with a page mapped; opened by an instance. */
  ghost predicate Maps(s: Memory, t: Memory, dir: int, phys: nat, vp: nat, flags: nat) {
    forall key: nat :: MapsBody(s, t, dir, phys, vp, flags, key)
  }

  lemma OnePageMore(s: Memory, t: Memory, m: Memory, dir: int, k: nat)
    requires k < ENTRIES && AfterPages(s, m, dir, k) && Maps(s, t, dir, k * PAGE, KernelPage(k), 3)
    ensures WellFormed(t, dir) && AfterPages(t, m, dir, k + 1)
  {
    assert AfterPagesBody(s, m, dir, k, 0) && MapsBody(s, t, dir, k * PAGE, KernelPage(k), 3, 0);
    MapKernelStep(m, dir, k);
  }
}
