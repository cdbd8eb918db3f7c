/**
 Whether a move of the break maps every page it passes, read off the state before the move:
 each directory entry without a table needs a zero in low memory, where its first page is
 looked up, and room for the table behind all the tables and bitmaps taken before.
 */
module SbrkPlan {
  import opened Common
  import opened SbrkSpec
  import opened SbrkRuns
  import P = PhysSpec
  import V = PagingSpec

  /** What is left of the boot allocator's memory and of the frames. */
  datatype Stock = Stock(heap: int, pages: P.Pages)

  function AfterFrame(s: Stock): Stock {
    Stock(P.HeapAfterAlloc(s.pages, s.heap), P.PageAlloc(s.pages).pages)
  }

  function AfterTable(s: Stock): Stock {
    s.(heap := P.BootAlloc(s.heap, 0x1000).heap)
  }

  function Entry(q: Page): (e: nat)
    ensures e < V.ENTRIES
  {
    q / V.ENTRIES
  }

  predicate HasTable0(k: Kernel, dir: int, e: nat)
    requires V.WellFormed(k.mem, dir) && e < V.ENTRIES
  {
    V.TableAt(k.mem, dir, e) != 0
  }

  /** Page p + i is the first of the move in a directory entry that has no table. */
  predicate NeedsTable(k: Kernel, dir: int, p: Page, i: nat)
    requires Ready(k, dir) && p + i < ALL_PAGES
  {
    assert ReadyBody(k, dir, 0);
    (i == 0 || (p + i) % V.ENTRIES == 0) && !HasTable0(k, dir, Entry(p + i))
  }

  /** What is left when the move comes to page p + i. */
  function StockAt(k: Kernel, dir: int, p: Page, i: nat): (s: Stock)
    requires Ready(k, dir) && p + i <= ALL_PAGES
  {
    if i == 0 then Stock(k.mem.heap, k.pages) else
    var s := StockAt(k, dir, p, i - 1);
    if PageWord(k, dir, p + i - 1) != 0 then s
    else if NeedsTable(k, dir, p, i - 1) then AfterTable(AfterFrame(s))
    else AfterFrame(s)
  }

  /** The look-up of the first page reads a zero, and there is room for the table. */
  predicate TableGranted(k: Kernel, dir: int, p: Page, i: nat)
    requires Ready(k, dir) && p + i < ALL_PAGES
  {
    assert ReadyBody(k, dir, 0);
    && k.mem.words[(p + i) % V.ENTRIES] == 0
    && P.BootAlloc(AfterFrame(StockAt(k, dir, p, i)).heap, 0x1000).addr != 0
  }

  /** The plan's word on page p + i. */
  predicate PlannedAt(k: Kernel, dir: int, p: Page, i: nat)
    requires Ready(k, dir) && p + i < ALL_PAGES
  {
    NeedsTable(k, dir, p, i) ==> TableGranted(k, dir, p, i)
  }

  predicate Planned(k: Kernel, dir: int, p: Page, n: nat)
    requires Ready(k, dir) && p + n <= ALL_PAGES
  {
    forall i :: 0 <= i < n ==> PlannedAt(k, dir, p, i)
  }

  /** No two directory entries of the pages from `from` to `to` share a table. */
  predicate NoneShare(m: V.Memory, dir: int, from: nat, to: nat)
    requires V.WellFormed(m, dir) && to <= ALL_PAGES
  {
    forall a, b :: from <= a < to && from <= b < to ==> Differ(m, dir, a, b)
  }

  predicate Differ(m: V.Memory, dir: int, a: Page, b: Page)
    requires V.WellFormed(m, dir)
  {
    Entry(a) != Entry(b) && V.TableAt(m, dir, Entry(a)) != 0 ==> V.TableAt(m, dir, Entry(a)) != V.TableAt(m, dir, Entry(b))
  }

  ghost predicate NoneSharesBody(k: Kernel, dir: int, p: Page, n: nat, key: nat) {
    V.WellFormed(k.mem, dir) && p + n <= ALL_PAGES && NoneShare(k.mem, dir, p, p + n)
  }

  /** So it is for the n pages from p on; opened by an instance. */
  ghost predicate NoneShares(k: Kernel, dir: int, p: Page, n: nat) {
    forall key: nat :: NoneSharesBody(k, dir, p, n, key)
  }

  /** The kernel s, i rounds into the move, as far as the pages still to come are concerned. */
  ghost predicate OnPlanBody(k: Kernel, s: Kernel, dir: int, p: Page, i: nat, n: nat, key: nat) {
    && i <= n && p + n <= ALL_PAGES && V.WellFormed(k.mem, dir) && V.WellFormed(s.mem, dir)
    && Stock(s.mem.heap, s.pages) == StockAt(k, dir, p, i)
    && (forall q :: p + i <= q < p + n ==> V.View(s.mem, dir, q) == V.View(k.mem, dir, q))
    && (forall q :: p + i <= q < p + n ==>
          (HasTable0(s, dir, Entry(q)) <==> HasTable0(k, dir, Entry(q)) || (i > 0 && Entry(q) == Entry(p + i - 1))))
    && (forall w :: 0 <= w < V.ENTRIES ==> s.mem.words[w] == k.mem.words[w])
    && NoneShare(s.mem, dir, p + i, p + n)
  }

  ghost predicate OnPlan(k: Kernel, s: Kernel, dir: int, p: Page, i: nat, n: nat) {
    forall key: nat :: OnPlanBody(k, s, dir, p, i, n, key)
  }

  lemma SameEntry(p: Page, i: nat)
    requires 0 < i && p + i < ALL_PAGES
    ensures Entry(p + i) == Entry(p + i - 1) <==> (p + i) % V.ENTRIES != 0
  {
  }

  /** On plan, the page whose turn it is is granted exactly when the plan says so. */
  lemma GrantedOnPlan(k: Kernel, s: Kernel, dir: int, p: Page, i: nat, n: nat)
    requires i < n && OnPlan(k, s, dir, p, i, n) && V.WellFormed(s.mem, dir)
    ensures p + n <= ALL_PAGES && V.WellFormed(k.mem, dir)
    ensures Granted(s, dir, p + i) <==> (NeedsTable(k, dir, p, i) ==> TableGranted(k, dir, p, i))
    ensures Granted(s, dir, p + i) ==> (V.VirtToPhys(s.mem, dir, p + i) == 0 <==> V.View(k.mem, dir, p + i) == 0)
    ensures HasTable0(s, dir, Entry(p + i)) <==> !NeedsTable(k, dir, p, i)
  {
    assert OnPlanBody(k, s, dir, p, i, n, 0);
    TableOfTurn(k, s, dir, p, i, n);
    LookUpOfTurn(k, s, dir, p, i, n);
  }

  lemma TableOfTurn(k: Kernel, s: Kernel, dir: int, p: Page, i: nat, n: nat)
    requires i < n && OnPlan(k, s, dir, p, i, n) && V.WellFormed(s.mem, dir) && V.WellFormed(k.mem, dir) && p + n <= ALL_PAGES
    ensures HasTable0(s, dir, Entry(p + i)) <==> !NeedsTable(k, dir, p, i)
  {
    if i > 0 {
      SameEntry(p, i);
    }
    TableOnPlan(k, s, dir, p, i, n, p + i);
  }

  lemma LookUpOfTurn(k: Kernel, s: Kernel, dir: int, p: Page, i: nat, n: nat)
    requires i < n && OnPlan(k, s, dir, p, i, n) && V.WellFormed(s.mem, dir) && V.WellFormed(k.mem, dir) && p + n <= ALL_PAGES
    ensures Granted(s, dir, p + i) ==> (V.VirtToPhys(s.mem, dir, p + i) == 0 <==> V.View(k.mem, dir, p + i) == 0)
  {
    assert V.View(s.mem, dir, p + i) == V.View(k.mem, dir, p + i) by {
      assert OnPlanBody(k, s, dir, p, i, n, 0);
    }
    V.VirtToPhysExact(s.mem, dir, p + i);
  }

  /** A granted round leaves the low page of memory alone. */
  lemma LowWordsKept(s: Kernel, dir: int, q: Page, r: Kernel, w: nat)
    requires V.WellFormed(s.mem, dir) && Granted(s, dir, q) && Round(s, dir, q, r) && w < V.ENTRIES
    ensures V.WellFormed(r.mem, dir) && r.mem.words[w] == s.mem.words[w]
  {
    assert RoundBody(s, dir, q, r, 0);
    BackKeepsWellFormed(s, dir, q);
    if V.VirtToPhys(s.mem, dir, q) == 0 {
      TakeFrameKeeps(s, dir);
      SameWordsSameView(s.mem, TakeFrame(s).mem, dir, q);
      MapKeepsLow(TakeFrame(s).mem, dir, Wrap(P.PageAlloc(s.pages).addr), q, w);
    }
  }

  lemma MapKeepsLow(m: V.Memory, dir: int, frame: nat, q: Page, w: nat)
    requires V.WellFormed(m, dir) && frame < WORD && w < V.ENTRIES && V.TableFor(m, dir, q / V.ENTRIES).1 != 0
    ensures |V.Map(m, dir, frame, q, 3).words| == V.LOW_WORDS && V.Map(m, dir, frame, q, 3).words[w] == m.words[w]
  {
    V.TableForInMemory(m, dir, q / V.ENTRIES);
    V.MapWords(m, dir, frame, q, 3);
    AboveLowPage(dir, q / V.ENTRIES);
    AboveLowPage(V.V2P(V.TableFor(m, dir, q / V.ENTRIES).1), q % V.ENTRIES);
  }

  lemma AboveLowPage(a: int, i: nat)
    requires V.PageAligned(a)
    ensures a / 4 + i >= V.ENTRIES
  {
  }

  /** The stock after a granted round. */
  lemma StockKept(k: Kernel, s: Kernel, dir: int, p: Page, i: nat, n: nat, r: Kernel)
    requires i < n && OnPlan(k, s, dir, p, i, n) && V.WellFormed(s.mem, dir)
    requires p + n <= ALL_PAGES && Granted(s, dir, p + i) && Round(s, dir, p + i, r)
    ensures V.WellFormed(k.mem, dir) && Stock(r.mem.heap, r.pages) == StockAt(k, dir, p, i + 1)
  {
    assert OnPlanBody(k, s, dir, p, i, n, 0) && RoundBody(s, dir, p + i, r, 0);
    GrantedOnPlan(k, s, dir, p, i, n);
    if V.VirtToPhys(s.mem, dir, p + i) == 0 {
      var k1 := TakeFrame(s);
      TakeFrameKeeps(s, dir);
      SameWordsSameView(s.mem, k1.mem, dir, p + i);
      V.MapWords(k1.mem, dir, Wrap(P.PageAlloc(s.pages).addr), p + i, 3);
    }
  }

  // ----- the other pages

  lemma OtherSlot(q: nat, r: nat)
    requires q != r && q / V.ENTRIES == r / V.ENTRIES
    ensures q % V.ENTRIES != r % V.ENTRIES
  {
  }

  /** A page in another slot, or of another table, is as it was. */
  lemma OtherPageKept(s: Kernel, dir: int, vp: Page, r: Kernel, q: Page)
    requires V.WellFormed(s.mem, dir) && V.WellFormed(r.mem, dir) && Round(s, dir, vp, r)
    requires q % V.ENTRIES != vp % V.ENTRIES || V.TableAt(r.mem, dir, Entry(q)) != V.TableAt(r.mem, dir, Entry(vp))
    ensures V.View(r.mem, dir, q) == V.View(s.mem, dir, q)
  {
    assert RoundBody(s, dir, vp, r, 0);
    if V.VirtToPhys(s.mem, dir, vp) == 0 {
      BackView(s, dir, vp, q);
    }
  }

  lemma TableAfterGrant(s: Kernel, dir: int, q: Page, r: Kernel)
    requires V.WellFormed(s.mem, dir) && Granted(s, dir, q) && Round(s, dir, q, r)
    ensures V.WellFormed(r.mem, dir) && V.TableAt(r.mem, dir, Entry(q)) != 0
  {
    assert RoundBody(s, dir, q, r, 0);
    BackPageExact(s, dir, q);
  }

  lemma TableBelow(m: V.Memory, dir: int, e: nat)
    requires V.WellFormed(m, dir) && e < V.ENTRIES
    ensures V.TableAt(m, dir, e) == 0 || V.TableAt(m, dir, e) < m.heap - V.KERNEL_VIRT
  {
  }

  /** The table of the round's entry is that of no entry that did not have it before. */
  lemma TableIsOwn(s: Kernel, dir: int, q: Page, r: Kernel, e: nat)
    requires V.WellFormed(s.mem, dir) && Granted(s, dir, q) && Round(s, dir, q, r) && e < V.ENTRIES && e != Entry(q)
    requires V.TableAt(s.mem, dir, Entry(q)) != 0 ==> V.TableAt(s.mem, dir, e) != V.TableAt(s.mem, dir, Entry(q))
    ensures V.WellFormed(r.mem, dir) && V.TableAt(r.mem, dir, Entry(q)) != 0
    ensures V.TableAt(r.mem, dir, Entry(q)) != V.TableAt(s.mem, dir, e) == V.TableAt(r.mem, dir, e)
  {
    assert RoundBody(s, dir, q, r, 0);
    BackTables(s, dir, q, Entry(q));
    BackTables(s, dir, q, e);
    TableAfterGrant(s, dir, q, r);
    TableBelow(s.mem, dir, e);
  }

  ghost predicate InTurnBody(k: Kernel, s: Kernel, dir: int, p: Page, i: nat, n: nat, r: Kernel, key: nat) {
    && i < n && p + n <= ALL_PAGES && V.WellFormed(k.mem, dir) && V.WellFormed(s.mem, dir) && V.WellFormed(r.mem, dir)
    && OnPlan(k, s, dir, p, i, n) && Granted(s, dir, p + i) && Round(s, dir, p + i, r)
  }

  /** A granted round of the move leads from s to r; opened by an instance. */
  ghost predicate InTurn(k: Kernel, s: Kernel, dir: int, p: Page, i: nat, n: nat, r: Kernel) {
    forall key: nat :: InTurnBody(k, s, dir, p, i, n, r, key)
  }

  lemma StillDiffer(k: Kernel, s: Kernel, dir: int, p: Page, i: nat, n: nat, a: nat, b: nat)
    requires OnPlan(k, s, dir, p, i, n) && V.WellFormed(s.mem, dir) && p + n <= ALL_PAGES
    requires p + i <= a < p + n && p + i <= b < p + n
    ensures Differ(s.mem, dir, a, b)
  {
    assert OnPlanBody(k, s, dir, p, i, n, 0);
  }

  lemma TablesDiffer(k: Kernel, s: Kernel, dir: int, p: Page, i: nat, n: nat, r: Kernel, q: nat)
    requires InTurn(k, s, dir, p, i, n, r) && p + i < q < p + n <= ALL_PAGES && Entry(q) != Entry(p + i)
    ensures V.WellFormed(s.mem, dir) && V.WellFormed(r.mem, dir)
    ensures V.TableAt(r.mem, dir, Entry(p + i)) != V.TableAt(r.mem, dir, Entry(q)) == V.TableAt(s.mem, dir, Entry(q))
  {
    assert InTurnBody(k, s, dir, p, i, n, r, 0);
    StillDiffer(k, s, dir, p, i, n, p + i, q);
    TableIsOwn(s, dir, p + i, r, Entry(q));
  }

  /** Pages still to come are not touched by the round: no other entry of the move has its table. */
  lemma ViewKept(k: Kernel, s: Kernel, dir: int, p: Page, i: nat, n: nat, r: Kernel, q: nat)
    requires InTurn(k, s, dir, p, i, n, r) && p + i < q < p + n <= ALL_PAGES
    ensures V.WellFormed(k.mem, dir) && V.WellFormed(r.mem, dir) && V.View(r.mem, dir, q) == V.View(k.mem, dir, q)
  {
    if Entry(q) != Entry(p + i) {
      TablesDiffer(k, s, dir, p, i, n, r, q);
    } else {
      OtherSlot(q, p + i);
    }
    assert InTurnBody(k, s, dir, p, i, n, r, 0);
    OtherPageKept(s, dir, p + i, r, q);
    assert OnPlanBody(k, s, dir, p, i, n, 0);
  }

  lemma EntriesGrow(p: Page, i: nat, q: nat)
    requires p + i < q < ALL_PAGES && Entry(q) != Entry(p + i)
    ensures i > 0 ==> Entry(q) != Entry(p + i - 1)
  {
  }

  lemma TableOnPlan(k: Kernel, s: Kernel, dir: int, p: Page, i: nat, n: nat, q: nat)
    requires OnPlan(k, s, dir, p, i, n) && p + i <= q < p + n <= ALL_PAGES
    requires V.WellFormed(s.mem, dir) && V.WellFormed(k.mem, dir)
    ensures HasTable0(s, dir, Entry(q)) <==> HasTable0(k, dir, Entry(q)) || (i > 0 && Entry(q) == Entry(p + i - 1))
  {
    assert OnPlanBody(k, s, dir, p, i, n, 0);
  }

  /** The tables of the entries still to come. */
  lemma TablesKept(k: Kernel, s: Kernel, dir: int, p: Page, i: nat, n: nat, r: Kernel, q: nat)
    requires InTurn(k, s, dir, p, i, n, r) && p + i < q < p + n <= ALL_PAGES
    ensures V.WellFormed(k.mem, dir) && V.WellFormed(r.mem, dir)
    ensures HasTable0(r, dir, Entry(q)) <==> HasTable0(k, dir, Entry(q)) || Entry(q) == Entry(p + i)
  {
    assert InTurnBody(k, s, dir, p, i, n, r, 0);
    if Entry(q) == Entry(p + i) {
      TableAfterGrant(s, dir, p + i, r);
    } else {
      TablesDiffer(k, s, dir, p, i, n, r, q);
      EntriesGrow(p, i, q);
      TableOnPlan(k, s, dir, p, i, n, q);
    }
  }

  lemma DifferKept(k: Kernel, s: Kernel, dir: int, p: Page, i: nat, n: nat, r: Kernel, a: nat, b: nat)
    requires InTurn(k, s, dir, p, i, n, r) && p + i < a < p + n <= ALL_PAGES && p + i < b < p + n
    ensures V.WellFormed(r.mem, dir) && Differ(r.mem, dir, a, b)
  {
    if Entry(a) != Entry(b) {
      if Entry(a) != Entry(p + i) {
        TablesDiffer(k, s, dir, p, i, n, r, a);
      }
      if Entry(b) != Entry(p + i) {
        TablesDiffer(k, s, dir, p, i, n, r, b);
      }
      assert InTurnBody(k, s, dir, p, i, n, r, 0);
      StillDiffer(k, s, dir, p, i, n, a, b);
    }
  }

  lemma ShareKept(k: Kernel, s: Kernel, dir: int, p: Page, i: nat, n: nat, r: Kernel)
    requires InTurn(k, s, dir, p, i, n, r) && p + n <= ALL_PAGES && V.WellFormed(r.mem, dir)
    ensures NoneShare(r.mem, dir, p + i + 1, p + n)
  {
    forall a, b | p + i + 1 <= a < p + n && p + i + 1 <= b < p + n ensures Differ(r.mem, dir, a, b) {
      DifferKept(k, s, dir, p, i, n, r, a, b);
    }
  }

  lemma LowKept(k: Kernel, s: Kernel, dir: int, p: Page, i: nat, n: nat, r: Kernel, w: nat)
    requires InTurn(k, s, dir, p, i, n, r) && w < V.ENTRIES
    ensures V.WellFormed(k.mem, dir) && V.WellFormed(r.mem, dir) && r.mem.words[w] == k.mem.words[w]
  {
    assert InTurnBody(k, s, dir, p, i, n, r, 0);
    LowWordsKept(s, dir, p + i, r, w);
    assert OnPlanBody(k, s, dir, p, i, n, 0);
  }

  /** A granted round stays on plan. */
  lemma PlanStep(k: Kernel, s: Kernel, dir: int, p: Page, i: nat, n: nat, r: Kernel)
    requires InTurn(k, s, dir, p, i, n, r)
    ensures OnPlan(k, r, dir, p, i + 1, n)
  {
    assert i < n && p + n <= ALL_PAGES && V.WellFormed(k.mem, dir) && V.WellFormed(r.mem, dir)
        && Stock(r.mem.heap, r.pages) == StockAt(k, dir, p, i + 1) by {
      assert InTurnBody(k, s, dir, p, i, n, r, 0);
      StockKept(k, s, dir, p, i, n, r);
    }
    ShareKept(k, s, dir, p, i, n, r);
    forall q | p + i + 1 <= q < p + n
      ensures V.View(r.mem, dir, q) == V.View(k.mem, dir, q)
      ensures HasTable0(r, dir, Entry(q)) <==> HasTable0(k, dir, Entry(q)) || Entry(q) == Entry(p + i)
    {
      ViewKept(k, s, dir, p, i, n, r, q);
      TablesKept(k, s, dir, p, i, n, r, q);
    }
    forall w | 0 <= w < V.ENTRIES ensures r.mem.words[w] == k.mem.words[w] {
      LowKept(k, s, dir, p, i, n, r, w);
    }
  }

  lemma PlanOne(k: Kernel, dir: int, p: Page, i: nat, n: nat)
    requires Ready(k, dir) && i < n && p + n <= ALL_PAGES && OnPlan(k, BackPages(k, dir, p, i), dir, p, i, n)
    ensures GrantedAt(k, dir, p, i) <==> PlannedAt(k, dir, p, i)
    ensures GrantedAt(k, dir, p, i) ==> OnPlan(k, BackPages(k, dir, p, i + 1), dir, p, i + 1, n)
  {
    assert ReadyBody(k, dir, 0);
    RoundOfLoop(k, dir, p, i);
    assert PageNo(p, i) == p + i;
    RoundOnPlan(k, BackPages(k, dir, p, i), dir, p, i, n, BackPages(k, dir, p, i + 1));
  }

  lemma RoundOnPlan(k: Kernel, s: Kernel, dir: int, p: Page, i: nat, n: nat, r: Kernel)
    requires V.WellFormed(k.mem, dir) && i < n && p + n <= ALL_PAGES && OnPlan(k, s, dir, p, i, n)
    requires Ready(s, dir) && Round(s, dir, p + i, r)
    ensures Granted(s, dir, p + i) <==> PlannedAt(k, dir, p, i)
    ensures Granted(s, dir, p + i) ==> OnPlan(k, r, dir, p, i + 1, n)
  {
    assert ReadyBody(s, dir, 0) && RoundBody(s, dir, p + i, r, 0);
    GrantedOnPlan(k, s, dir, p, i, n);
    if Granted(s, dir, p + i) {
      BackKeepsWellFormed(s, dir, p + i);
      PlanStep(k, s, dir, p, i, n, r);
    }
  }

  ghost predicate BothBody(k: Kernel, dir: int, p: Page, i: nat, key: nat) {
    Ready(k, dir) && p + i <= ALL_PAGES && AllGranted(k, dir, p, i) && Planned(k, dir, p, i)
  }

  /** Every page so far is granted, and planned for; opened by an instance, like the next. */
  ghost predicate Both(k: Kernel, dir: int, p: Page, i: nat) {
    forall key: nat :: BothBody(k, dir, p, i, key)
  }

  ghost predicate NeitherBody(k: Kernel, dir: int, p: Page, i: nat, key: nat) {
    Ready(k, dir) && p + i <= ALL_PAGES && !AllGranted(k, dir, p, i) && !Planned(k, dir, p, i)
  }

  ghost predicate Neither(k: Kernel, dir: int, p: Page, i: nat) {
    forall key: nat :: NeitherBody(k, dir, p, i, key)
  }

  lemma BothNext(k: Kernel, dir: int, p: Page, i: nat)
    requires Both(k, dir, p, i) && Ready(k, dir) && p + i < ALL_PAGES
    requires GrantedAt(k, dir, p, i) && PlannedAt(k, dir, p, i)
    ensures Both(k, dir, p, i + 1)
  {
    assert BothBody(k, dir, p, i, 0);
  }

  lemma NeitherNext(k: Kernel, dir: int, p: Page, i: nat)
    requires Ready(k, dir) && p + i < ALL_PAGES
    requires Neither(k, dir, p, i) || (!GrantedAt(k, dir, p, i) && !PlannedAt(k, dir, p, i))
    ensures Neither(k, dir, p, i + 1)
  {
    if Neither(k, dir, p, i) {
      assert NeitherBody(k, dir, p, i, 0);
    }
  }

  ghost predicate AgreeBody(k: Kernel, dir: int, p: Page, i: nat, n: nat, key: nat) {
    Ready(k, dir) && i <= n && p + n <= ALL_PAGES && Both(k, dir, p, i) && OnPlan(k, BackPages(k, dir, p, i), dir, p, i, n)
  }

  ghost predicate Agree(k: Kernel, dir: int, p: Page, i: nat, n: nat) {
    forall key: nat :: AgreeBody(k, dir, p, i, n, key)
  }

  lemma PlanStart(k: Kernel, dir: int, p: Page, n: nat)
    requires Ready(k, dir) && NoneShares(k, dir, p, n)
    ensures Agree(k, dir, p, 0, n)
  {
    assert NoneSharesBody(k, dir, p, n, 0);
    assert BackPages(k, dir, p, 0) == k;
  }

  lemma PlanNext(k: Kernel, dir: int, p: Page, i: nat, n: nat)
    requires Ready(k, dir) && i < n && p + n <= ALL_PAGES && Agree(k, dir, p, i, n)
    ensures Neither(k, dir, p, i + 1) || Agree(k, dir, p, i + 1, n)
  {
    assert AgreeBody(k, dir, p, i, n, 0);
    PlanOne(k, dir, p, i, n);
    if GrantedAt(k, dir, p, i) {
      BothNext(k, dir, p, i);
    } else {
      NeitherNext(k, dir, p, i);
    }
  }

  lemma {:induction false} PlanUpTo(k: Kernel, dir: int, p: Page, i: nat, n: nat)
    requires Ready(k, dir) && i <= n && p + n <= ALL_PAGES && NoneShares(k, dir, p, n)
    ensures Neither(k, dir, p, i) || Agree(k, dir, p, i, n)
    decreases i
  {
    if i == 0 {
      PlanStart(k, dir, p, n);
    } else {
      PlanUpTo(k, dir, p, i - 1, n);
      if Agree(k, dir, p, i - 1, n) {
        PlanNext(k, dir, p, i - 1, n);
      } else {
        NeitherNext(k, dir, p, i - 1);
      }
    }
  }

  /**
   Main result: if no two directory entries of the move share a table, every page passed is
   granted in its turn exactly when the state before the move plans for it.
   */
  lemma PlanExact(k: Kernel, dir: int, p: Page, n: nat)
    requires Ready(k, dir) && p + n <= ALL_PAGES && NoneShares(k, dir, p, n)
    ensures AllGranted(k, dir, p, n) <==> Planned(k, dir, p, n)
  {
    PlanUpTo(k, dir, p, n, n);
    assert NeitherBody(k, dir, p, n, 0) || AgreeBody(k, dir, p, n, n, 0);
    assert NeitherBody(k, dir, p, n, 0) || BothBody(k, dir, p, n, 0);
  }
}
