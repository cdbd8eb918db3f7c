/**
 The frames sbrk puts under the heap: as long as the frame allocator has any left, each page
 it maps gets a frame of its own.
 */
module SbrkFrames {
  import opened Common
  import opened Bits
  import opened HeapRuns
  import opened SbrkSpec
  import opened SbrkRuns
  import P = PhysSpec
  import V = PagingSpec

  /** The round at page q maps it. */
  predicate MapsPage(k: Kernel, dir: int, q: Page)
    requires Ready(k, dir)
  {
    Granted(k, dir, q) && !Mapped(k, dir, q)
  }

  /** The frame that a round would take, or -1. */
  function NextFrame(k: Kernel): int {
    P.PageAlloc(k.pages).addr
  }

  /** A frame that nobody held: a whole page at or above 4 MB. */
  predicate IsNewFrame(a: int, held: set<int>) {
    a !in held && P.DIRECTORY <= a < WORD && a % P.PAGE == 0
  }

  lemma RoundTakes(k: Kernel, dir: int, q: Page, r: Kernel)
    requires Ready(k, dir) && Round(k, dir, q, r)
    ensures r.pages == k.pages || r.pages == P.PageAlloc(k.pages).pages
    ensures MapsPage(k, dir, q) ==> r.pages == P.PageAlloc(k.pages).pages
  {
    assert ReadyBody(k, dir, 0) && RoundBody(k, dir, q, r, 0);
    V.VirtToPhysExact(k.mem, dir, q);
  }

  /** A round that maps its page takes a new frame, unless there is none, and the page holds that frame. */
  lemma RoundFrame(k: Kernel, dir: int, q: Page, r: Kernel, d: nat, held: set<int>) returns (d': nat, held': set<int>)
    requires Ready(k, dir) && Round(k, dir, q, r) && P.Inv(k.pages, d, held)
    ensures P.Inv(r.pages, d', held') && held <= held'
    ensures NextFrame(k) != P.ERR_NO_MEM ==> IsNewFrame(NextFrame(k), held)
    ensures MapsPage(k, dir, q) && NextFrame(k) != P.ERR_NO_MEM ==> NextFrame(k) in held'
  {
    RoundTakes(k, dir, q, r);
    P.AllocStep(k.pages, d, held);
    if r.pages == k.pages && !MapsPage(k, dir, q) {
      d', held' := d, held;
    } else {
      d' := P.NextCurrent(k.pages, d);
      held' := if NextFrame(k) == P.ERR_NO_MEM then held else held + {NextFrame(k)};
    }
  }

  predicate MapsAt(k: Kernel, dir: int, p: Page, i: nat)
    requires Ready(k, dir) && i < ALL_PAGES
  {
    MapsPage(BackPages(k, dir, p, i), dir, PageNo(p, i))
  }

  function FrameAt(k: Kernel, dir: int, p: Page, i: nat): int
    requires Ready(k, dir) && i < ALL_PAGES
  {
    NextFrame(BackPages(k, dir, p, i))
  }

  /** The frames mapped in the first n rounds are held from then on. */
  lemma {:induction false} FramesHeld(k: Kernel, dir: int, p: Page, n: nat, d: nat, held: set<int>)
    returns (d': nat, held': set<int>)
    requires Ready(k, dir) && n <= ALL_PAGES && P.Inv(k.pages, d, held)
    ensures P.Inv(BackPages(k, dir, p, n).pages, d', held') && held <= held'
    ensures forall i :: 0 <= i < n && MapsAt(k, dir, p, i) && FrameAt(k, dir, p, i) != P.ERR_NO_MEM ==>
              FrameAt(k, dir, p, i) in held'
    decreases n
  {
    d', held' := d, held;
    if n > 0 {
      var d1, held1 := FramesHeld(k, dir, p, n - 1, d, held);
      RoundOfLoop(k, dir, p, n - 1);
      d', held' := RoundFrame(BackPages(k, dir, p, n - 1), dir, PageNo(p, n - 1), BackPages(k, dir, p, n), d1, held1);
    }
  }

  /** Two rounds that map their pages take different frames, both new. */
  lemma FramesDiffer(k: Kernel, dir: int, p: Page, i: nat, j: nat, d: nat, held: set<int>)
    requires Ready(k, dir) && i < j < ALL_PAGES && P.Inv(k.pages, d, held)
    requires MapsAt(k, dir, p, i) && FrameAt(k, dir, p, i) != P.ERR_NO_MEM && FrameAt(k, dir, p, j) != P.ERR_NO_MEM
    ensures IsNewFrame(FrameAt(k, dir, p, i), held) && IsNewFrame(FrameAt(k, dir, p, j), held)
    ensures FrameAt(k, dir, p, i) != FrameAt(k, dir, p, j)
  {
    var di, heldi := FramesHeld(k, dir, p, i, d, held);
    P.AllocStep(BackPages(k, dir, p, i).pages, di, heldi);
    var dj, heldj := FramesHeld(k, dir, p, j, d, held);
    P.AllocStep(BackPages(k, dir, p, j).pages, dj, heldj);
  }

  ghost predicate TakesWordBody(k: Kernel, w: nat, key: nat) {
    w == FrameWord(k)
  }

  /** w is the table word of the next frame; opened by an instance. */
  ghost predicate TakesWord(k: Kernel, w: nat) {
    forall key: nat :: TakesWordBody(k, w, key)
  }

  /** And each page still holds its word at the end. */
  lemma WordStays(k: Kernel, dir: int, p: Page, n: nat, i: nat) returns (w: nat)
    requires Ready(k, dir) && i < n <= ALL_PAGES && MapsAt(k, dir, p, i)
    ensures TakesWord(BackPages(k, dir, p, i), w) && PageWord(BackPages(k, dir, p, n), dir, PageNo(p, i)) == w
  {
    var q := PageNo(p, i);
    RoundOfLoop(k, dir, p, i);
    w := FrameMapped(BackPages(k, dir, p, i), dir, q, BackPages(k, dir, p, i + 1));
    PagesKeepMapped(k, dir, p, i + 1, n, q, w);
    MappedIfHolds(BackPages(k, dir, p, n), dir, q, w);
  }

  lemma FrameStays(k: Kernel, dir: int, p: Page, n: nat, i: nat)
    requires Ready(k, dir) && i < n <= ALL_PAGES && MapsAt(k, dir, p, i)
    requires FrameAt(k, dir, p, i) % P.PAGE == 0 && 0 <= FrameAt(k, dir, p, i) < WORD
    ensures PageWord(BackPages(k, dir, p, n), dir, PageNo(p, i)) == FrameAt(k, dir, p, i) + 3
  {
    var w := WordStays(k, dir, p, n, i);
    FrameWordIs(BackPages(k, dir, p, i), w);
  }

  /** A page that the move maps holds a new frame exactly when there was one left in its turn. */
  lemma FrameExact(k: Kernel, dir: int, p: Page, n: nat, i: nat, d: nat, held: set<int>)
    requires Ready(k, dir) && i < n <= ALL_PAGES && P.Inv(k.pages, d, held) && MapsAt(k, dir, p, i)
    ensures IsNewFrame(PageWord(BackPages(k, dir, p, n), dir, PageNo(p, i)) - 3, held) <==> FrameAt(k, dir, p, i) != P.ERR_NO_MEM
  {
    var w := WordStays(k, dir, p, n, i);
    var di, heldi := FramesHeld(k, dir, p, i, d, held);
    WordExact(BackPages(k, dir, p, i), w, di, heldi, held);
  }

  lemma WordExact(k: Kernel, w: nat, d: nat, held': set<int>, held: set<int>)
    requires TakesWord(k, w) && P.Inv(k.pages, d, held') && held <= held'
    ensures IsNewFrame(w - 3, held) <==> NextFrame(k) != P.ERR_NO_MEM
  {
    if NextFrame(k) != P.ERR_NO_MEM {
      P.AllocStep(k.pages, d, held');
      FrameWordIs(k, w);
    } else {
      assert TakesWordBody(k, w, 0);
      OrThree(Wrap(NextFrame(k)));
    }
  }

  lemma OrThree(a: nat)
    requires a % 4 == 3
    ensures Or(a, 3) == a
  {
    OrOdd(a, 3);
    OrOdd(a / 2, 1);
    OrWithZero(a / 2 / 2);
  }

  lemma OrOdd(a: nat, b: nat)
    requires a % 2 == 1
    ensures Or(a, b) == 2 * Or(a / 2, b / 2) + 1
  {
  }

  lemma FrameMapped(k: Kernel, dir: int, q: Page, r: Kernel) returns (w: nat)
    requires Ready(k, dir) && Round(k, dir, q, r) && MapsPage(k, dir, q)
    ensures HoldsWord(r, dir, q, w) && TakesWord(k, w) && w != 0
  {
    w := FrameWord(k);
    assert ReadyBody(k, dir, 0) && RoundBody(k, dir, q, r, 0);
    FrameWordNonZero(k);
    BackPageExact(k, dir, q);
  }

  lemma FrameWordIs(k: Kernel, w: nat)
    requires NextFrame(k) % P.PAGE == 0 && 0 <= NextFrame(k) < WORD && TakesWord(k, w)
    ensures w == NextFrame(k) + 3
  {
    assert TakesWordBody(k, w, 0);
    P.WrapSmall(NextFrame(k));
    V.OrPage(NextFrame(k), 3);
  }

  /** Rounds i and j map their pages, and there are frames for them. */
  predicate BothMap(k: Kernel, dir: int, p: Page, i: nat, j: nat)
    requires Ready(k, dir) && i < ALL_PAGES && j < ALL_PAGES
  {
    && MapsAt(k, dir, p, i) && FrameAt(k, dir, p, i) != P.ERR_NO_MEM
    && MapsAt(k, dir, p, j) && FrameAt(k, dir, p, j) != P.ERR_NO_MEM
  }

  ghost predicate OwnFramesBody(r: Kernel, dir: int, q: Page, q': Page, held: set<int>, key: nat) {
    && Ready(r, dir)
    && var a, b := PageWord(r, dir, q) - 3, PageWord(r, dir, q') - 3;
       IsNewFrame(a, held) && IsNewFrame(b, held) && a != b
  }

  /** Pages q and q' hold different frames, both new; opened by an instance. */
  ghost predicate OwnFrames(r: Kernel, dir: int, q: Page, q': Page, held: set<int>) {
    forall key: nat :: OwnFramesBody(r, dir, q, q', held, key)
  }

  /**
   Main result: of the pages a move of the break maps while frames last, no two get the same
   frame, and every frame is a whole page at or above 4 MB that nobody held.
   */
  lemma MoveMapsDistinctFrames(k: Kernel, dir: int, p: Page, n: nat, i: nat, j: nat, d: nat, held: set<int>)
    requires Ready(k, dir) && i < j < n <= ALL_PAGES && P.Inv(k.pages, d, held) && BothMap(k, dir, p, i, j)
    ensures OwnFrames(BackPages(k, dir, p, n), dir, PageNo(p, i), PageNo(p, j), held)
  {
    FramesDiffer(k, dir, p, i, j, d, held);
    FrameStays(k, dir, p, n, i);
    FrameStays(k, dir, p, n, j);
    WordsOwn(BackPages(k, dir, p, n), dir, PageNo(p, i), PageNo(p, j), FrameAt(k, dir, p, i), FrameAt(k, dir, p, j), held);
  }

  lemma WordsOwn(r: Kernel, dir: int, q: Page, q': Page, a: int, b: int, held: set<int>)
    requires Ready(r, dir) && PageWord(r, dir, q) == a + 3 && PageWord(r, dir, q') == b + 3
    requires IsNewFrame(a, held) && IsNewFrame(b, held) && a != b
    ensures OwnFrames(r, dir, q, q', held)
  {
  }

  /** So it is for every run of heap calls from boot. */
  lemma EveryRunMapsDistinctFrames(k: Kernel, dir: int, calls: seq<Call>, i: nat, j: nat)
    requires LegalRun(Boot(), calls) && Ready(k, dir) && k.pages == P.BootPages().pages
    requires i < j < BreakPage(Run(Boot(), calls).heap.top) - BOOT_PAGE && BothMap(k, dir, BOOT_PAGE, i, j)
    ensures Good(Boot())
    ensures OwnFrames(RunKernel(k, dir, Boot(), calls), dir, BOOT_PAGE + i, BOOT_PAGE + j, P.BootPages().held)
  {
    BootIsGood();
    P.BootPagesGood();
    RunMapsDistinctFrames(k, dir, Boot(), calls, i, j, 1, P.BootPages().held);
  }

  lemma RunMapsDistinctFrames(k: Kernel, dir: int, w: World, calls: seq<Call>, i: nat, j: nat, d: nat, held: set<int>)
    requires Good(w) && LegalRun(w, calls) && Ready(k, dir) && P.Inv(k.pages, d, held)
    requires i < j < BreakPage(Run(w, calls).heap.top) - BreakPage(w.heap.top)
    requires BothMap(k, dir, BreakPage(w.heap.top), i, j)
    ensures OwnFrames(RunKernel(k, dir, w, calls), dir, BreakPage(w.heap.top) + i, BreakPage(w.heap.top) + j, held)
  {
    RunMoves(k, dir, w, calls);
    AfterFrames(k, dir, w.heap.top, Run(w, calls).heap.top, RunKernel(k, dir, w, calls), i, j, d, held);
  }

  lemma RunMoves(k: Kernel, dir: int, w: World, calls: seq<Call>)
    requires Good(w) && LegalRun(w, calls) && Ready(k, dir)
    ensures Moved(k, dir, w.heap.top, Run(w, calls).heap.top, RunKernel(k, dir, w, calls))
  {
    RunIsOneMove(k, dir, w, calls);
  }

  lemma AfterFrames(k: Kernel, dir: int, top: int, top': int, r: Kernel, i: nat, j: nat, d: nat, held: set<int>)
    requires Ready(k, dir) && P.Inv(k.pages, d, held) && i < j < BreakPage(top') - BreakPage(top)
    requires BothMap(k, dir, BreakPage(top), i, j) && Ready(r, dir) && Moved(k, dir, top, top', r)
    ensures OwnFrames(r, dir, BreakPage(top) + i, BreakPage(top) + j, held)
  {
    assert MovedBody(k, dir, top, top', r, 0);
    var p, q := BreakPage(top), BreakPage(top');
    MoveMapsDistinctFrames(k, dir, p, PageGap(p, q), i, j, d, held);
    assert PageNo(p, i) == p + i && PageNo(p, j) == p + j;
  }
}
