/**
 ext2_touch as a whole: what it changes, that it keeps the file system sound, and that every
 file it has written reads back.
 */
module Ext2Touch {
  import opened Common
  import opened Bitmaps
  import opened Bytes
  import opened Directory
  import opened Ext2Fill
  import opened Ext2Spec

  // ----- where inodes lie

  lemma SmallMod(x: nat, m: nat)
    requires x < m
    ensures x % m == x
  {
  }

  lemma InodeAt(fs: Disk, ino: nat)
    requires HasInode(fs, ino)
    ensures InodeBlock(fs, ino) == Table(fs) + (ino - 1) / 8 && InodeOffset(fs, ino) == (ino - 1) % 8 * INODE_SIZE
    ensures InTable(fs, InodeBlock(fs, ino))
  {
    SmallMod(ino - 1, PerGroup(fs));
  }

  ghost predicate SameShape(fs: Disk, gs: Disk) {
    && |gs| == |fs| && BlockMap(gs) == BlockMap(fs) && InodeMap(gs) == InodeMap(fs)
    && Table(gs) == Table(fs) && PerGroup(gs) == PerGroup(fs)
  }

  /** Inodes in blocks that agree are the same. */
  lemma SameInode(fs: Disk, gs: Disk, ino: nat)
    requires SameShape(fs, gs) && HasInode(fs, ino)
    requires At(gs, InodeBlock(fs, ino)) == At(fs, InodeBlock(fs, ino))
    ensures Inode(gs, ino) == Inode(fs, ino)
  {
  }

  lemma InodeIn(fs: Disk, gs: Disk, ino: nat, b: nat, p: nat)
    requires SameShape(fs, gs) && HasInode(fs, ino) && b == InodeBlock(fs, ino) && p == InodeOffset(fs, ino)
    ensures Inode(gs, ino) == At(gs, b)[p..p + INODE_SIZE]
  {
  }

  lemma SlotsOf(fs: Disk, ino: nat, j: nat)
    requires HasInode(fs, ino) && HasInode(fs, j) && InodeBlock(fs, j) == InodeBlock(fs, ino)
    ensures var p, q := InodeOffset(fs, ino), InodeOffset(fs, j);
            if ino == j then p == q else p + INODE_SIZE <= q || q + INODE_SIZE <= p
  {
    InodeAt(fs, ino);
    InodeAt(fs, j);
    SlotOffsets(ino - 1, j - 1);
  }

  /** The inodes lie in the table one behind the other, 128 bytes each. */
  lemma InodePlace(fs: Disk, ino: nat)
    requires HasInode(fs, ino)
    ensures InodeBlock(fs, ino) * BLOCK_SIZE + InodeOffset(fs, ino) == Table(fs) * BLOCK_SIZE + (ino - 1) * INODE_SIZE
  {
    SlotPlace(ino - 1, PerGroup(fs));
  }

  lemma SlotPlace(x: nat, n: nat)
    requires x < n
    ensures x % n * INODE_SIZE / BLOCK_SIZE * BLOCK_SIZE + x % n % 8 * INODE_SIZE == x * INODE_SIZE
  {
    assert x % n == x;
    assert x * INODE_SIZE / BLOCK_SIZE == x / 8;
  }

  /** Writing one inode leaves every other as it was. */
  lemma InodePut(fs: Disk, gs: Disk, ino: nat, inode: InodeBytes, j: nat, b: nat, p: nat)
    requires SameShape(fs, gs) && HasInode(fs, ino) && HasInode(fs, j)
    requires b == InodeBlock(fs, ino) && p == InodeOffset(fs, ino) && At(gs, b) == Put(At(fs, b), p, inode)
    requires InodeBlock(fs, j) != b ==> At(gs, InodeBlock(fs, j)) == At(fs, InodeBlock(fs, j))
    ensures Inode(gs, j) == if j == ino then inode else Inode(fs, j)
  {
    var c, q := InodeBlock(fs, j), InodeOffset(fs, j);
    InodeIn(fs, gs, j, c, q);
    if c == b {
      SlotsOf(fs, ino, j);
      SlotsApart(At(fs, b), p, inode, q);
    }
  }

  lemma SlotOffsets(x: nat, y: nat)
    requires x / 8 == y / 8
    ensures var p, q := x % 8 * INODE_SIZE, y % 8 * INODE_SIZE;
            if x == y then p == q else p + INODE_SIZE <= q || q + INODE_SIZE <= p
  {
  }

  lemma SlotsApart(b: Block, off: nat, inode: InodeBytes, p: nat)
    requires off + INODE_SIZE <= BLOCK_SIZE && p + INODE_SIZE <= BLOCK_SIZE
    requires p == off || p + INODE_SIZE <= off || off + INODE_SIZE <= p
    ensures Put(b, off, inode)[p..p + INODE_SIZE] == if p == off then inode else b[p..p + INODE_SIZE]
  {
    var c := Put(b, off, inode);
    if p == off {
      assert c[p..p + INODE_SIZE] == inode;
    } else {
      assert c[p..p + INODE_SIZE] == b[p..p + INODE_SIZE];
    }
  }

  // ----- what touch changes

  /** The blocks with a role of their own in a run of touch, besides the data blocks. */
  predicate Special(fs: Disk, b: nat, ino: nat)
    requires HasInode(fs, ino)
  {
    b == BlockMap(fs) || b == InodeMap(fs) || b == Root(fs) || b == InodeBlock(fs, ino)
  }

  /**
   hs is fs with the blocks in own and inode ino taken, the inode written, and the root
   directory replaced by `block`.
   */
  ghost predicate ChangedBody(fs: Disk, hs: Disk, own: set<nat>, ino: nat, inode: InodeBytes, block: Block, key: nat) {
    && SameShape(fs, hs) && HasInode(fs, ino)
    && UsedBlocks(hs) == UsedBlocks(fs) + own && own <= FreeBlocks(fs)
    && UsedInodes(hs) == UsedInodes(fs) + {ino - 1} && ino - 1 !in UsedInodes(fs)
    && At(hs, Root(fs)) == block
    && At(hs, InodeBlock(fs, ino)) == Put(At(fs, InodeBlock(fs, ino)), InodeOffset(fs, ino), inode)
    && forall b: nat :: 3 <= b < |fs| && !Special(fs, b, ino) && !InUse(own, b) ==> At(hs, b) == At(fs, b)
  }

  ghost predicate Changed(fs: Disk, hs: Disk, own: set<nat>, ino: nat, inode: InodeBytes, block: Block) {
    forall key: nat :: ChangedBody(fs, hs, own, ino, inode, block, key)
  }

  /** Every other inode is kept. */
  lemma ChangedInode(fs: Disk, hs: Disk, own: set<nat>, ino: nat, inode: InodeBytes, block: Block, j: nat)
    requires BlocksSound(fs) && Changed(fs, hs, own, ino, inode, block) && HasInode(fs, j)
    ensures SameShape(fs, hs) && Inode(hs, j) == if j == ino then inode else Inode(fs, j)
  {
    assert BlocksSoundBody(fs, 0) && ChangedBody(fs, hs, own, ino, inode, block, 0);
    InodeAt(fs, ino);
    InodeAt(fs, j);
    var b := InodeBlock(fs, j);
    assert b != InodeBlock(fs, ino) ==> !Special(fs, b, ino);
    assert !InUse(own, b) by {
      assert Reserved(fs, b);
    }
    InodePut(fs, hs, ino, inode, j, InodeBlock(fs, ino), InodeOffset(fs, ino));
  }

  lemma ChangedRoot(fs: Disk, hs: Disk, own: set<nat>, ino: nat, inode: InodeBytes, block: Block)
    requires Sound(fs) && Changed(fs, hs, own, ino, inode, block)
    ensures SameShape(fs, hs) && HasInode(fs, 2) && Root(hs) == Root(fs) && Inode(hs, 2) == Inode(fs, 2)
  {
    RootInUse(fs);
    assert ino != 2 by {
      assert ChangedBody(fs, hs, own, ino, inode, block, 0);
    }
    ChangedInode(fs, hs, own, ino, inode, block, 2);
  }

  lemma RootInUse(fs: Disk)
    requires Sound(fs)
    ensures HasInode(fs, 2) && InUse(UsedInodes(fs), 2)
  {
    assert NamesSoundBody(fs, 0);
  }

  lemma SameReserved(fs: Disk, hs: Disk)
    requires SameShape(fs, hs) && Root(hs) == Root(fs)
    ensures Placed(fs) ==> Placed(hs)
    ensures forall b: nat :: Reserved(hs, b) <==> Reserved(fs, b)
  {
  }

  lemma StillSound(fs: Disk, hs: Disk, own: set<nat>)
    requires BlocksSound(fs) && SameShape(fs, hs) && Root(hs) == Root(fs) && UsedBlocks(hs) == UsedBlocks(fs) + own
    ensures BlocksSound(hs)
  {
    assert BlocksSoundBody(fs, 0);
    SameReserved(fs, hs);
    forall b: nat | b >= 1 && Reserved(hs, b) ensures InUse(UsedBlocks(hs), b) {
      assert InUse(UsedBlocks(fs), b);
    }
  }

  lemma ChangedBlocksSound(fs: Disk, hs: Disk, own: set<nat>, ino: nat, inode: InodeBytes, block: Block)
    requires Sound(fs) && Changed(fs, hs, own, ino, inode, block)
    ensures BlocksSound(hs)
  {
    ChangedRoot(fs, hs, own, ino, inode, block);
    ChangedFacts(fs, hs, own, ino, inode, block);
    StillSound(fs, hs, own);
  }

  lemma ChangedNamesSound(fs: Disk, hs: Disk, own: set<nat>, ino: nat, inode: InodeBytes, block: Block, e: Entry)
    requires Sound(fs) && Changed(fs, hs, own, ino, inode, block) && e.inode == ino
    requires Adds(At(fs, Root(fs)), block, e)
    ensures NamesSound(hs)
  {
    ChangedFacts(fs, hs, own, ino, inode, block);
    ChangedRoot(fs, hs, own, ino, inode, block);
    SameReserved(fs, hs);
    RootInUseEntries(fs);
    AddedInUse(At(fs, Root(fs)), block, e, UsedInodes(fs));
    NamesStillSound(fs, hs, ino, block);
  }

  lemma ChangedFacts(fs: Disk, hs: Disk, own: set<nat>, ino: nat, inode: InodeBytes, block: Block)
    requires Changed(fs, hs, own, ino, inode, block)
    ensures HasInode(fs, ino) && ino - 1 !in UsedInodes(fs) && UsedInodes(hs) == UsedInodes(fs) + {ino - 1}
    ensures own <= FreeBlocks(fs) && UsedBlocks(hs) == UsedBlocks(fs) + own && At(hs, Root(fs)) == block
  {
    assert ChangedBody(fs, hs, own, ino, inode, block, 0);
  }

  lemma RootInUseEntries(fs: Disk)
    requires NamesSound(fs)
    ensures DirectoryInUse(At(fs, Root(fs)), UsedInodes(fs))
  {
    assert NamesSoundBody(fs, 0);
  }

  lemma AddedInUse(b: seq<byte>, c: seq<byte>, e: Entry, s: set<nat>)
    requires DirectoryInUse(b, s) && Adds(b, c, e) && e.inode >= 1
    ensures DirectoryInUse(c, s + {e.inode - 1})
  {
    assert DirectoryInUseBody(b, s, 0) && AddsBody(b, c, e, 0);
    OneMoreInUse(Entries(b, 0), e, s);
  }

  lemma NamesStillSound(fs: Disk, hs: Disk, ino: nat, block: Block)
    requires NamesSound(fs) && SameShape(fs, hs) && (Placed(fs) ==> Placed(hs)) && Root(hs) == Root(fs)
    requires HasInode(fs, 2) && Inode(hs, 2) == Inode(fs, 2) && ino >= 1
    requires At(hs, Root(hs)) == block && UsedInodes(hs) == UsedInodes(fs) + {ino - 1}
    requires DirectoryInUse(block, UsedInodes(hs))
    ensures NamesSound(hs)
  {
    assert NamesSoundBody(fs, 0);
  }

  lemma OneMoreInUse(es: seq<Entry>, e: Entry, s: set<nat>)
    requires AllInUse(es, s) && e.inode >= 1
    ensures AllInUse(es + [e], s + {e.inode - 1})
  {
  }

  // ----- that this is what touch changes

  /** ms is fs with the blocks in own and inode ino taken; nothing else but the counts has changed. */
  ghost predicate TakenBothBody(fs: Disk, ms: Disk, own: set<nat>, ino: nat, key: nat) {
    && SameShape(fs, ms) && HasInode(fs, ino)
    && UsedBlocks(ms) == UsedBlocks(fs) + own && own <= FreeBlocks(fs)
    && UsedInodes(ms) == UsedInodes(fs) + {ino - 1} && ino - 1 !in UsedInodes(fs)
    && forall b: nat :: 3 <= b < |fs| && b != BlockMap(fs) && b != InodeMap(fs) && !InUse(own, b) ==> At(ms, b) == At(fs, b)
  }

  ghost predicate TakenBoth(fs: Disk, ms: Disk, own: set<nat>, ino: nat) {
    forall key: nat :: TakenBothBody(fs, ms, own, ino, key)
  }

  /** hs is ms with one inode, the root directory and the counts written. */
  ghost predicate FinishedBody(ms: Disk, ino: nat, inode: InodeBytes, root: nat, block: Block, hs: Disk, key: nat) {
    && SameShape(ms, hs) && HasInode(ms, ino)
    && forall b: nat :: 3 <= b < |ms| ==>
         At(hs, b) == if b == root then block
                      else if b == InodeBlock(ms, ino) then Put(At(ms, b), InodeOffset(ms, ino), inode)
                      else At(ms, b)
  }

  ghost predicate Finished(ms: Disk, ino: nat, inode: InodeBytes, root: nat, block: Block, hs: Disk) {
    forall key: nat :: FinishedBody(ms, ino, inode, root, block, hs, key)
  }

  lemma FinishedIsChanged(fs: Disk, ms: Disk, own: set<nat>, ino: nat, inode: InodeBytes, block: Block, hs: Disk)
    requires BlocksSound(fs) && TakenBoth(fs, ms, own, ino) && Finished(ms, ino, inode, Root(fs), block, hs)
    ensures Changed(fs, hs, own, ino, inode, block)
  {
    FinishedMaps(fs, ms, own, ino, inode, block, hs);
    FinishedPlaces(fs, ms, own, ino, inode, block, hs);
    forall b: nat | 3 <= b < |fs| && !Special(fs, b, ino) && !InUse(own, b) ensures At(hs, b) == At(fs, b) {
      FinishedOther(fs, ms, own, ino, inode, block, hs, b);
    }
  }

  lemma FinishedPlaces(fs: Disk, ms: Disk, own: set<nat>, ino: nat, inode: InodeBytes, block: Block, hs: Disk)
    requires BlocksSound(fs) && TakenBoth(fs, ms, own, ino) && Finished(ms, ino, inode, Root(fs), block, hs)
    ensures HasInode(fs, ino) && At(hs, Root(fs)) == block
    ensures At(hs, InodeBlock(fs, ino)) == Put(At(fs, InodeBlock(fs, ino)), InodeOffset(fs, ino), inode)
  {
    TablesKept(fs, ms, own, ino);
    assert TakenBothBody(fs, ms, own, ino, 0);
    TableIsApart(fs, ino);
    SameSlot(fs, ms, ino);
    assert FinishedBody(ms, ino, inode, Root(fs), block, hs, 0);
  }

  lemma SameSlot(fs: Disk, ms: Disk, ino: nat)
    requires SameShape(fs, ms) && HasInode(fs, ino)
    ensures HasInode(ms, ino) && InodeBlock(ms, ino) == InodeBlock(fs, ino) && InodeOffset(ms, ino) == InodeOffset(fs, ino)
  {
  }

  lemma FinishedOther(fs: Disk, ms: Disk, own: set<nat>, ino: nat, inode: InodeBytes, block: Block, hs: Disk, b: nat)
    requires BlocksSound(fs) && TakenBoth(fs, ms, own, ino) && Finished(ms, ino, inode, Root(fs), block, hs)
    requires HasInode(fs, ino) && 3 <= b < |fs| && !Special(fs, b, ino) && !InUse(own, b)
    ensures At(hs, b) == At(fs, b)
  {
    assert TakenBothBody(fs, ms, own, ino, 0);
    SameSlot(fs, ms, ino);
    assert FinishedBody(ms, ino, inode, Root(fs), block, hs, 0);
  }

  lemma FinishedMaps(fs: Disk, ms: Disk, own: set<nat>, ino: nat, inode: InodeBytes, block: Block, hs: Disk)
    requires BlocksSound(fs) && TakenBoth(fs, ms, own, ino) && Finished(ms, ino, inode, Root(fs), block, hs)
    ensures SameShape(fs, hs) && HasInode(fs, ino)
    ensures UsedBlocks(hs) == UsedBlocks(fs) + own && own <= FreeBlocks(fs)
    ensures UsedInodes(hs) == UsedInodes(fs) + {ino - 1} && ino - 1 !in UsedInodes(fs)
  {
    assert TakenBothBody(fs, ms, own, ino, 0) && FinishedBody(ms, ino, inode, Root(fs), block, hs, 0);
    TableIsApart(fs, ino);
    var b, i := BlockMap(fs), InodeMap(fs);
    assert At(hs, b) == At(ms, b) && At(hs, i) == At(ms, i);
  }

  /** The block of an inode is none of the others. */
  lemma TableIsApart(fs: Disk, ino: nat)
    requires BlocksSound(fs) && HasInode(fs, ino)
    ensures var b := InodeBlock(fs, ino);
            InTable(fs, b) && 3 <= b < |fs| && b != BlockMap(fs) && b != InodeMap(fs) && b != Root(fs)
    ensures 3 <= BlockMap(fs) < |fs| && 3 <= InodeMap(fs) < |fs| && 3 <= Root(fs) < |fs|
    ensures Root(fs) != BlockMap(fs) && Root(fs) != InodeMap(fs)
  {
    assert BlocksSoundBody(fs, 0);
    InodeAt(fs, ino);
  }

  /** After ext2_alloc_inode: one more inode in use, and for the blocks nothing has changed. */
  ghost predicate InodeTaken(fs: Disk, gs: Disk, ino: nat) {
    && SameShape(fs, gs) && HasInode(fs, ino) && ino - 1 !in UsedInodes(fs)
    && UsedInodes(gs) == UsedInodes(fs) + {ino - 1}
    && forall b: nat :: b != InodeMap(fs) ==> At(gs, b) == At(fs, b)
  }

  /** A change to one block past the headers. */
  lemma OneBlock(fs: Disk, gs: Disk, m: nat)
    requires 3 <= m < |fs| && |gs| == |fs| && gs == fs[m := gs[m]]
    ensures SameShape(fs, gs) && forall b: nat :: b != m ==> At(gs, b) == At(fs, b)
  {
    assert gs[1] == fs[1] && gs[2] == fs[2];
  }

  /** Free inode numbers lie in the first group. */
  lemma InodesInGroup(fs: Disk)
    requires Sound(fs)
    ensures 3 <= InodeMap(fs) < |fs| && forall k: nat :: k < BITS && k !in UsedInodes(fs) ==> k < PerGroup(fs)
  {
    assert NamesSoundBody(fs, 0);
  }

  lemma TakeInode(fs: Disk)
    requires Sound(fs)
    ensures var a := Allocate(fs, InodeMap(fs));
            if a.Exhausted? then forall k: nat :: k < BITS ==> k in UsedInodes(fs)
            else InodeTaken(fs, a.fs, a.num)
  {
    InodesInGroup(fs);
    var n := InodeMap(fs);
    AllocateMarks(fs, n);
    InodeMarked(fs, n, Allocate(fs, n));
  }

  lemma InodeMarked(fs: Disk, n: nat, a: Alloc)
    requires Sound(fs) && n == InodeMap(fs) && 3 <= n < |fs| && Marks(fs, n, a)
    requires forall k: nat :: k < BITS && k !in UsedInodes(fs) ==> k < PerGroup(fs)
    ensures if a.Exhausted? then forall k: nat :: k < BITS ==> k in UsedInodes(fs)
            else InodeTaken(fs, a.fs, a.num)
  {
    if a.Alloc? {
      assert a.num - 1 !in UsedInodes(fs);
      TookInode(fs, a.fs, n, a.num);
    }
  }

  lemma TookInode(fs: Disk, gs: Disk, n: nat, ino: nat)
    requires 3 <= n < |fs| && n == InodeMap(fs) && |gs| == |fs| && gs == fs[n := gs[n]]
    requires 1 <= ino <= PerGroup(fs) && ino - 1 !in Marked(fs[n]) && Marked(gs[n]) == Marked(fs[n]) + {ino - 1}
    ensures InodeTaken(fs, gs, ino)
  {
    OneBlock(fs, gs, n);
  }

  lemma InodeTakenSound(fs: Disk, gs: Disk, ino: nat)
    requires BlocksSound(fs) && InodeTaken(fs, gs, ino)
    ensures BlocksSound(gs) && Root(gs) == Root(fs) && UsedBlocks(gs) == UsedBlocks(fs)
  {
    SameRoot(fs, gs);
    assert UsedBlocks(gs) == UsedBlocks(fs) + {};
    StillSound(fs, gs, {});
  }

  lemma SameRoot(fs: Disk, gs: Disk)
    requires BlocksSound(fs) && SameShape(fs, gs) && forall b: nat :: b != InodeMap(fs) ==> At(gs, b) == At(fs, b)
    ensures Root(gs) == Root(fs) && UsedBlocks(gs) == UsedBlocks(fs)
  {
    assert BlocksSoundBody(fs, 0);
    InodeAt(fs, 2);
    SameInode(fs, gs, 2);
  }

  lemma BothTaken(fs: Disk, gs: Disk, ms: Disk, own: set<nat>, ino: nat)
    requires BlocksSound(fs) && InodeTaken(fs, gs, ino) && Taken(gs, ms, own)
    ensures TakenBoth(fs, ms, own, ino)
  {
    InodeTakenSound(fs, gs, ino);
    assert BlocksSoundBody(fs, 0) && TakenBody(gs, ms, own, 0);
    HeadersKeep(gs, ms);
    assert own <= FreeBlocks(fs);
    var n := InodeMap(fs);
    assert Reserved(fs, n) && !InUse(own, n);
    assert At(ms, n) == At(gs, n);
  }

  lemma EndLinks(fs: Disk, gs: Disk, own: set<nat>, ino: nat, x: nat, k: nat)
    requires BlocksSound(fs) && TakenBoth(fs, gs, own, ino) && (x == 0 || InUse(own, x)) && k < LINKS && own <= FreeBlocks(fs)
    ensures TakenBoth(fs, WriteLink(gs, x, 0, k), own, ino)
  {
    OwnIsFar(fs, own, x);
    OwnStored(fs, gs, own, ino, x, Put32(At(gs, x), 4 * k, 0));
  }

  lemma OwnStored(fs: Disk, gs: Disk, own: set<nat>, ino: nat, x: nat, block: Block)
    requires TakenBoth(fs, gs, own, ino) && (x == 0 || InUse(own, x))
    requires x != 1 && x != 2 && x != BlockMap(fs) && x != InodeMap(fs)
    ensures TakenBoth(fs, Store(gs, x, block), own, ino)
  {
    assert TakenBothBody(fs, gs, own, ino, 0);
    var es := Store(gs, x, block);
    assert es[1] == gs[1] && es[2] == gs[2];
    assert SameShape(gs, es);
    assert forall b: nat :: b != x ==> At(es, b) == At(gs, b);
  }

  lemma OwnIsFar(fs: Disk, own: set<nat>, x: nat)
    requires BlocksSound(fs) && own <= FreeBlocks(fs) && (x == 0 || InUse(own, x))
    ensures x != 1 && x != 2 && x != BlockMap(fs) && x != InodeMap(fs) && x != Root(fs) && !InTable(fs, x) && x < |fs|
  {
    assert BlocksSoundBody(fs, 0);
    if x != 0 {
      assert Reserved(fs, x) ==> InUse(UsedBlocks(fs), x);
      assert x - 1 in FreeBlocks(fs);
    }
  }

  lemma FinishedTouch(ms: Disk, ino: nat, inode: InodeBytes, root: nat, block: Block, now: nat)
    requires HasInode(ms, ino) && 3 <= root < |ms| && 3 <= InodeBlock(ms, ino) < |ms|
    requires InodeBlock(ms, ino) != root
    ensures Finished(ms, ino, inode, root, block, SpendInode(Store(StoreInode(ms, ino, inode), root, block), now))
  {
    var ss := StoreInode(ms, ino, inode);
    var rs := Store(ss, root, block);
    OneBlock(ms, ss, InodeBlock(ms, ino));
    OneBlock(ss, rs, root);
    SpendInodeShape(rs, now);
    assert At(ss, InodeBlock(ms, ino)) == Put(At(ms, InodeBlock(ms, ino)), InodeOffset(ms, ino), inode);
    assert At(rs, root) == block;
  }

  lemma SpendInodeShape(rs: Disk, now: nat)
    ensures SameShape(rs, SpendInode(rs, now)) && forall b: nat :: b >= 3 ==> At(SpendInode(rs, now), b) == At(rs, b)
  {
    Get32Apart(rs[1], SUPER_FREE_INODES, Four((Get32(rs[1], SUPER_FREE_INODES) + WORD - 1) % WORD), SUPER_PER_GROUP);
    Get32Apart(Less32(rs[1], SUPER_FREE_INODES), SUPER_WTIME, Four(now), SUPER_PER_GROUP);
    Less16Fields(rs[2]);
  }

  lemma Less16Fields(c: Block)
    ensures var d := Less16(c, GROUP_FREE_INODES);
            && Get32(d, GROUP_BLOCK_MAP) == Get32(c, GROUP_BLOCK_MAP) && Get32(d, GROUP_INODE_MAP) == Get32(c, GROUP_INODE_MAP)
            && Get32(d, GROUP_TABLE) == Get32(c, GROUP_TABLE)
  {
    var v := (Get16(c, GROUP_FREE_INODES) + 0xFFFF) % 0x1_0000;
    var two := [v % 0x100, v / 0x100 % 0x100];
    Get32Apart(c, GROUP_FREE_INODES, two, GROUP_BLOCK_MAP);
    Get32Apart(c, GROUP_FREE_INODES, two, GROUP_INODE_MAP);
    Get32Apart(c, GROUP_FREE_INODES, two, GROUP_TABLE);
  }

  // ----- touch, step by step

  /** Once the inode is stored, the root directory is still where and what it was. */
  lemma StoredRoot(fs: Disk, ms: Disk, own: set<nat>, ino: nat, inode: InodeBytes)
    requires Sound(fs) && TakenBoth(fs, ms, own, ino)
    ensures HasInode(ms, ino)
    ensures var ss := StoreInode(ms, ino, inode);
            HasInode(ss, 2) && Pointer(Inode(ss, 2), 0) == Root(fs) && At(ss, Root(fs)) == At(fs, Root(fs))
  {
    RootInUse(fs);
    TablesKept(fs, ms, own, ino);
    var ss := StoreInode(ms, ino, inode);
    var b, p := InodeBlock(ms, ino), InodeOffset(ms, ino);
    assert ino != 2 by {
      assert TakenBothBody(fs, ms, own, ino, 0);
    }
    TableIsApart(fs, 2);
    OneBlock(ms, ss, b);
    SameInode(fs, ms, 2);
    InodePut(ms, ss, ino, inode, 2, b, p);
  }

  /** Neither the inode table nor the root directory is changed by taking blocks. */
  lemma TablesKept(fs: Disk, ms: Disk, own: set<nat>, ino: nat)
    requires BlocksSound(fs) && TakenBoth(fs, ms, own, ino)
    ensures SameShape(fs, ms) && HasInode(ms, ino)
    ensures 3 <= InodeBlock(ms, ino) < |ms| && InodeBlock(ms, ino) != Root(fs) && 3 <= Root(fs) < |ms|
    ensures At(ms, Root(fs)) == At(fs, Root(fs)) && forall b: nat :: InTable(fs, b) ==> At(ms, b) == At(fs, b)
  {
    assert BlocksSoundBody(fs, 0) && TakenBothBody(fs, ms, own, ino, 0);
    InodeAt(ms, ino);
    forall b: nat | InTable(fs, b) || b == Root(fs) ensures At(ms, b) == At(fs, b) {
      assert Reserved(fs, b);
    }
  }

  /** The device once the list of links is ended. */
  function Closed(f: File): (r: Disk)
    requires NumBlocks(f.inode) < LINKS
  {
    WriteLink(f.fs, f.indirect, 0, NumBlocks(f.inode))
  }

  function FinalDisk(ms: Disk, ino: nat, inode: InodeBytes, root: nat, block: Block, now: nat): (r: Disk)
    requires HasInode(ms, ino)
  {
    SpendInode(Store(StoreInode(ms, ino, inode), root, block), now)
  }

  /** What the directory says decides how the second half ends. */
  ghost predicate Ends(r: Outcome, append: Append, ms: Disk, ino: nat, inode: InodeBytes, root: nat, now: nat)
    requires HasInode(ms, ino)
  {
    match append
    case Appended(block) => |block| == BLOCK_SIZE && r == Done(FinalDisk(ms, ino, inode, root, block, now), ino)
    case NoRoom => r == DirectoryFull(StoreInode(ms, ino, inode))
    case Overflow => r == Outside
  }

  lemma LinkNameExact(fs: Disk, ms: Disk, own: set<nat>, ino: nat, inode: InodeBytes, name: seq<byte>, now: nat)
    requires Sound(fs) && TakenBoth(fs, ms, own, ino)
    ensures HasInode(ms, ino) && Chain(At(fs, Root(fs)), 0)
    ensures Ends(LinkName(StoreInode(ms, ino, inode), ino, name, now), AppendFrom(At(fs, Root(fs)), 0, name, ino),
                 ms, ino, inode, Root(fs), now)
  {
    RootIsDirectory(fs);
    StoredRoot(fs, ms, own, ino, inode);
  }

  lemma RegisterExact(fs: Disk, f: File, own: set<nat>, ino: nat, name: seq<byte>, now: nat)
    requires Sound(fs) && TakenBoth(fs, f.fs, own, ino) && own <= FreeBlocks(fs)
    requires (f.indirect == 0 || InUse(own, f.indirect)) && NumBlocks(f.inode) < LINKS
    ensures TakenBoth(fs, Closed(f), own, ino) && HasInode(Closed(f), ino) && Chain(At(fs, Root(fs)), 0)
    ensures Ends(Register(f, ino, name, now), AppendFrom(At(fs, Root(fs)), 0, name, ino),
                 Closed(f), ino, MoreBlocks(f.inode), Root(fs), now)
  {
    EndLinks(fs, f.fs, own, ino, f.indirect, NumBlocks(f.inode));
    TablesKept(fs, f.fs, own, ino);
    LinkNameExact(fs, Closed(f), own, ino, MoreBlocks(f.inode), name, now);
  }

  /** The fresh memory for the inode is zero where the code counts on it. */
  predicate Blank(raw: InodeBytes) {
    Get32(raw, INODE_BLOCKS) == 0 && forall j :: 0 <= j < 13 ==> Pointer(raw, j) == 0
  }

  lemma NewInodeIsBlank(raw: InodeBytes, size: nat, now: nat)
    requires Blank(raw)
    ensures Blank(NewInode(raw, size, now))
  {
    var mode := Put16(raw, 0, 0x81C0);
    var sized := Put32(mode, 4, size);
    var head := Put16(sized, 26, 1);
    var times := Four(now) + Four(now) + Four(now) + Four(0);
    forall p | p == INODE_BLOCKS || exists j :: 0 <= j < 13 && p == INODE_LIST + 4 * j
      ensures Get32(NewInode(raw, size, now), p) == Get32(raw, p)
    {
      Get32Apart(raw, 0, [0xC0, 0x81], p);
      Get32Apart(mode, 4, Four(size), p);
      Get32Apart(sized, 26, [1, 0], p);
      Get32Apart(head, 8, times, p);
    }
    forall j | 0 <= j < 13 ensures Pointer(NewInode(raw, size, now), j) == 0 {
      var p := INODE_LIST + 4 * j;
      assert Pointer(raw, j) == 0;
      assert Get32(NewInode(raw, size, now), p) == Get32(raw, p);
    }
  }

  lemma StartsWritten(fs: Disk, inode: InodeBytes, chunks: seq<Block>)
    requires Get32(inode, INODE_BLOCKS) == 0
    ensures Written(fs, File(fs, inode, 0), inode, {}, [], chunks)
  {
  }

  /** There is an inode, enough blocks, and a place in the directory. */
  predicate CanTouch(fs: Disk, name: seq<byte>, n: nat) {
    && (exists k: nat :: k < BITS && k !in UsedInodes(fs))
    && Need(n) <= |FreeBlocks(fs)| && n < LINKS
    && Chain(At(fs, Root(fs)), 0) && Slack(At(fs, Root(fs)), 0, name)
  }

  /** What touch works with: the device with the inode taken, the file once filled, the blocks taken,
      the data blocks in order, the new root directory and the inode at first. */
  datatype Work = Work(start: Disk, file: File, own: set<nat>, ds: seq<nat>, block: Block, was: InodeBytes)

  /** The pieces from which touch has put the new device together. */
  ghost predicate MadeBody(fs: Disk, hs: Disk, ino: nat, name: seq<byte>, chunks: seq<Block>, now: nat, w: Work, key: nat) {
    && InodeTaken(fs, w.start, ino) && Written(w.start, w.file, w.was, w.own, w.ds, chunks) && Blank(w.was)
    && |w.ds| == |chunks| < LINKS && NumBlocks(w.file.inode) == |w.ds|
    && TakenBoth(fs, Closed(w.file), w.own, ino) && HasInode(Closed(w.file), ino)
    && Chain(At(fs, Root(fs)), 0) && AppendFrom(At(fs, Root(fs)), 0, name, ino) == Appended(w.block)
    && hs == FinalDisk(Closed(w.file), ino, MoreBlocks(w.file.inode), Root(fs), w.block, now)
  }

  ghost predicate Made(fs: Disk, hs: Disk, ino: nat, name: seq<byte>, chunks: seq<Block>, now: nat, w: Work) {
    forall key: nat :: MadeBody(fs, hs, ino, name, chunks, now, w, key)
  }

  lemma {:induction false} ChunkCount(data: seq<byte>, q: nat)
    ensures q * BLOCK_SIZE < |data| ==> BLOCK_SIZE * |Chunks(data, q)| < |data| - q * BLOCK_SIZE + BLOCK_SIZE
    decreases |data| - q * BLOCK_SIZE
  {
    if q * BLOCK_SIZE < |data| {
      ChunkCount(data, q + 1);
    }
  }

  /** The first half: the blocks are filled exactly when there are enough. */
  lemma Fills(fs: Disk, gs: Disk, ino: nat, was: InodeBytes, chunks: seq<Block>, r: Fill)
    returns (own: set<nat>, ds: seq<nat>)
    requires BlocksSound(fs) && InodeTaken(fs, gs, ino) && Blank(was) && |chunks| < 0x4000_0000
    requires r == FillFrom(FillStep, File(gs, was, 0), chunks, 0)
    ensures r.Filled? <==> Need(|chunks|) <= |FreeBlocks(fs)|
    ensures r.Filled? ==> |ds| == |chunks| && Written(gs, r.file, was, own, ds, chunks)
  {
    InodeTakenSound(fs, gs, ino);
    StartsWritten(gs, was, chunks);
    own, ds := FillKeeps(FillStep, gs, File(gs, was, 0), was, {}, [], chunks);
  }

  /** What the first half leaves for the second. */
  lemma Filling(fs: Disk, gs: Disk, ino: nat, was: InodeBytes, chunks: seq<Block>, f: File, own: set<nat>, ds: seq<nat>)
    requires BlocksSound(fs) && InodeTaken(fs, gs, ino) && Written(gs, f, was, own, ds, chunks)
    ensures TakenBoth(fs, f.fs, own, ino) && own <= FreeBlocks(fs)
    ensures (f.indirect == 0 || InUse(own, f.indirect)) && NumBlocks(f.inode) == |ds|
  {
    assert OnDiskBody(gs, f.fs, own, ds, f.indirect, chunks, 0);
    BothTaken(fs, gs, f.fs, own, ino);
    assert TakenBothBody(fs, f.fs, own, ino, 0);
  }

  lemma RegisterMakes(fs: Disk, ino: nat, chunks: seq<Block>, name: seq<byte>, now: nat, v: Work)
    returns (w: Work)
    requires Sound(fs) && InodeTaken(fs, v.start, ino) && Blank(v.was) && |v.ds| == |chunks|
    requires Written(v.start, v.file, v.was, v.own, v.ds, chunks)
    ensures var r := Register(v.file, ino, name, now);
            && Chain(At(fs, Root(fs)), 0)
            && (r.Done? <==> |chunks| < LINKS && Slack(At(fs, Root(fs)), 0, name))
            && (r.Done? ==> r.ino == ino && w.was == v.was && Made(fs, r.fs, ino, name, chunks, now, w))
  {
    w := v;
    RootIsDirectory(fs);
    Filling(fs, v.start, ino, v.was, chunks, v.file, v.own, v.ds);
    if |chunks| < LINKS {
      RegisterExact(fs, v.file, v.own, ino, name, now);
      AppendExact(At(fs, Root(fs)), 0, name, ino);
      var e := AppendFrom(At(fs, Root(fs)), 0, name, ino);
      w := v.(block := if e.Appended? then e.block else EMPTY);
    }
  }

  lemma RootIsDirectory(fs: Disk)
    requires Sound(fs)
    ensures Chain(At(fs, Root(fs)), 0)
  {
    RootInUseEntries(fs);
    assert DirectoryInUseBody(At(fs, Root(fs)), UsedInodes(fs), 0);
  }

  /** Touch succeeds exactly when it can, and then the device is made as described. */
  lemma TouchMakes(fs: Disk, name: seq<byte>, data: seq<byte>, raw: InodeBytes, now: nat)
    returns (w: Work)
    requires Sound(fs) && Blank(raw) && |data| < 0x8000_0000
    ensures var r := Touch(fs, name, data, raw, now);
            && (r.Done? <==> CanTouch(fs, name, |Chunks(data, 0)|))
            && (r.Done? ==> && r.ino <= BITS && w.was == NewInode(raw, |data|, now)
                            && Made(fs, r.fs, r.ino, name, Chunks(data, 0), now, w))
  {
    var chunks, inode := Chunks(data, 0), NewInode(raw, |data|, now);
    ChunkCount(data, 0);
    NewInodeIsBlank(raw, |data|, now);
    var a := Allocate(fs, InodeMap(fs));
    var r := if a.Alloc? then FillFrom(FillStep, File(a.fs, inode, 0), chunks, 0) else Full;
    w := TouchWithMakes(fs, name, chunks, inode, now, a, r);
  }

  lemma TouchWithMakes(fs: Disk, name: seq<byte>, chunks: seq<Block>, inode: InodeBytes, now: nat, a: Alloc, r: Fill)
    returns (w: Work)
    requires Sound(fs) && Blank(inode) && |chunks| < 0x4000_0000
    requires a == Allocate(fs, InodeMap(fs))
    requires a.Alloc? ==> r == FillFrom(FillStep, File(a.fs, inode, 0), chunks, 0)
    ensures var t := TouchWith(a, r, name, now);
            && (t.Done? <==> CanTouch(fs, name, |chunks|))
            && (t.Done? ==> t.ino <= BITS && w.was == inode && Made(fs, t.fs, t.ino, name, chunks, now, w))
  {
    w := Work(fs, File(fs, inode, 0), {}, [], EMPTY, inode);
    RootIsDirectory(fs);
    TakeInode(fs);
    if a.Alloc? {
      assert a.num <= BITS;
      var own, ds := Fills(fs, a.fs, a.num, inode, chunks, r);
      if r.Filled? {
        w := RegisterMakes(fs, a.num, chunks, name, now, Work(a.fs, r.file, own, ds, EMPTY, inode));
      }
    }
  }
}
