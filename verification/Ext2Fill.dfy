/**
 Writing the blocks of a file: which bits, blocks and counts the loop of ext2_touch changes.
 */
module Ext2Fill {
  import opened Common
  import Bits
  import opened Bitmaps
  import opened Bytes
  import opened Directory
  import opened Ext2Spec

  // ----- a sound file system

  function Root(fs: Disk): (r: nat) {
    if PerGroup(fs) < 2 then 0 else Pointer(Inode(fs, 2), 0)
  }

  function TableEnd(fs: Disk): (r: nat) {
    Table(fs) + (PerGroup(fs) + 7) / 8
  }

  predicate InTable(fs: Disk, b: nat) {
    Table(fs) <= b < TableEnd(fs)
  }

  /** Header, bitmaps, inode table and root directory lie apart, inside the device. */
  predicate Placed(fs: Disk) {
    && PerGroup(fs) >= 2
    && 3 <= BlockMap(fs) < |fs| && 3 <= InodeMap(fs) < |fs| && 3 <= Root(fs) < |fs|
    && 3 <= Table(fs) && TableEnd(fs) <= |fs|
    && BlockMap(fs) != InodeMap(fs) && BlockMap(fs) != Root(fs) && InodeMap(fs) != Root(fs)
    && !InTable(fs, BlockMap(fs)) && !InTable(fs, InodeMap(fs)) && !InTable(fs, Root(fs))
  }

  predicate Reserved(fs: Disk, b: nat) {
    b <= 2 || b == BlockMap(fs) || b == InodeMap(fs) || b == Root(fs) || InTable(fs, b)
  }

  /** Numbers of blocks and inodes that are in use. */
  function UsedBlocks(fs: Disk): (s: set<nat>) {
    Marked(At(fs, BlockMap(fs)))
  }

  function UsedInodes(fs: Disk): (s: set<nat>) {
    Marked(At(fs, InodeMap(fs)))
  }

  /** Block b (from 1 on) has bit b - 1. */
  predicate InUse(s: set<nat>, b: nat) {
    b >= 1 && b - 1 in s
  }

  ghost predicate BlocksSoundBody(fs: Disk, key: nat) {
    && Placed(fs)
    && (forall b: nat :: b >= 1 && Reserved(fs, b) ==> InUse(UsedBlocks(fs), b))
    && (forall k: nat :: k < BITS && k !in UsedBlocks(fs) ==> k + 1 < |fs|)
  }

  /**
   The key serves the proofs only: a predicate of this form is opened where one of its
   instances is asserted, and is carried along unopened everywhere else.
   */
  ghost predicate BlocksSound(fs: Disk) {
    forall key: nat :: BlocksSoundBody(fs, key)
  }

  /** Every entry is empty or names an inode in use. */
  ghost predicate AllInUse(es: seq<Entry>, s: set<nat>) {
    forall i :: 0 <= i < |es| ==> es[i].inode == 0 || InUse(s, es[i].inode)
  }

  ghost predicate DirectoryInUseBody(b: seq<byte>, s: set<nat>, key: nat) {
    Chain(b, 0) && AllInUse(Entries(b, 0), s)
  }

  /** A record chain whose entries all name inodes in use. */
  ghost predicate DirectoryInUse(b: seq<byte>, s: set<nat>) {
    forall key: nat :: DirectoryInUseBody(b, s, key)
  }

  ghost predicate NamesSoundBody(fs: Disk, key: nat) {
    && Placed(fs)
    && (forall k: nat :: k < BITS && k !in UsedInodes(fs) ==> k < PerGroup(fs))
    && InUse(UsedInodes(fs), 2)
    && Get32(Inode(fs, 2), INODE_BLOCKS) == 2
    && DirectoryInUse(At(fs, Root(fs)), UsedInodes(fs))
  }

  ghost predicate NamesSound(fs: Disk) {
    forall key: nat :: NamesSoundBody(fs, key)
  }

  ghost predicate Sound(fs: Disk) {
    BlocksSound(fs) && NamesSound(fs)
  }

  // ----- one bit, one field

  lemma ByteOfWord(a: nat, b: nat, c: nat, d: nat, j: nat)
    requires a < 0x100 && b < 0x100 && c < 0x100 && d < 0x100 && j < 32
    ensures Bits.Bit(a + 0x100 * (b + 0x100 * (c + 0x100 * d)), j) <==>
            Bits.Bit(if j < 8 then a else if j < 16 then b else if j < 24 then c else d, j % 8)
  {
    assert Bits.Shift1(4) == 16 && Bits.Shift1(8) == 0x100;
    var x, y := b + 0x100 * (c + 0x100 * d), c + 0x100 * d;
    if j < 8 {
      Bits.LowBits(a, x, 8, j);
    } else {
      Bits.HighBits(a, x, 8, j - 8);
      if j < 16 {
        Bits.LowBits(b, y, 8, j - 8);
      } else {
        Bits.HighBits(b, y, 8, j - 16);
        if j < 24 {
          Bits.LowBits(c, d, 8, j - 16);
        } else {
          Bits.HighBits(c, d, 8, j - 24);
        }
      }
    }
  }

  /** Number k of a bitmap block is bit k % 8 of byte k / 8, as the disk format has it. */
  lemma BitmapByte(b: Block, k: nat)
    requires k < BITS
    ensures k in Marked(b) <==> Bits.Bit(b[k / 8] as int, k % 8)
  {
    var q, j := k / 32, k % 32;
    var off := 4 * q;
    ByteOfWord(b[off] as int, b[off + 1] as int, b[off + 2] as int, b[off + 3] as int, j);
    assert WordsOf(b)[q] == Get32(b, off);
    BytePlace(k);
  }

  lemma BytePlace(k: nat)
    ensures var off, j := 4 * (k / 32), k % 32;
            k / 8 == off + (if j < 8 then 0 else if j < 16 then 1 else if j < 24 then 2 else 3) && k % 8 == j % 8
  {
  }

  lemma SetBitMarks(b: Block, k: nat)
    requires k < BITS
    ensures Marked(SetBit(b, k)) == Marked(b) + {k}
  {
    var q := k / 32;
    var w := Bits.Or(Get32(b, 4 * q), Bits.Shift1(k % 32));
    SetBitOf(WordsOf(b), k, w);
    Get32Put32(b, 4 * q, w);
    assert WordsOf(SetBit(b, k)) == WordsOf(b)[q := w] by {
      forall p | 0 <= p < 256 && p != q ensures Get32(SetBit(b, k), 4 * p) == Get32(b, 4 * p) {
        Get32Apart(b, 4 * q, Four(w), 4 * p);
      }
    }
  }

  lemma Less32Spends(b: Block, off: nat)
    requires off + 4 <= BLOCK_SIZE
    ensures (Get32(Less32(b, off), off) + 1) % WORD == Get32(b, off)
  {
    var u := (Get32(b, off) + WORD - 1) % WORD;
    LessThenMore(Get32(b, off));
    Get32Put32(b, off, u);
  }

  lemma LessThenMore(x: nat)
    requires x < WORD
    ensures ((x + WORD - 1) % WORD + 1) % WORD == x
  {
    assert x > 0 ==> (x + WORD - 1) % WORD == x - 1;
  }

  lemma Less16Spends(b: Block, off: nat)
    requires off + 2 <= BLOCK_SIZE
    ensures (Get16(Less16(b, off), off) + 1) % 0x1_0000 == Get16(b, off)
  {
    assert Get16(b, off) > 0 ==> (Get16(b, off) + 0xFFFF) % 0x1_0000 == Get16(b, off) - 1;
    Get16Put16(b, off, (Get16(b, off) + 0xFFFF) % 0x1_0000);
  }

  /** The two blocks agree outside bytes lo to hi. */
  ghost predicate AgreeOutside(a: Block, b: Block, lo: nat, hi: nat) {
    forall i :: 0 <= i < BLOCK_SIZE && !(lo <= i < hi) ==> a[i] == b[i]
  }

  lemma AgreeField(a: Block, b: Block, lo: nat, hi: nat, p: nat)
    requires AgreeOutside(a, b, lo, hi) && p + 4 <= BLOCK_SIZE && (p + 4 <= lo || hi <= p)
    ensures Get32(a, p) == Get32(b, p)
  {
  }

  // ----- what the loop keeps

  /** Only free-block counts differ in the two header blocks. */
  ghost predicate Headers(fs: Disk, gs: Disk) {
    && AgreeOutside(gs[1], fs[1], SUPER_FREE_BLOCKS, SUPER_FREE_BLOCKS + 4)
    && AgreeOutside(gs[2], fs[2], GROUP_FREE_BLOCKS, GROUP_FREE_BLOCKS + 2)
  }

  lemma HeadersKeep(fs: Disk, gs: Disk)
    requires Headers(fs, gs)
    ensures BlockMap(gs) == BlockMap(fs) && InodeMap(gs) == InodeMap(fs)
    ensures Table(gs) == Table(fs) && PerGroup(gs) == PerGroup(fs)
  {
    AgreeField(gs[1], fs[1], SUPER_FREE_BLOCKS, SUPER_FREE_BLOCKS + 4, SUPER_PER_GROUP);
    AgreeField(gs[2], fs[2], GROUP_FREE_BLOCKS, GROUP_FREE_BLOCKS + 2, GROUP_BLOCK_MAP);
    AgreeField(gs[2], fs[2], GROUP_FREE_BLOCKS, GROUP_FREE_BLOCKS + 2, GROUP_INODE_MAP);
    AgreeField(gs[2], fs[2], GROUP_FREE_BLOCKS, GROUP_FREE_BLOCKS + 2, GROUP_TABLE);
  }

  ghost predicate SameBlocks(fs: Disk, gs: Disk, own: set<nat>) {
    && |gs| == |fs|
    && forall b: nat :: 3 <= b < |fs| && b != BlockMap(fs) && !InUse(own, b) ==> gs[b] == fs[b]
  }

  /** gs is fs with the bits in own taken and only their blocks, the bitmap and the counts changed. */
  ghost predicate TakenBody(fs: Disk, gs: Disk, own: set<nat>, key: nat) {
    && SameBlocks(fs, gs, own) && gs[0] == fs[0]
    && Headers(fs, gs)
    && Marked(At(gs, BlockMap(fs))) == UsedBlocks(fs) + own
    && own !! UsedBlocks(fs)
    && forall k :: k in own ==> k < BITS
  }

  ghost predicate Taken(fs: Disk, gs: Disk, own: set<nat>) {
    forall key: nat :: TakenBody(fs, gs, own, key)
  }

  lemma OwnIsOutside(fs: Disk, gs: Disk, own: set<nat>, b: nat)
    requires BlocksSound(fs) && Taken(fs, gs, own) && InUse(own, b)
    ensures 3 <= b < |fs| && !Reserved(fs, b)
  {
    assert BlocksSoundBody(fs, 0) && TakenBody(fs, gs, own, 0);
    assert b <= 2 ==> Reserved(fs, b);
    assert Reserved(fs, b) ==> InUse(UsedBlocks(fs), b);
    var k := b - 1;
    assert k !in UsedBlocks(fs) && k < BITS;
    assert !InUse(UsedBlocks(fs), b);
  }

  /** An allocation sets the lowest clear bit of the bitmap and changes nothing else. */
  lemma AllocateExact(gs: Disk, m: nat)
    requires m < |gs|
    ensures var a := Allocate(gs, m);
            if a.Exhausted? then forall k: nat :: k < BITS ==> k in Marked(gs[m])
            else
              && a.num <= BITS && a.num - 1 !in Marked(gs[m]) && (forall k: nat :: k < a.num - 1 ==> k in Marked(gs[m]))
              && a.fs == gs[m := a.fs[m]] && Marked(a.fs[m]) == Marked(gs[m]) + {a.num - 1}
  {
    FirstClearIsLowest(Marked(gs[m]), 0, BITS);
    var num := FirstClear(Marked(gs[m]), 0, BITS);
    if num != -1 {
      SetBitMarks(gs[m], num);
    }
  }

  /** What an allocation leaves: block a.num - 1 is marked in the bitmap m, and nothing else changes. */
  ghost predicate Marks(gs: Disk, m: nat, a: Alloc)
    requires m < |gs|
  {
    if a.Exhausted? then forall k: nat :: k < BITS ==> k in Marked(gs[m])
    else
      && |a.fs| == |gs| && 1 <= a.num <= BITS && a.num - 1 !in Marked(gs[m])
      && a.fs == gs[m := a.fs[m]] && Marked(a.fs[m]) == Marked(gs[m]) + {a.num - 1}
  }

  lemma TakeMarked(fs: Disk, gs: Disk, own: set<nat>, m: nat, a: Alloc)
    requires BlocksSound(fs) && Taken(fs, gs, own) && m == BlockMap(fs) < |fs| == |gs|
    requires Marked(gs[m]) == UsedBlocks(fs) + own && Marks(gs, m, a)
    ensures TakeResult(fs, own, a)
  {
    if a.Alloc? {
      TakenMore(fs, gs, own, a.fs, a.num - 1);
    }
  }

  ghost predicate TakeResultBody(fs: Disk, own: set<nat>, a: Alloc, key: nat) {
    if a.Exhausted? then forall k: nat :: k < BITS ==> k in UsedBlocks(fs) + own
    else a.num >= 1 && InUse(own + {a.num - 1}, a.num) && a.num - 1 !in own && Taken(fs, a.fs, own + {a.num - 1})
  }

  /** All blocks are in use, or one more is owned; opened by an instance. */
  ghost predicate TakeResult(fs: Disk, own: set<nat>, a: Alloc) {
    forall key: nat :: TakeResultBody(fs, own, a, key)
  }

  lemma TakeBlock(fs: Disk, gs: Disk, own: set<nat>)
    requires BlocksSound(fs) && Taken(fs, gs, own)
    ensures TakeResult(fs, own, Allocate(gs, BlockMap(gs)))
  {
    var m := BlockMap(fs);
    MapOf(fs, gs, own, m);
    AllocateMarks(gs, m);
    TakeMarked(fs, gs, own, m, Allocate(gs, m));
  }

  lemma AllocateMarks(gs: Disk, m: nat)
    requires m < |gs|
    ensures Marks(gs, m, Allocate(gs, m))
  {
    AllocateExact(gs, m);
  }

  lemma MapOf(fs: Disk, gs: Disk, own: set<nat>, m: nat)
    requires BlocksSound(fs) && Taken(fs, gs, own) && m == BlockMap(fs)
    ensures BlockMap(gs) == m < |fs| == |gs| && Marked(gs[m]) == UsedBlocks(fs) + own
  {
    assert BlocksSoundBody(fs, 0) && TakenBody(fs, gs, own, 0);
    HeadersKeep(fs, gs);
  }

  lemma TakenMore(fs: Disk, gs: Disk, own: set<nat>, hs: Disk, k: nat)
    requires BlocksSound(fs) && Taken(fs, gs, own) && |gs| == |fs| && BlockMap(fs) < |fs|
    requires |hs| == |fs| && k < BITS && k !in Marked(gs[BlockMap(fs)]) && hs == gs[BlockMap(fs) := hs[BlockMap(fs)]]
    requires Marked(hs[BlockMap(fs)]) == Marked(gs[BlockMap(fs)]) + {k}
    ensures k !in own && Taken(fs, hs, own + {k})
  {
    assert BlocksSoundBody(fs, 0) && TakenBody(fs, gs, own, 0);
    assert UsedBlocks(fs) + own + {k} == UsedBlocks(fs) + (own + {k});
  }

  lemma StoreOwn(fs: Disk, gs: Disk, own: set<nat>, b: nat, block: Block)
    requires BlocksSound(fs) && Taken(fs, gs, own) && InUse(own, b)
    ensures Taken(fs, Store(gs, b, block), own) && At(Store(gs, b, block), b) == block
  {
    assert BlocksSoundBody(fs, 0) && TakenBody(fs, gs, own, 0);
    OwnIsOutside(fs, gs, own, b);
  }

  lemma SpendKeeps(fs: Disk, gs: Disk, own: set<nat>)
    requires BlocksSound(fs) && Taken(fs, gs, own)
    ensures Taken(fs, SpendBlock(gs), own)
  {
    assert BlocksSoundBody(fs, 0) && TakenBody(fs, gs, own, 0);
  }

  // ----- what the loop has written

  /** The free counts have gone down by n. */
  ghost predicate SpentBody(fs: Disk, gs: Disk, n: nat, key: nat) {
    && (Get32(gs[1], SUPER_FREE_BLOCKS) + n) % WORD == Get32(fs[1], SUPER_FREE_BLOCKS)
    && (Get16(gs[2], GROUP_FREE_BLOCKS) + n) % 0x1_0000 == Get16(fs[2], GROUP_FREE_BLOCKS)
  }

  ghost predicate Spent(fs: Disk, gs: Disk, n: nat) {
    forall key: nat :: SpentBody(fs, gs, n, key)
  }

  lemma SpendSpends(fs: Disk, gs: Disk, n: nat)
    requires Spent(fs, gs, n)
    ensures Spent(fs, SpendBlock(gs), n + 1)
  {
    assert SpentBody(fs, gs, n, 0);
    Less32Spends(gs[1], SUPER_FREE_BLOCKS);
    Less16Spends(gs[2], GROUP_FREE_BLOCKS);
    AddMod32(Get32(Less32(gs[1], SUPER_FREE_BLOCKS), SUPER_FREE_BLOCKS) + 1, n);
    AddMod16(Get16(Less16(gs[2], GROUP_FREE_BLOCKS), GROUP_FREE_BLOCKS) + 1, n);
  }

  lemma AddMod32(x: nat, n: nat)
    ensures (x % WORD + n) % WORD == (x + n) % WORD
  {
  }

  lemma AddMod16(x: nat, n: nat)
    ensures (x % 0x1_0000 + n) % 0x1_0000 == (x + n) % 0x1_0000
  {
  }

  /** ds lists the data blocks in order; the indirect block comes with the thirteenth. */
  ghost predicate Lists(own: set<nat>, ds: seq<nat>, indirect: nat) {
    && (forall j :: 0 <= j < |ds| ==> InUse(own, ds[j]) && ds[j] != indirect)
    && (forall i, j :: 0 <= i < j < |ds| ==> ds[i] != ds[j])
    && (if |ds| <= DIRECT then indirect == 0 && |own| == |ds|
        else InUse(own, indirect) && |own| == |ds| + 1)
  }

  ghost predicate Holds(gs: Disk, ds: seq<nat>, chunks: seq<Block>) {
    |ds| <= |chunks| && forall j :: 0 <= j < |ds| ==> At(gs, ds[j]) == chunks[j]
  }

  /** The inode points to the first twelve blocks and the indirect one; its head is as it was. */
  ghost predicate Points(inode: InodeBytes, was: InodeBytes, ds: seq<nat>, indirect: nat) {
    && Get32(inode, INODE_BLOCKS) == 2 * |ds| && inode[..INODE_BLOCKS] == was[..INODE_BLOCKS]
    && (forall j :: 0 <= j < 13 ==>
         Pointer(inode, j) == if j < |ds| then (if j < DIRECT then ds[j] else indirect) else Pointer(was, j))
  }

  ghost predicate Links(gs: Disk, ds: seq<nat>, indirect: nat) {
    forall j :: DIRECT <= j < |ds| && j < LINKS + DIRECT ==> Get32(At(gs, indirect), 4 * (j - DIRECT)) == ds[j]
  }

  ghost predicate OnDiskBody(fs: Disk, gs: Disk, own: set<nat>, ds: seq<nat>, indirect: nat, chunks: seq<Block>, key: nat) {
    && Taken(fs, gs, own)
    && Spent(fs, gs, |ds|)
    && Lists(own, ds, indirect)
    && Holds(gs, ds, chunks)
    && Links(gs, ds, indirect)
  }

  ghost predicate OnDisk(fs: Disk, gs: Disk, own: set<nat>, ds: seq<nat>, indirect: nat, chunks: seq<Block>) {
    forall key: nat :: OnDiskBody(fs, gs, own, ds, indirect, chunks, key)
  }

  ghost predicate Written(fs: Disk, f: File, was: InodeBytes, own: set<nat>, ds: seq<nat>, chunks: seq<Block>) {
    OnDisk(fs, f.fs, own, ds, f.indirect, chunks) && Points(f.inode, was, ds, f.indirect)
  }

  // ----- one round

  lemma SpentSame(fs: Disk, gs: Disk, hs: Disk, n: nat)
    requires Spent(fs, gs, n) && hs[1] == gs[1] && hs[2] == gs[2]
    ensures Spent(fs, hs, n)
  {
    assert SpentBody(fs, gs, n, 0);
  }

  /** An allocation touches neither the headers nor blocks already owned. */
  lemma TakeLeaves(fs: Disk, gs: Disk, own: set<nat>)
    requires BlocksSound(fs) && Taken(fs, gs, own)
    ensures var a := Allocate(gs, BlockMap(gs));
            a.Alloc? ==>
              && a.fs[1] == gs[1] && a.fs[2] == gs[2]
              && forall c :: InUse(own, c) ==> At(a.fs, c) == At(gs, c)
  {
    assert BlocksSoundBody(fs, 0) && TakenBody(fs, gs, own, 0);
    HeadersKeep(fs, gs);
    forall c | InUse(own, c) ensures c != BlockMap(fs) {
      OwnIsOutside(fs, gs, own, c);
    }
  }

  lemma StoreLeaves(fs: Disk, gs: Disk, own: set<nat>, b: nat, block: Block)
    requires BlocksSound(fs) && Taken(fs, gs, own) && InUse(own, b)
    ensures Store(gs, b, block)[1] == gs[1] && Store(gs, b, block)[2] == gs[2]
    ensures forall c :: InUse(own, c) && c != b ==> At(Store(gs, b, block), c) == At(gs, c)
  {
    assert BlocksSoundBody(fs, 0) && TakenBody(fs, gs, own, 0);
    OwnIsOutside(fs, gs, own, b);
  }

  lemma SpendLeaves(fs: Disk, gs: Disk, own: set<nat>, c: nat)
    requires BlocksSound(fs) && Taken(fs, gs, own) && InUse(own, c)
    ensures At(SpendBlock(gs), c) == At(gs, c)
  {
    OwnIsOutside(fs, gs, own, c);
  }

  lemma WriteBlockKeeps(fs: Disk, hs: Disk, own: set<nat>, b: nat, chunk: Block, n: nat)
    requires BlocksSound(fs) && Taken(fs, hs, own) && InUse(own, b) && Spent(fs, hs, n)
    ensures var r := WriteBlock(hs, b, chunk);
            && Taken(fs, r, own) && Spent(fs, r, n + 1) && At(r, b) == chunk
            && forall c :: InUse(own, c) && c != b ==> At(r, c) == At(hs, c)
  {
    var gs := Store(hs, b, chunk);
    StoreOwn(fs, hs, own, b, chunk);
    StoreLeaves(fs, hs, own, b, chunk);
    SpentSame(fs, hs, gs, n);
    SpendKeeps(fs, gs, own);
    SpendSpends(fs, gs, n);
    forall c | InUse(own, c) ensures At(SpendBlock(gs), c) == At(gs, c) {
      SpendLeaves(fs, gs, own, c);
    }
  }

  lemma PointerSet(inode: InodeBytes, n: nat, p: nat, j: nat)
    requires n < 13 && j < 13 && p < WORD
    ensures Pointer(MoreBlocks(Put32(inode, INODE_LIST + 4 * n, p)), j) == if j == n then p else Pointer(inode, j)
  {
    var off := INODE_LIST + 4 * n;
    var set1 := Put32(inode, off, p);
    Get32Apart(set1, INODE_BLOCKS, Four((Get32(set1, INODE_BLOCKS) + 2) % WORD), INODE_LIST + 4 * j);
    if j == n {
      Get32Put32(inode, off, p);
    } else {
      Get32Apart(inode, off, Four(p), INODE_LIST + 4 * j);
    }
  }

  lemma BlocksMore(inode: InodeBytes, n: nat)
    requires Get32(inode, INODE_BLOCKS) == 2 * n && 2 * (n + 1) < WORD
    ensures Get32(MoreBlocks(inode), INODE_BLOCKS) == 2 * (n + 1)
  {
    TwoSectorsMore(inode, 2 * (n + 1));
  }

  lemma TwoSectorsMore(inode: InodeBytes, v: nat)
    requires Get32(inode, INODE_BLOCKS) + 2 == v < WORD
    ensures Get32(MoreBlocks(inode), INODE_BLOCKS) == v
  {
    var u := (Get32(inode, INODE_BLOCKS) + 2) % WORD;
    assert u == v;
    Get32Put32(inode, INODE_BLOCKS, u);
  }

  /** Recording block n, or the indirect block as the thirteenth. */
  lemma PointsSet(inode: InodeBytes, was: InodeBytes, ds: seq<nat>, indirect: nat, b: nat, p: nat)
    requires Points(inode, was, ds, indirect) && |ds| <= DIRECT && 2 * (|ds| + 1) < WORD && p < WORD
    requires |ds| < DIRECT ==> p == b
    ensures Points(MoreBlocks(Put32(inode, INODE_LIST + 4 * |ds|, p)), was, ds + [b], p)
  {
    var off := INODE_LIST + 4 * |ds|;
    Get32Apart(inode, off, Four(p), INODE_BLOCKS);
    BlocksMore(Put32(inode, off, p), |ds|);
    assert MoreBlocks(Put32(inode, off, p))[..INODE_BLOCKS] == Put32(inode, off, p)[..INODE_BLOCKS] == inode[..INODE_BLOCKS];
    forall j | 0 <= j < 13
      ensures Pointer(MoreBlocks(Put32(inode, off, p)), j) == if j == |ds| then p else Pointer(inode, j)
    {
      PointerSet(inode, |ds|, p, j);
    }
  }

  lemma PointsMore(inode: InodeBytes, was: InodeBytes, ds: seq<nat>, indirect: nat, b: nat)
    requires Points(inode, was, ds, indirect) && |ds| > DIRECT && 2 * (|ds| + 1) < WORD
    ensures Points(MoreBlocks(inode), was, ds + [b], indirect)
  {
    BlocksMore(inode, |ds|);
    assert MoreBlocks(inode)[..INODE_BLOCKS] == inode[..INODE_BLOCKS];
    forall j | 0 <= j < 13 ensures Pointer(MoreBlocks(inode), j) == Pointer(inode, j) {
      Get32Apart(inode, INODE_BLOCKS, Four((Get32(inode, INODE_BLOCKS) + 2) % WORD), INODE_LIST + 4 * j);
    }
  }

  /** Writing data block b after it, and perhaps an indirect block, has been taken and recorded. */
  lemma AddData(fs: Disk, gs: Disk, hs: Disk, own: set<nat>, own2: set<nat>, ds: seq<nat>, b: nat, chunks: seq<Block>)
    requires BlocksSound(fs) && Taken(fs, hs, own2) && Spent(fs, hs, |ds|)
    requires own <= own2 && InUse(own2, b) && !InUse(own, b)
    requires Holds(gs, ds, chunks) && |ds| < |chunks|
    requires forall j :: 0 <= j < |ds| ==> InUse(own, ds[j]) && At(hs, ds[j]) == At(gs, ds[j])
    ensures var r := WriteBlock(hs, b, chunks[|ds|]);
            && Taken(fs, r, own2) && Spent(fs, r, |ds| + 1) && Holds(r, ds + [b], chunks)
            && forall c :: InUse(own2, c) && c != b ==> At(r, c) == At(hs, c)
  {
    WriteBlockKeeps(fs, hs, own2, b, chunks[|ds|], |ds|);
    var r := WriteBlock(hs, b, chunks[|ds|]);
    var es := ds + [b];
    forall j | 0 <= j < |es| ensures At(r, es[j]) == chunks[j] {
      if j < |ds| {
        assert es[j] == ds[j] && InUse(own2, ds[j]) && ds[j] != b;
      }
    }
  }

  lemma ListsMore(own: set<nat>, ds: seq<nat>, indirect: nat, b: nat)
    requires Lists(own, ds, indirect) && b >= 1 && b - 1 !in own && |ds| != DIRECT
    ensures b != indirect && Lists(own + {b - 1}, ds + [b], indirect)
  {
    assert forall j :: 0 <= j < |ds| ==> (ds + [b])[j] == ds[j];
  }

  /** a.fs is gs with one more block, a.num, taken. */
  ghost predicate TookBody(fs: Disk, gs: Disk, own: set<nat>, a: Alloc, key: nat) {
    && a.Alloc? && a.num >= 1 && a.num - 1 !in own && Taken(fs, a.fs, own + {a.num - 1})
    && a.fs[1] == gs[1] && a.fs[2] == gs[2]
    && forall c :: InUse(own, c) ==> At(a.fs, c) == At(gs, c)
  }

  ghost predicate Took(fs: Disk, gs: Disk, own: set<nat>, a: Alloc) {
    a.Alloc? && a.num >= 1 && forall key: nat :: TookBody(fs, gs, own, a, key)
  }

  lemma TakeOne(fs: Disk, gs: Disk, own: set<nat>)
    requires BlocksSound(fs) && Taken(fs, gs, own)
    ensures var a := Allocate(gs, BlockMap(gs)); a.Alloc? ==> Took(fs, gs, own, a)
  {
    TakeBlock(fs, gs, own);
    assert TakeResultBody(fs, own, Allocate(gs, BlockMap(gs)), 0);
    TakeLeaves(fs, gs, own);
  }

  lemma SmallPointer(fs: Disk, gs: Disk, own: set<nat>, b: nat)
    requires BlocksSound(fs) && Taken(fs, gs, own) && InUse(own, b)
    ensures b < WORD
  {
    assert BlocksSoundBody(fs, 0) && TakenBody(fs, gs, own, 0);
    assert b - 1 < BITS;
  }

  lemma DirectDisk(fs: Disk, gs: Disk, own: set<nat>, ds: seq<nat>, chunks: seq<Block>, a: Alloc)
    requires BlocksSound(fs) && OnDisk(fs, gs, own, ds, 0, chunks) && |ds| < DIRECT && |ds| < |chunks|
    requires Took(fs, gs, own, a)
    ensures OnDisk(fs, WriteBlock(a.fs, a.num, chunks[|ds|]), own + {a.num - 1}, ds + [a.num], 0, chunks)
  {
    assert TookBody(fs, gs, own, a, 0);
    assert OnDiskBody(fs, gs, own, ds, 0, chunks, 0);
    SpentSame(fs, gs, a.fs, |ds|);
    AddData(fs, gs, a.fs, own, own + {a.num - 1}, ds, a.num, chunks);
    ListsMore(own, ds, 0, a.num);
  }

  lemma DirectData(fs: Disk, f: File, was: InodeBytes, own: set<nat>, ds: seq<nat>, chunks: seq<Block>, a: Alloc)
    requires BlocksSound(fs) && Written(fs, f, was, own, ds, chunks) && |ds| < DIRECT && |ds| < |chunks|
    requires Took(fs, f.fs, own, a)
    ensures var h := File(a.fs, Put32(f.inode, INODE_LIST + 4 * |ds|, a.num), f.indirect);
            Written(fs, WriteData(h, a.num, chunks[|ds|]), was, own + {a.num - 1}, ds + [a.num], chunks)
  {
    assert TookBody(fs, f.fs, own, a, 0);
    assert OnDiskBody(fs, f.fs, own, ds, f.indirect, chunks, 0);
    var inode := MoreBlocks(Put32(f.inode, INODE_LIST + 4 * |ds|, a.num));
    SmallPointer(fs, a.fs, own + {a.num - 1}, a.num);
    DirectDisk(fs, f.fs, own, ds, chunks, a);
    PointsSet(f.inode, was, ds, f.indirect, a.num, a.num);
    PointsAny(inode, was, ds + [a.num], a.num, f.indirect);
  }

  lemma PointsAny(inode: InodeBytes, was: InodeBytes, ds: seq<nat>, x: nat, y: nat)
    requires Points(inode, was, ds, x) && |ds| <= DIRECT
    ensures Points(inode, was, ds, y)
  {
  }

  /** Writing a link into the indirect block, once the block is owned. */
  lemma LinkKeeps(fs: Disk, gs: Disk, own: set<nat>, x: nat, b: nat, k: nat, n: nat)
    requires BlocksSound(fs) && Taken(fs, gs, own) && Spent(fs, gs, n) && InUse(own, x) && b < WORD && k < LINKS
    ensures var r := WriteLink(gs, x, b, k);
            && Taken(fs, r, own) && Spent(fs, r, n)
            && (forall c :: InUse(own, c) && c != x ==> At(r, c) == At(gs, c))
            && Get32(At(r, x), 4 * k) == b
            && forall p :: 0 <= p < LINKS && p != k ==> Get32(At(r, x), 4 * p) == Get32(At(gs, x), 4 * p)
  {
    var block := Put32(At(gs, x), 4 * k, b);
    StoreOwn(fs, gs, own, x, block);
    StoreLeaves(fs, gs, own, x, block);
    SpentSame(fs, gs, Store(gs, x, block), n);
    Get32Put32(At(gs, x), 4 * k, b);
    forall p | 0 <= p < LINKS && p != k ensures Get32(block, 4 * p) == Get32(At(gs, x), 4 * p) {
      Get32Apart(At(gs, x), 4 * k, Four(b), 4 * p);
    }
  }

  lemma IndirectDisk(fs: Disk, gs: Disk, own: set<nat>, ds: seq<nat>, chunks: seq<Block>, a: Alloc, d: Alloc)
    requires BlocksSound(fs) && OnDisk(fs, gs, own, ds, 0, chunks) && |ds| == DIRECT && |ds| < |chunks|
    requires Took(fs, gs, own, a) && Took(fs, a.fs, own + {a.num - 1}, d)
    ensures OnDisk(fs, WriteBlock(WriteLink(d.fs, a.num, d.num, 0), d.num, chunks[|ds|]),
                   own + {a.num - 1} + {d.num - 1}, ds + [d.num], a.num, chunks)
  {
    var own1 := own + {a.num - 1};
    var own2 := own1 + {d.num - 1};
    var hs := WriteLink(d.fs, a.num, d.num, 0);
    assert Lists(own, ds, 0) && Holds(gs, ds, chunks) && Spent(fs, gs, |ds|) by {
      assert OnDiskBody(fs, gs, own, ds, 0, chunks, 0);
    }
    assert a.num - 1 !in own && d.num - 1 !in own1 && Taken(fs, d.fs, own2) && Spent(fs, d.fs, |ds|) by {
      assert TookBody(fs, gs, own, a, 0) && TookBody(fs, a.fs, own1, d, 0);
      SpentSame(fs, gs, a.fs, |ds|);
      SpentSame(fs, a.fs, d.fs, |ds|);
    }
    SmallPointer(fs, d.fs, own2, d.num);
    LinkKeeps(fs, d.fs, own2, a.num, d.num, 0, |ds|);
    TwiceKept(fs, gs, own, ds, a, d, hs);
    ListsIndirect(own, ds, a.num, d.num);
    FirstLink(hs, ds, a.num, d.num);
    DataOnDisk(fs, gs, hs, own, own2, ds, a.num, d.num, chunks);
  }

  lemma FirstLink(hs: Disk, ds: seq<nat>, x: nat, b: nat)
    requires |ds| == DIRECT && Get32(At(hs, x), 0) == b
    ensures Links(hs, ds + [b], x)
  {
  }

  lemma TwiceKept(fs: Disk, gs: Disk, own: set<nat>, ds: seq<nat>, a: Alloc, d: Alloc, hs: Disk)
    requires Took(fs, gs, own, a) && Took(fs, a.fs, own + {a.num - 1}, d) && Lists(own, ds, 0)
    requires forall c :: InUse(own + {a.num - 1} + {d.num - 1}, c) && c != a.num ==> At(hs, c) == At(d.fs, c)
    ensures forall j :: 0 <= j < |ds| ==> InUse(own, ds[j]) && At(hs, ds[j]) == At(gs, ds[j])
  {
    assert TookBody(fs, gs, own, a, 0) && TookBody(fs, a.fs, own + {a.num - 1}, d, 0);
    forall j | 0 <= j < |ds| ensures InUse(own, ds[j]) && At(hs, ds[j]) == At(gs, ds[j]) {
      assert InUse(own + {a.num - 1}, ds[j]) && InUse(own + {a.num - 1} + {d.num - 1}, ds[j]) && ds[j] != a.num;
    }
  }

  lemma ListsIndirect(own: set<nat>, ds: seq<nat>, x: nat, b: nat)
    requires Lists(own, ds, 0) && |ds| == DIRECT && x >= 1 && x - 1 !in own && b >= 1 && b - 1 !in own + {x - 1}
    ensures b != x && Lists(own + {x - 1} + {b - 1}, ds + [b], x)
  {
    assert forall j :: 0 <= j < |ds| ==> (ds + [b])[j] == ds[j];
  }

  lemma LinkedDisk(fs: Disk, gs: Disk, own: set<nat>, ds: seq<nat>, x: nat, chunks: seq<Block>, a: Alloc)
    requires BlocksSound(fs) && OnDisk(fs, gs, own, ds, x, chunks) && DIRECT < |ds| < |chunks|
    requires Took(fs, gs, own, a)
    ensures var hs := if |ds| < LINKS + DIRECT then WriteLink(a.fs, x, a.num, |ds| - DIRECT) else a.fs;
            OnDisk(fs, WriteBlock(hs, a.num, chunks[|ds|]), own + {a.num - 1}, ds + [a.num], x, chunks)
  {
    var hs := if |ds| < LINKS + DIRECT then WriteLink(a.fs, x, a.num, |ds| - DIRECT) else a.fs;
    TookFacts(fs, gs, own, ds, x, chunks, a);
    LinkAdded(fs, a.fs, own + {a.num - 1}, x, a.num, |ds|);
    LinkedWith(fs, gs, own, ds, x, chunks, a, hs);
  }

  lemma TookFacts(fs: Disk, gs: Disk, own: set<nat>, ds: seq<nat>, x: nat, chunks: seq<Block>, a: Alloc)
    requires BlocksSound(fs) && OnDisk(fs, gs, own, ds, x, chunks) && DIRECT < |ds| && Took(fs, gs, own, a)
    ensures a.num - 1 !in own && Taken(fs, a.fs, own + {a.num - 1}) && Spent(fs, a.fs, |ds|)
    ensures InUse(own, x) && At(a.fs, x) == At(gs, x) && InUse(own + {a.num - 1}, a.num)
  {
    assert TookBody(fs, gs, own, a, 0);
    assert OnDiskBody(fs, gs, own, ds, x, chunks, 0);
    SpentSame(fs, gs, a.fs, |ds|);
  }

  /** The block x of r holds the links of gs, and one more to b as the n-th if there is a place for it. */
  ghost predicate OneLinkMore(gs: Disk, r: Disk, x: nat, b: nat, n: nat)
    requires n > DIRECT
  {
    if n < LINKS + DIRECT then
      && Get32(At(r, x), 4 * (n - DIRECT)) == b
      && forall p :: 0 <= p < LINKS && p != n - DIRECT ==> Get32(At(r, x), 4 * p) == Get32(At(gs, x), 4 * p)
    else At(r, x) == At(gs, x)
  }

  lemma LinkedWith(fs: Disk, gs: Disk, own: set<nat>, ds: seq<nat>, x: nat, chunks: seq<Block>, a: Alloc, hs: Disk)
    requires BlocksSound(fs) && OnDisk(fs, gs, own, ds, x, chunks) && DIRECT < |ds| < |chunks|
    requires Took(fs, gs, own, a) && a.num - 1 !in own && InUse(own, x) && At(a.fs, x) == At(gs, x)
    requires Taken(fs, hs, own + {a.num - 1}) && Spent(fs, hs, |ds|) && OneLinkMore(a.fs, hs, x, a.num, |ds|)
    requires forall c :: InUse(own + {a.num - 1}, c) && c != x ==> At(hs, c) == At(a.fs, c)
    ensures OnDisk(fs, WriteBlock(hs, a.num, chunks[|ds|]), own + {a.num - 1}, ds + [a.num], x, chunks)
  {
    assert Lists(own, ds, x) && Holds(gs, ds, chunks) && Links(gs, ds, x) by {
      assert OnDiskBody(fs, gs, own, ds, x, chunks, 0);
    }
    DataKept(fs, gs, own, ds, x, a, hs);
    ListsMore(own, ds, x, a.num);
    LinksMore(gs, hs, ds, x, a.num);
    DataOnDisk(fs, gs, hs, own, own + {a.num - 1}, ds, x, a.num, chunks);
  }

  /** The data blocks written so far are as they were. */
  lemma DataKept(fs: Disk, gs: Disk, own: set<nat>, ds: seq<nat>, x: nat, a: Alloc, hs: Disk)
    requires Took(fs, gs, own, a) && Lists(own, ds, x)
    requires forall c :: InUse(own + {a.num - 1}, c) && c != x ==> At(hs, c) == At(a.fs, c)
    ensures forall j :: 0 <= j < |ds| ==> InUse(own, ds[j]) && At(hs, ds[j]) == At(gs, ds[j])
  {
    assert TookBody(fs, gs, own, a, 0);
    forall j | 0 <= j < |ds| ensures InUse(own, ds[j]) && At(hs, ds[j]) == At(gs, ds[j]) {
      assert InUse(own + {a.num - 1}, ds[j]);
    }
  }

  /** One more data block, whose link is in the indirect block already. */
  lemma DataOnDisk(fs: Disk, gs: Disk, hs: Disk, own: set<nat>, own2: set<nat>, ds: seq<nat>, x: nat, b: nat, chunks: seq<Block>)
    requires BlocksSound(fs) && Taken(fs, hs, own2) && Spent(fs, hs, |ds|)
    requires own <= own2 && InUse(own2, b) && !InUse(own, b) && InUse(own2, x) && x != b
    requires Holds(gs, ds, chunks) && |ds| < |chunks|
    requires forall j :: 0 <= j < |ds| ==> InUse(own, ds[j]) && At(hs, ds[j]) == At(gs, ds[j])
    requires Lists(own2, ds + [b], x) && Links(hs, ds + [b], x)
    ensures OnDisk(fs, WriteBlock(hs, b, chunks[|ds|]), own2, ds + [b], x, chunks)
  {
    AddData(fs, gs, hs, own, own2, ds, b, chunks);
    SameLinks(hs, WriteBlock(hs, b, chunks[|ds|]), ds + [b], x);
  }

  lemma SameLinks(hs: Disk, r: Disk, es: seq<nat>, x: nat)
    requires At(r, x) == At(hs, x) && Links(hs, es, x)
    ensures Links(r, es, x)
  {
  }

  /** The link to the n-th data block, if the indirect block has a place for it. */
  lemma LinkAdded(fs: Disk, gs: Disk, own: set<nat>, x: nat, b: nat, n: nat)
    requires BlocksSound(fs) && Taken(fs, gs, own) && Spent(fs, gs, n) && InUse(own, x) && InUse(own, b) && n > DIRECT
    ensures var r := if n < LINKS + DIRECT then WriteLink(gs, x, b, n - DIRECT) else gs;
            && Taken(fs, r, own) && Spent(fs, r, n)
            && (forall c :: InUse(own, c) && c != x ==> At(r, c) == At(gs, c))
            && OneLinkMore(gs, r, x, b, n)
  {
    SmallPointer(fs, gs, own, b);
    if n < LINKS + DIRECT {
      LinkKeeps(fs, gs, own, x, b, n - DIRECT, n);
    }
  }

  lemma LinksMore(gs: Disk, hs: Disk, ds: seq<nat>, x: nat, b: nat)
    requires Links(gs, ds, x) && |ds| > DIRECT && OneLinkMore(gs, hs, x, b, |ds|)
    ensures Links(hs, ds + [b], x)
  {
    var es := ds + [b];
    forall j | DIRECT <= j < |es| && j < LINKS + DIRECT ensures Get32(At(hs, x), 4 * (j - DIRECT)) == es[j] {
      var p := j - DIRECT;
      if j < |ds| {
        assert Get32(At(gs, x), 4 * p) == ds[j];
      }
    }
  }

  lemma IndirectData(fs: Disk, f: File, was: InodeBytes, own: set<nat>, ds: seq<nat>, chunks: seq<Block>, a: Alloc, d: Alloc)
    requires BlocksSound(fs) && Written(fs, f, was, own, ds, chunks) && |ds| == DIRECT && |ds| < |chunks|
    requires Took(fs, f.fs, own, a) && Took(fs, a.fs, own + {a.num - 1}, d)
    ensures var h := File(WriteLink(d.fs, a.num, d.num, 0), Put32(f.inode, INODE_LIST + 4 * |ds|, a.num), a.num);
            Written(fs, WriteData(h, d.num, chunks[|ds|]), was, own + {a.num - 1} + {d.num - 1}, ds + [d.num], chunks)
  {
    assert TookBody(fs, f.fs, own, a, 0);
    assert OnDiskBody(fs, f.fs, own, ds, f.indirect, chunks, 0);
    IndirectDisk(fs, f.fs, own, ds, chunks, a, d);
    SmallPointer(fs, a.fs, own + {a.num - 1}, a.num);
    PointsSet(f.inode, was, ds, f.indirect, d.num, a.num);
  }

  lemma LinkedData(fs: Disk, f: File, was: InodeBytes, own: set<nat>, ds: seq<nat>, chunks: seq<Block>, a: Alloc)
    requires BlocksSound(fs) && Written(fs, f, was, own, ds, chunks) && DIRECT < |ds| < |chunks| < 0x4000_0000
    requires Took(fs, f.fs, own, a)
    ensures var hs := if |ds| < LINKS + DIRECT then WriteLink(a.fs, f.indirect, a.num, |ds| - DIRECT) else a.fs;
            Written(fs, WriteData(File(hs, f.inode, f.indirect), a.num, chunks[|ds|]), was, own + {a.num - 1}, ds + [a.num], chunks)
  {
    LinkedDisk(fs, f.fs, own, ds, f.indirect, chunks, a);
    PointsMore(f.inode, was, ds, f.indirect, a.num);
  }

  /** What block a, and behind it block d, have been found to be. */
  ghost predicate Found(fs: Disk, gs: Disk, own: set<nat>, a: Alloc, d: Alloc) {
    && (a.Alloc? ==> |a.fs| == |gs| && Took(fs, gs, own, a))
    && (a.Alloc? && d.Alloc? ==> |d.fs| == |gs| && Took(fs, a.fs, own + {a.num - 1}, d))
    && (a.Exhausted? ==> |FreeBlocks(fs)| <= |own|)
    && (a.Alloc? && d.Exhausted? ==> |FreeBlocks(fs)| <= |own| + 1)
  }

  /** One allocation on top of the blocks owned so far: it takes a block, or there is none left. */
  lemma FindOne(fs: Disk, gs: Disk, own: set<nat>, a: Alloc)
    requires BlocksSound(fs) && Taken(fs, gs, own) && a == Allocate(gs, BlockMap(gs))
    ensures if a.Alloc? then |a.fs| == |gs| && Took(fs, gs, own, a) && Taken(fs, a.fs, own + {a.num - 1})
            else |FreeBlocks(fs)| <= |own|
  {
    TakeBlock(fs, gs, own);
    assert TakeResultBody(fs, own, a, 0);
    if a.Alloc? {
      TakeOne(fs, gs, own);
    } else {
      ExhaustedSize(fs, own);
    }
  }

  lemma Find(fs: Disk, gs: Disk, own: set<nat>, a: Alloc, d: Alloc)
    requires BlocksSound(fs) && Taken(fs, gs, own)
    requires a == Allocate(gs, BlockMap(gs)) && d == if a.Alloc? then Allocate(a.fs, BlockMap(a.fs)) else Exhausted
    ensures Found(fs, gs, own, a, d)
  {
    FindOne(fs, gs, own, a);
    if a.Alloc? {
      FindOne(fs, a.fs, own + {a.num - 1}, d);
      OneMoreOwned(own, a.num - 1);
    }
  }

  lemma OneMoreOwned(own: set<nat>, k: nat)
    ensures |own + {k}| <= |own| + 1
  {
    if k in own {
      assert own + {k} == own;
    }
  }

  /** One round of the loop adds one data block, or there are too few. */
  lemma RoundKeeps(fs: Disk, f: File, was: InodeBytes, own: set<nat>, ds: seq<nat>, chunks: seq<Block>, a: Alloc, d: Alloc)
    returns (own2: set<nat>, ds2: seq<nat>)
    requires BlocksSound(fs) && Written(fs, f, was, own, ds, chunks) && |ds| < |chunks| < 0x4000_0000
    requires Found(fs, f.fs, own, a, d)
    ensures var r := FillWith(f, |ds|, chunks[|ds|], a, d);
            if r.Full? then |FreeBlocks(fs)| < Need(|ds| + 1)
            else |ds2| == |ds| + 1 && Written(fs, r.file, was, own2, ds2, chunks)
  {
    own2, ds2 := own, ds;
    var r := FillWith(f, |ds|, chunks[|ds|], a, d);
    assert |own| == Need(|ds|) by {
      OwnSize(fs, f, was, own, ds, chunks);
    }
    if r.Filled? {
      if |ds| == DIRECT {
        IndirectData(fs, f, was, own, ds, chunks, a, d);
        own2, ds2 := own + {a.num - 1} + {d.num - 1}, ds + [d.num];
      } else {
        OneBlockRound(fs, f, was, own, ds, chunks, a, d);
        own2, ds2 := own + {a.num - 1}, ds + [a.num];
      }
    }
  }

  lemma OneBlockRound(fs: Disk, f: File, was: InodeBytes, own: set<nat>, ds: seq<nat>, chunks: seq<Block>, a: Alloc, d: Alloc)
    requires BlocksSound(fs) && Written(fs, f, was, own, ds, chunks) && |ds| < |chunks| < 0x4000_0000
    requires Found(fs, f.fs, own, a, d) && a.Alloc? && |ds| != DIRECT
    ensures Written(fs, FillWith(f, |ds|, chunks[|ds|], a, d).file, was, own + {a.num - 1}, ds + [a.num], chunks)
  {
    if |ds| < DIRECT {
      DirectData(fs, f, was, own, ds, chunks, a);
    } else {
      LinkedData(fs, f, was, own, ds, chunks, a);
    }
  }

  lemma StepKeeps(fs: Disk, f: File, was: InodeBytes, own: set<nat>, ds: seq<nat>, chunks: seq<Block>)
    returns (own2: set<nat>, ds2: seq<nat>)
    requires BlocksSound(fs) && Written(fs, f, was, own, ds, chunks) && |ds| < |chunks| < 0x4000_0000
    ensures var r := FillStep(f, |ds|, chunks[|ds|]);
            if r.Full? then |FreeBlocks(fs)| < Need(|ds| + 1)
            else |ds2| == |ds| + 1 && Written(fs, r.file, was, own2, ds2, chunks)
  {
    OwnSize(fs, f, was, own, ds, chunks);
    var a := Allocate(f.fs, BlockMap(f.fs));
    var d := if a.Alloc? then Allocate(a.fs, BlockMap(a.fs)) else Exhausted;
    Find(fs, f.fs, own, a, d);
    own2, ds2 := RoundKeeps(fs, f, was, own, ds, chunks, a, d);
  }

  function FreeBlocks(fs: Disk): (s: set<nat>) {
    set k: nat | k < BITS && k !in UsedBlocks(fs)
  }

  /** Blocks a file of n data blocks takes. */
  function Need(n: nat): (r: nat) {
    if n > DIRECT then n + 1 else n
  }

  lemma {:induction false} SubsetSize<T>(a: set<T>, b: set<T>)
    requires a <= b
    ensures |a| <= |b|
  {
    if x :| x in a {
      SubsetSize(a - {x}, b - {x});
    }
  }

  lemma OwnIsFree(fs: Disk, gs: Disk, own: set<nat>)
    requires Taken(fs, gs, own)
    ensures own <= FreeBlocks(fs) && |own| <= |FreeBlocks(fs)|
  {
    assert TakenBody(fs, gs, own, 0);
    SubsetSize(own, FreeBlocks(fs));
  }

  lemma ExhaustedSize(fs: Disk, own: set<nat>)
    requires forall k: nat :: k < BITS ==> k in UsedBlocks(fs) + own
    ensures |FreeBlocks(fs)| <= |own|
  {
    forall k | k in FreeBlocks(fs) ensures k in own {
      assert k in UsedBlocks(fs) + own;
    }
    SubsetSize(FreeBlocks(fs), own);
  }

  lemma OwnSize(fs: Disk, f: File, was: InodeBytes, own: set<nat>, ds: seq<nat>, chunks: seq<Block>)
    requires Written(fs, f, was, own, ds, chunks)
    ensures Taken(fs, f.fs, own) && |ds| <= |chunks| && |own| == Need(|ds|) <= |FreeBlocks(fs)|
  {
    assert OnDiskBody(fs, f.fs, own, ds, f.indirect, chunks, 0);
    OwnIsFree(fs, f.fs, own);
  }

  /** The step function, named so that proofs about the loop do not look into it. */
  ghost predicate StepsBody(step: (File, nat, Block) -> Fill, key: nat) {
    step == FillStep
  }

  ghost predicate Steps(step: (File, nat, Block) -> Fill) {
    forall key: nat :: StepsBody(step, key)
  }

  lemma StepKeepsAs(step: (File, nat, Block) -> Fill, fs: Disk, f: File, was: InodeBytes,
                    own: set<nat>, ds: seq<nat>, chunks: seq<Block>)
    returns (own2: set<nat>, ds2: seq<nat>)
    requires Steps(step)
    requires BlocksSound(fs) && Written(fs, f, was, own, ds, chunks) && |ds| < |chunks| < 0x4000_0000
    ensures var r := step(f, |ds|, chunks[|ds|]);
            if r.Full? then |FreeBlocks(fs)| < Need(|ds| + 1)
            else |ds2| == |ds| + 1 && Written(fs, r.file, was, own2, ds2, chunks)
  {
    assert StepsBody(step, 0);
    own2, ds2 := StepKeeps(fs, f, was, own, ds, chunks);
  }

  /** The loop either runs out of bits, having too few, or writes every block of the file. */
  lemma {:induction false} FillKeeps(step: (File, nat, Block) -> Fill, fs: Disk, f: File, was: InodeBytes,
                                     own: set<nat>, ds: seq<nat>, chunks: seq<Block>)
    returns (own2: set<nat>, ds2: seq<nat>)
    requires Steps(step)
    requires BlocksSound(fs) && Written(fs, f, was, own, ds, chunks) && |ds| <= |chunks| < 0x4000_0000
    ensures var r := FillFrom(step, f, chunks, |ds|);
            && (r.Filled? <==> Need(|chunks|) <= |FreeBlocks(fs)|)
            && (r.Filled? ==> |ds2| == |chunks| && Written(fs, r.file, was, own2, ds2, chunks))
    decreases |chunks| - |ds|
  {
    own2, ds2 := own, ds;
    OwnSize(fs, f, was, own, ds, chunks);
    if |ds| < |chunks| {
      own2, ds2 := StepKeepsAs(step, fs, f, was, own, ds, chunks);
      var r := step(f, |ds|, chunks[|ds|]);
      if r.Filled? {
        own2, ds2 := FillKeeps(step, fs, r.file, was, own2, ds2, chunks);
      }
    }
  }
}
