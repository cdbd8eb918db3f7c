/**
 The file system's promises: a file that ext2_touch has written reads back through ext2_open,
 counts and bitmaps agree, the file system stays sound, and other files stay as they were.
 */
module Ext2Files {
  import opened Common
  import opened Bitmaps
  import opened Bytes
  import opened Directory
  import opened Ext2Fill
  import opened Ext2Spec
  import opened Ext2Touch

  // ----- the device touch leaves

  lemma MadeChanged(fs: Disk, hs: Disk, ino: nat, name: seq<byte>, chunks: seq<Block>, now: nat, w: Work)
    requires Sound(fs) && Made(fs, hs, ino, name, chunks, now, w)
    ensures Changed(fs, hs, w.own, ino, MoreBlocks(w.file.inode), w.block)
  {
    assert MadeBody(fs, hs, ino, name, chunks, now, w, 0);
    TablesKept(fs, Closed(w.file), w.own, ino);
    FinishedTouch(Closed(w.file), ino, MoreBlocks(w.file.inode), Root(fs), w.block, now);
    FinishedIsChanged(fs, Closed(w.file), w.own, ino, MoreBlocks(w.file.inode), w.block, hs);
  }

  lemma MadeEntries(fs: Disk, hs: Disk, ino: nat, name: seq<byte>, chunks: seq<Block>, now: nat, w: Work, e: Entry)
    requires Made(fs, hs, ino, name, chunks, now, w)
    requires 0 !in name && ino < WORD && e == NewEntry(ino, name)
    ensures Adds(At(fs, Root(fs)), w.block, e)
  {
    var b := At(fs, Root(fs));
    assert Chain(b, 0) && AppendFrom(b, 0, name, ino) == Appended(w.block) by {
      assert MadeBody(fs, hs, ino, name, chunks, now, w, 0);
    }
    AppendAdds(b, w.block, name, ino, e);
  }

  lemma MadeSound(fs: Disk, hs: Disk, ino: nat, name: seq<byte>, chunks: seq<Block>, now: nat, w: Work)
    requires Sound(fs) && Made(fs, hs, ino, name, chunks, now, w) && 0 !in name && ino < WORD
    ensures Sound(hs)
  {
    var e := NewEntry(ino, name);
    MadeChanged(fs, hs, ino, name, chunks, now, w);
    ChangedBlocksSound(fs, hs, w.own, ino, MoreBlocks(w.file.inode), w.block);
    MadeEntries(fs, hs, ino, name, chunks, now, w, e);
    ChangedNamesSound(fs, hs, w.own, ino, MoreBlocks(w.file.inode), w.block, e);
  }

  /** A block the file owns, as it ends up on the device. */
  lemma MadeBlock(fs: Disk, hs: Disk, ino: nat, name: seq<byte>, chunks: seq<Block>, now: nat, w: Work, b: nat)
    requires Sound(fs) && Made(fs, hs, ino, name, chunks, now, w) && InUse(w.own, b)
    ensures |w.ds| < LINKS
    ensures At(hs, b) == if b == w.file.indirect then Put32(At(w.file.fs, b), 4 * |w.ds|, 0) else At(w.file.fs, b)
  {
    assert MadeBody(fs, hs, ino, name, chunks, now, w, 0);
    Filling(fs, w.start, ino, w.was, chunks, w.file, w.own, w.ds);
    OwnIsFar(fs, w.own, b);
    TablesKept(fs, Closed(w.file), w.own, ino);
    InodeAt(Closed(w.file), ino);
    FinishedTouch(Closed(w.file), ino, MoreBlocks(w.file.inode), Root(fs), w.block, now);
    assert FinishedBody(Closed(w.file), ino, MoreBlocks(w.file.inode), Root(fs), w.block, hs, 0);
    assert BlocksSoundBody(fs, 0) && TakenBothBody(fs, w.file.fs, w.own, ino, 0);
  }

  // ----- reading a file back

  /** The blocks ext2_open copies out for inode ino. */
  function Open(fs: Disk, ino: nat): (r: seq<Block>)
    requires HasInode(fs, ino) && NumBlocks(Inode(fs, ino)) <= LINKS + DIRECT
  {
    OpenFrom(fs, Inode(fs, ino), 0)
  }

  /** The inode as it ends up: one block more than was written, and the pointers. */
  lemma MadeInode(fs: Disk, hs: Disk, ino: nat, name: seq<byte>, chunks: seq<Block>, now: nat, w: Work)
    requires Sound(fs) && Made(fs, hs, ino, name, chunks, now, w)
    ensures HasInode(hs, ino) && |w.ds| == |chunks| < LINKS
    ensures var inode := Inode(hs, ino);
            && NumBlocks(inode) == |chunks| + 1 && Get32(inode, INODE_BLOCKS) == 2 * |chunks| + 2
            && inode[..INODE_BLOCKS] == w.was[..INODE_BLOCKS]
            && forall j :: 0 <= j < 13 ==>
                 Pointer(inode, j) == if j < |w.ds| then (if j < DIRECT then w.ds[j] else w.file.indirect) else 0
  {
    MadeChanged(fs, hs, ino, name, chunks, now, w);
    assert MadeBody(fs, hs, ino, name, chunks, now, w, 0);
    ChangedInode(fs, hs, w.own, ino, MoreBlocks(w.file.inode), w.block, ino);
    FinalPoints(w.file.inode, w.was, w.ds, w.file.indirect);
  }

  lemma FinalPoints(inode: InodeBytes, was: InodeBytes, ds: seq<nat>, indirect: nat)
    requires Points(inode, was, ds, indirect) && Blank(was) && |ds| < LINKS
    ensures NumBlocks(MoreBlocks(inode)) == |ds| + 1 && Get32(MoreBlocks(inode), INODE_BLOCKS) == 2 * |ds| + 2
    ensures MoreBlocks(inode)[..INODE_BLOCKS] == was[..INODE_BLOCKS]
    ensures forall j :: 0 <= j < 13 ==>
              Pointer(MoreBlocks(inode), j) == if j < |ds| then (if j < DIRECT then ds[j] else indirect) else 0
  {
    BlocksMore(inode, |ds|);
    assert MoreBlocks(inode)[..INODE_BLOCKS] == inode[..INODE_BLOCKS];
    forall j | 0 <= j < 13 ensures Pointer(MoreBlocks(inode), j) == Pointer(inode, j) {
      Get32Apart(inode, INODE_BLOCKS, Four((Get32(inode, INODE_BLOCKS) + 2) % WORD), INODE_LIST + 4 * j);
    }
  }

  /** The block that block i of the file is read from: its own, except that block 12 is read from block 11. */
  function Source(i: nat): (r: nat) {
    if i == DIRECT then DIRECT - 1 else i
  }

  lemma MadeData(fs: Disk, hs: Disk, ino: nat, name: seq<byte>, chunks: seq<Block>, now: nat, w: Work, j: nat)
    requires Sound(fs) && Made(fs, hs, ino, name, chunks, now, w) && j < |chunks|
    ensures |w.ds| == |chunks| && w.ds[j] >= 1 && InUse(w.own, w.ds[j]) && At(hs, w.ds[j]) == chunks[j]
  {
    assert MadeBody(fs, hs, ino, name, chunks, now, w, 0);
    assert OnDiskBody(w.start, w.file.fs, w.own, w.ds, w.file.indirect, chunks, 0);
    MadeBlock(fs, hs, ino, name, chunks, now, w, w.ds[j]);
  }

  lemma MadeLink(fs: Disk, hs: Disk, ino: nat, name: seq<byte>, chunks: seq<Block>, now: nat, w: Work, j: nat)
    requires Sound(fs) && Made(fs, hs, ino, name, chunks, now, w) && DIRECT <= j < |chunks|
    ensures |w.ds| == |chunks| < LINKS && Get32(At(hs, w.file.indirect), 4 * (j - DIRECT)) == w.ds[j]
  {
    assert MadeBody(fs, hs, ino, name, chunks, now, w, 0);
    assert OnDiskBody(w.start, w.file.fs, w.own, w.ds, w.file.indirect, chunks, 0);
    MadeBlock(fs, hs, ino, name, chunks, now, w, w.file.indirect);
    Get32Apart(At(w.file.fs, w.file.indirect), 4 * |w.ds|, Four(0), 4 * (j - DIRECT));
  }

  lemma MadeNumber(fs: Disk, hs: Disk, ino: nat, name: seq<byte>, chunks: seq<Block>, now: nat, w: Work, i: nat)
    requires Sound(fs) && Made(fs, hs, ino, name, chunks, now, w) && i < |chunks|
    ensures HasInode(hs, ino) && |chunks| < LINKS
    ensures BlockNumber(hs, Inode(hs, ino), i) != 0 && At(hs, BlockNumber(hs, Inode(hs, ino), i)) == chunks[Source(i)]
  {
    MadeInode(fs, hs, ino, name, chunks, now, w);
    MadeData(fs, hs, ino, name, chunks, now, w, Source(i));
    if i > DIRECT {
      MadeLink(fs, hs, ino, name, chunks, now, w, i);
    }
  }

  /** Opening reaches block i if no block number before it is zero. */
  lemma {:induction false} OpenAt(fs: Disk, inode: InodeBytes, i: nat, k: nat)
    requires i <= k < NumBlocks(inode) <= LINKS + DIRECT
    requires forall j :: i <= j <= k ==> BlockNumber(fs, inode, j) != 0
    ensures |OpenFrom(fs, inode, i)| > k - i && OpenFrom(fs, inode, i)[k - i] == At(fs, BlockNumber(fs, inode, k))
    decreases k - i
  {
    if i < k {
      OpenAt(fs, inode, i + 1, k);
    }
  }

  /** Opening stops where the block number is zero. */
  lemma {:induction false} OpenStops(fs: Disk, inode: InodeBytes, i: nat, k: nat)
    requires i <= k && NumBlocks(inode) <= LINKS + DIRECT && k < LINKS + DIRECT
    requires k >= NumBlocks(inode) || BlockNumber(fs, inode, k) == 0
    ensures |OpenFrom(fs, inode, i)| <= k - i
    decreases k - i
  {
    if i < k {
      OpenStops(fs, inode, i + 1, k);
    }
  }

  /** Block numbers lead to the blocks of the file, up to the length the inode holds. */
  ghost predicate LeadTo(fs: Disk, inode: InodeBytes, chunks: seq<Block>) {
    && NumBlocks(inode) == |chunks| + 1 <= LINKS
    && (forall i :: 0 <= i < |chunks| ==>
         BlockNumber(fs, inode, i) != 0 && At(fs, BlockNumber(fs, inode, i)) == chunks[Source(i)])
    && (|chunks| < DIRECT ==> Pointer(inode, |chunks|) == 0)
  }

  /**
   What reading gives: every block but the thirteenth is what was written, and the thirteenth
   is read as the twelfth.  A file of fewer than 12 blocks comes back alone; one of 12 is
   followed by its last block once more.
   */
  predicate ReadsAs(r: seq<Block>, chunks: seq<Block>) {
    && |r| >= |chunks|
    && (forall i :: 0 <= i < |chunks| ==> r[i] == chunks[Source(i)])
    && (|chunks| < DIRECT ==> |r| == |chunks|)
    && (|chunks| == DIRECT ==> |r| == 13 && r[12] == chunks[11])
  }

  lemma OpenReads(fs: Disk, inode: InodeBytes, chunks: seq<Block>)
    requires LeadTo(fs, inode, chunks)
    ensures ReadsAs(OpenFrom(fs, inode, 0), chunks)
  {
    var n := |chunks|;
    forall i | 0 <= i < n ensures |OpenFrom(fs, inode, 0)| > i && OpenFrom(fs, inode, 0)[i] == chunks[Source(i)] {
      OpenAt(fs, inode, 0, i);
    }
    if n > 0 {
      OpenAt(fs, inode, 0, n - 1);
    }
    if n < DIRECT {
      OpenStops(fs, inode, 0, n);
    } else if n == DIRECT {
      OpenExtra(fs, inode, chunks);
    }
  }

  lemma OpenExtra(fs: Disk, inode: InodeBytes, chunks: seq<Block>)
    requires LeadTo(fs, inode, chunks) && |chunks| == DIRECT
    ensures |OpenFrom(fs, inode, 0)| == 13 && OpenFrom(fs, inode, 0)[12] == chunks[11]
  {
    assert BlockNumber(fs, inode, 11) != 0 && At(fs, BlockNumber(fs, inode, 11)) == chunks[Source(11)];
    OpenAt(fs, inode, 0, 12);
    OpenStops(fs, inode, 0, 13);
  }

  lemma MadeReadsBack(fs: Disk, hs: Disk, ino: nat, name: seq<byte>, chunks: seq<Block>, now: nat, w: Work)
    requires Sound(fs) && Made(fs, hs, ino, name, chunks, now, w)
    ensures HasInode(hs, ino) && |chunks| < LINKS && NumBlocks(Inode(hs, ino)) == |chunks| + 1
    ensures ReadsAs(Open(hs, ino), chunks)
  {
    MadeInode(fs, hs, ino, name, chunks, now, w);
    var inode := Inode(hs, ino);
    forall i | 0 <= i < |chunks|
      ensures BlockNumber(hs, inode, i) != 0 && At(hs, BlockNumber(hs, inode, i)) == chunks[Source(i)]
    {
      MadeNumber(fs, hs, ino, name, chunks, now, w, i);
    }
    OpenReads(hs, inode, chunks);
  }

  // ----- the counts

  /** The free counts of inodes have gone down by one. */
  ghost predicate SpentInode(fs: Disk, hs: Disk) {
    && (Get32(hs[1], SUPER_FREE_INODES) + 1) % WORD == Get32(fs[1], SUPER_FREE_INODES)
    && (Get16(hs[2], GROUP_FREE_INODES) + 1) % 0x1_0000 == Get16(fs[2], GROUP_FREE_INODES)
  }

  /** The last step takes one inode off the counts and leaves the counts of blocks alone. */
  lemma FinalCounts(b: Block, c: Block, now: nat)
    ensures var p, q := Put32(Less32(b, SUPER_FREE_INODES), SUPER_WTIME, now), Less16(c, GROUP_FREE_INODES);
            && Get32(p, SUPER_FREE_BLOCKS) == Get32(b, SUPER_FREE_BLOCKS)
            && Get16(q, GROUP_FREE_BLOCKS) == Get16(c, GROUP_FREE_BLOCKS)
            && (Get32(p, SUPER_FREE_INODES) + 1) % WORD == Get32(b, SUPER_FREE_INODES)
            && (Get16(q, GROUP_FREE_INODES) + 1) % 0x1_0000 == Get16(c, GROUP_FREE_INODES)
  {
    var l := Less32(b, SUPER_FREE_INODES);
    Get32Apart(l, SUPER_WTIME, Four(now), SUPER_FREE_BLOCKS);
    Get32Apart(l, SUPER_WTIME, Four(now), SUPER_FREE_INODES);
    Get32Apart(b, SUPER_FREE_INODES, Four((Get32(b, SUPER_FREE_INODES) + WORD - 1) % WORD), SUPER_FREE_BLOCKS);
    Less32Spends(b, SUPER_FREE_INODES);
    Less16Spends(c, GROUP_FREE_INODES);
    LastCountApart(c);
  }

  lemma LastCountApart(c: Block)
    ensures Get16(Less16(c, GROUP_FREE_INODES), GROUP_FREE_BLOCKS) == Get16(c, GROUP_FREE_BLOCKS)
  {
    var v := (Get16(c, GROUP_FREE_INODES) + 0xFFFF) % 0x1_0000;
    Get16Apart(c, GROUP_FREE_INODES, [v % 0x100, v / 0x100 % 0x100], GROUP_FREE_BLOCKS);
  }

  /** The headers the last step starts from are those the loop left. */
  lemma HeadersThrough(fs: Disk, hs: Disk, ino: nat, name: seq<byte>, chunks: seq<Block>, now: nat, w: Work)
    requires Sound(fs) && Made(fs, hs, ino, name, chunks, now, w)
    ensures var ms := w.file.fs;
            hs[1] == Put32(Less32(ms[1], SUPER_FREE_INODES), SUPER_WTIME, now) && hs[2] == Less16(ms[2], GROUP_FREE_INODES)
  {
    assert MadeBody(fs, hs, ino, name, chunks, now, w, 0);
    Filling(fs, w.start, ino, w.was, chunks, w.file, w.own, w.ds);
    OwnIsFar(fs, w.own, w.file.indirect);
    TablesKept(fs, Closed(w.file), w.own, ino);
  }

  lemma StartHeaders(fs: Disk, hs: Disk, ino: nat, name: seq<byte>, chunks: seq<Block>, now: nat, w: Work)
    requires Sound(fs) && Made(fs, hs, ino, name, chunks, now, w)
    ensures w.start[1] == fs[1] && w.start[2] == fs[2]
    ensures Headers(w.start, w.file.fs) && Spent(w.start, w.file.fs, |chunks|)
  {
    assert MadeBody(fs, hs, ino, name, chunks, now, w, 0);
    assert OnDiskBody(w.start, w.file.fs, w.own, w.ds, w.file.indirect, chunks, 0);
    assert TakenBody(w.start, w.file.fs, w.own, 0);
    InodesInGroup(fs);
    assert At(w.start, 1) == At(fs, 1) && At(w.start, 2) == At(fs, 2);
  }

  lemma HeadersBefore(fs: Disk, hs: Disk, ino: nat, name: seq<byte>, chunks: seq<Block>, now: nat, w: Work)
    requires Sound(fs) && Made(fs, hs, ino, name, chunks, now, w)
    ensures Spent(fs, w.file.fs, |chunks|)
    ensures Get32(w.file.fs[1], SUPER_FREE_INODES) == Get32(fs[1], SUPER_FREE_INODES)
    ensures Get16(w.file.fs[2], GROUP_FREE_INODES) == Get16(fs[2], GROUP_FREE_INODES)
  {
    StartHeaders(fs, hs, ino, name, chunks, now, w);
    assert SpentBody(w.start, w.file.fs, |chunks|, 0);
    AgreeField(w.file.fs[1], fs[1], SUPER_FREE_BLOCKS, SUPER_FREE_BLOCKS + 4, SUPER_FREE_INODES);
  }

  lemma MadeCounts(fs: Disk, hs: Disk, ino: nat, name: seq<byte>, chunks: seq<Block>, now: nat, w: Work)
    requires Sound(fs) && Made(fs, hs, ino, name, chunks, now, w)
    ensures Spent(fs, hs, |chunks|) && SpentInode(fs, hs)
  {
    HeadersThrough(fs, hs, ino, name, chunks, now, w);
    HeadersBefore(fs, hs, ino, name, chunks, now, w);
    var ms := w.file.fs;
    FinalCounts(ms[1], ms[2], now);
    assert SpentBody(fs, ms, |chunks|, 0);
  }

  // ----- the data and its blocks

  /** The data, padded with zeros to whole blocks. */
  function Padded(data: seq<byte>): (r: seq<byte>) {
    data + Zeros((BLOCK_SIZE - |data| % BLOCK_SIZE) % BLOCK_SIZE)
  }

  lemma {:induction false} ChunksHold(data: seq<byte>, q: nat)
    requires q * BLOCK_SIZE <= |data|
    ensures Flatten(Chunks(data, q)) == Padded(data)[q * BLOCK_SIZE..]
    decreases |data| - q * BLOCK_SIZE
  {
    var p, n := q * BLOCK_SIZE, |data|;
    if p == n {
      assert n % BLOCK_SIZE == 0;
    } else {
      assert Flatten(Chunks(data, q)) == Chunk(data, q) + Flatten(Chunks(data, q + 1));
      if n - p >= BLOCK_SIZE {
        ChunksHold(data, q + 1);
        assert Chunk(data, q) == Padded(data)[p..p + BLOCK_SIZE];
      } else {
        assert n % BLOCK_SIZE == n - p;
        assert Chunk(data, q) == Padded(data)[p..];
      }
    }
  }

  // ----- the inode's head and the boot block

  /** What the head of a new file's inode says. */
  predicate NewFileHead(inode: InodeBytes, size: nat, now: nat) {
    && Get16(inode, 0) == 0x81C0 && Get32(inode, 4) == size && Get16(inode, 26) == 1
    && Get32(inode, 8) == now && Get32(inode, 12) == now && Get32(inode, 16) == now && Get32(inode, 20) == 0
  }

  lemma NewInodeHead(raw: InodeBytes, size: nat, now: nat)
    requires size < WORD && now < WORD
    ensures NewFileHead(NewInode(raw, size, now), size, now)
  {
    var mode := Put16(raw, 0, 0x81C0);
    var sized := Put32(mode, 4, size);
    var head := Put16(sized, 26, 1);
    var times := Four(now) + Four(now) + Four(now) + Four(0);
    Get16Put16(raw, 0, 0x81C0);
    Get16Apart(mode, 4, Four(size), 0);
    Get16Apart(sized, 26, [1, 0], 0);
    Get16Apart(head, 8, times, 0);
    Get32Put32(mode, 4, size);
    Get32Apart(sized, 26, [1, 0], 4);
    Get32Apart(head, 8, times, 4);
    Get16Put16(sized, 26, 1);
    Get16Apart(head, 8, times, 26);
    Timestamps(head, now);
  }

  lemma Timestamps(head: InodeBytes, now: nat)
    requires now < WORD
    ensures var r := Put(head, 8, Four(now) + Four(now) + Four(now) + Four(0));
            Get32(r, 8) == now && Get32(r, 12) == now && Get32(r, 16) == now && Get32(r, 20) == 0
  {
    var t := Four(now);
    var r := Put(head, 8, t + t + t + Four(0));
    assert r[8..12] == t && r[12..16] == t && r[16..20] == t && r[20..24] == Four(0);
    FourAt(r, 8, now);
    FourAt(r, 12, now);
    FourAt(r, 16, now);
    FourAt(r, 20, 0);
  }

  /** Inodes with the same first 28 bytes have the same head. */
  lemma SameHead(a: InodeBytes, b: InodeBytes, size: nat, now: nat)
    requires a[..INODE_BLOCKS] == b[..INODE_BLOCKS] && NewFileHead(b, size, now)
    ensures NewFileHead(a, size, now)
  {
    assert forall i :: 0 <= i < INODE_BLOCKS ==> a[i] == a[..INODE_BLOCKS][i] == b[..INODE_BLOCKS][i] == b[i];
  }

  /** Ending the list of links: without an indirect block, a word of the boot block is cleared. */
  lemma MadeBootBlock(fs: Disk, hs: Disk, ino: nat, name: seq<byte>, chunks: seq<Block>, now: nat, w: Work)
    requires Sound(fs) && Made(fs, hs, ino, name, chunks, now, w)
    ensures |chunks| < LINKS
    ensures hs[0] == if |chunks| <= DIRECT then Put32(fs[0], 4 * |chunks|, 0) else fs[0]
  {
    assert MadeBody(fs, hs, ino, name, chunks, now, w, 0);
    Filling(fs, w.start, ino, w.was, chunks, w.file, w.own, w.ds);
    TablesKept(fs, Closed(w.file), w.own, ino);
    BootBlockBefore(fs, ino, chunks, w);
  }

  lemma BootBlockBefore(fs: Disk, ino: nat, chunks: seq<Block>, w: Work)
    requires Sound(fs) && InodeTaken(fs, w.start, ino) && Written(w.start, w.file, w.was, w.own, w.ds, chunks)
    ensures w.file.fs[0] == fs[0] && (|w.ds| <= DIRECT <==> w.file.indirect == 0)
  {
    assert OnDiskBody(w.start, w.file.fs, w.own, w.ds, w.file.indirect, chunks, 0);
    assert TakenBody(w.start, w.file.fs, w.own, 0);
    InodesInGroup(fs);
    assert At(w.start, 0) == At(fs, 0);
  }
}
