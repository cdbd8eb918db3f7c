/**
 The file system's code, changing blocks in place, proved against the functions.
 */
module Ext2Impl {
  import opened Common
  import Bits
  import opened Bitmaps
  import opened Bytes
  import opened Directory
  import opened Ext2Files
  import opened Ext2Fill
  import opened Ext2Paths
  import opened Ext2Runs
  import opened Ext2Spec
  import Strings = StrtokSpec

  /** strncmp, bounded by the entry's length; s is followed by its terminator. */
  method Strncmp(a: seq<byte>, s: seq<byte>, n: nat) returns (r: int)
    requires n == |a| && 0 !in a
    ensures r == Compare(a, s, 0)
  {
    var i := 0;
    while i < n
      invariant 0 <= i <= n && i <= |s| && Compare(a, s, i) == Compare(a, s, 0)
    {
      var c := if i < |s| then s[i] as int else 0;
      if a[i] as int != c {
        return a[i] as int - c;
      }
      i := i + 1;
    }
    return 0;
  }

  /** The search loop of find_inode_in_dir. */
  method SearchDirectory(b: seq<byte>, name: seq<byte>) returns (r: int)
    requires |b| > 0 && Chain(b, 0)
    ensures r == Lookup(b, 0, name)
  {
    var d, sum := 0, 0;
    while true
      invariant 0 <= d < |b| && sum == d && Chain(b, d) && Lookup(b, d, name) == Lookup(b, 0, name)
      decreases |b| - d
    {
      sum := sum + RecLen(b, d);
      var e := EntryAt(b, d);
      var c := Strncmp(e.name, name, NameLen(b, d));
      if c == 0 {
        return e.inode;
      }
      d := d + RecLen(b, d);
      if sum >= |b| {
        break;
      }
    }
    return -1;
  }

  /** Shorten the record at d and write the new one behind it. */
  method CutRecord(b: Block, d: nat, len: nat, name: seq<byte>, inode: nat) returns (c: Block)
    requires IsRecord(b, d) && len == EntryLen(NameLen(b, d)) && Place(b, d, name, inode).Appended?
    ensures Appended(c) == Place(b, d, name, inode)
  {
    c := Put16(b, d + 4, len);
    c := Put(c, d + len, NewRecord(d + len, name, inode));
  }

  /** The loop that finds the last record of a directory block and cuts the new one off it. */
  method AppendEntry(b: Block, name: seq<byte>, inode: nat) returns (r: Append)
    requires Chain(b, 0) && AppendFrom(b, 0, name, inode) != Overflow
    ensures r == AppendFrom(b, 0, name, inode)
  {
    var d, sum := 0, 0;
    var newLen := EntryLen(|name|);
    while true
      invariant 0 <= d < BLOCK_SIZE && sum == d && Chain(b, d)
      invariant AppendFrom(b, d, name, inode) == AppendFrom(b, 0, name, inode)
      decreases BLOCK_SIZE - d
    {
      var len := EntryLen(NameLen(b, d));
      sum := sum + RecLen(b, d);
      if RecLen(b, d) != len && sum == BLOCK_SIZE {
        sum := sum - RecLen(b, d);
        if sum + newLen > BLOCK_SIZE {
          return NoRoom;
        }
        var c := CutRecord(b, d, len, name, inode);
        return Appended(c);
      }
      d := d + RecLen(b, d);
    }
  }

  class FileSystem {
    var blocks: Disk

    /** ext2_alloc_block and ext2_alloc_inode, on the bitmap in the given block. */
    method AllocateIn(bitmap: nat) returns (num: nat)
      requires Allocate(blocks, bitmap).Alloc?
      modifies this
      ensures Alloc(blocks, num) == Allocate(old(blocks), bitmap)
    {
      var b := At(blocks, bitmap);
      var k := FirstFreeBit(WordsOf(b));
      var w := Bits.Or(Get32(b, 4 * (k / 32)), Bits.Shift1(k % 32));
      blocks := Store(blocks, bitmap, Put32(b, 4 * (k / 32), w));
      num := k + 1;
    }

    /** ext2_write_indirect. */
    method WriteIndirect(indirect: nat, link: nat, k: nat)
      requires k < LINKS
      modifies this
      ensures blocks == WriteLink(old(blocks), indirect, link, k)
    {
      var b := At(blocks, indirect);
      blocks := Store(blocks, indirect, Put32(b, 4 * k, link));
    }

    /** ext2_read_indirect. */
    method ReadIndirect(indirect: nat, k: nat) returns (link: nat)
      requires k < LINKS
      ensures link == Get32(At(blocks, indirect), 4 * k)
    {
      link := Get32(At(blocks, indirect), 4 * k);
    }

    method PutData(num: nat, chunk: Block)
      modifies this
      ensures blocks == WriteBlock(old(blocks), num, chunk)
    {
      blocks := Store(blocks, num, chunk);
      blocks := blocks[1 := Less32(blocks[1], SUPER_FREE_BLOCKS)];
      blocks := blocks[2 := Less16(blocks[2], GROUP_FREE_BLOCKS)];
    }

    /** One round of the loop that writes a file. */
    method WriteRound(i: InodeBytes, x: nat, q: nat, chunk: Block) returns (inode: InodeBytes, indirect: nat)
      requires FillStep(File(blocks, i, x), q, chunk).Filled?
      modifies this
      ensures Filled(File(blocks, inode, indirect)) == FillStep(File(old(blocks), i, x), q, chunk)
    {
      inode, indirect := i, x;
      var num := AllocateIn(BlockMap(blocks));
      if q < 12 {
        inode := Put32(inode, INODE_LIST + 4 * q, num);
      } else if q == 12 {
        indirect := num;
        inode := Put32(inode, INODE_LIST + 4 * q, indirect);
        num := AllocateIn(BlockMap(blocks));
        WriteIndirect(indirect, num, 0);
      } else if q < LINKS + 12 {
        WriteIndirect(indirect, num, q - 12);
      }
      inode := MoreBlocks(inode);
      PutData(num, chunk);
    }

    method WriteRoundBy(ghost step: (File, nat, Block) -> Fill, i: InodeBytes, x: nat, q: nat, chunk: Block)
      returns (inode: InodeBytes, indirect: nat)
      requires Steps(step) && step(File(blocks, i, x), q, chunk).Filled?
      modifies this
      ensures Filled(File(blocks, inode, indirect)) == step(File(old(blocks), i, x), q, chunk)
    {
      assert StepsBody(step, 0);
      inode, indirect := WriteRound(i, x, q, chunk);
    }

    /** The loop that writes a file, until no byte is left. */
    method WriteFile(ghost step: (File, nat, Block) -> Fill, i: InodeBytes, data: seq<byte>) returns (inode: InodeBytes, indirect: nat)
      requires Steps(step) && FillFrom(step, File(blocks, i, 0), Chunks(data, 0), 0).Filled?
      modifies this
      ensures Filled(File(blocks, inode, indirect)) == FillFrom(step, File(old(blocks), i, 0), Chunks(data, 0), 0)
    {
      ghost var chunks := Chunks(data, 0);
      ghost var all := FillFrom(step, File(blocks, i, 0), chunks, 0);
      inode, indirect := i, 0;
      var q, sz := 0, |data|;
      ChunkTotal(data, 0);
      while sz > 0
        invariant 0 <= q <= |chunks| && sz == (if q == |chunks| then 0 else |data| - q * BLOCK_SIZE)
        invariant FillFrom(step, File(blocks, inode, indirect), chunks, q) == all
      {
        LastRound(data, q, chunks);
        var c := if sz >= BLOCK_SIZE then BLOCK_SIZE else sz;
        var chunk := Put(EMPTY, 0, data[q * BLOCK_SIZE..q * BLOCK_SIZE + c]);
        inode, indirect := WriteRoundBy(step, inode, indirect, q, chunk);
        q := q + 1;
        sz := sz - c;
      }
    }

    /** ext2_inode, as a place in the inode table, and the copy into it. */
    method PutInode(ino: nat, inode: InodeBytes)
      requires HasInode(blocks, ino)
      modifies this
      ensures blocks == StoreInode(old(blocks), ino, inode)
    {
      var index := (ino - 1) % PerGroup(blocks);
      var b := Table(blocks) + index * INODE_SIZE / BLOCK_SIZE;
      var offset := index % (BLOCK_SIZE / INODE_SIZE) * INODE_SIZE;
      blocks := Store(blocks, b, Put(At(blocks, b), offset, inode));
    }

    /** The directory entry and the counts. */
    method PutName(ino: nat, name: seq<byte>, now: nat) returns (r: nat)
      requires ino >= 1 && LinkName(blocks, ino, name, now) != Outside
      modifies this
      ensures LinkName(old(blocks), ino, name, now) == if r == 0 then DirectoryFull(blocks) else Done(blocks, r)
    {
      var root := Pointer(Inode(blocks, 2), 0);
      var c := AppendEntry(At(blocks, root), name, ino);
      if c == NoRoom {
        return 0;
      }
      blocks := Store(blocks, root, c.block);
      blocks := blocks[1 := Put32(Less32(blocks[1], SUPER_FREE_INODES), SUPER_WTIME, now)];
      blocks := blocks[2 := Less16(blocks[2], GROUP_FREE_INODES)];
      return ino;
    }

    /** The second half of ext2_touch. */
    method FinishFile(ino: nat, i: InodeBytes, indirect: nat, name: seq<byte>, now: nat) returns (r: nat)
      requires Register(File(blocks, i, indirect), ino, name, now) != Outside
      modifies this
      ensures Register(File(old(blocks), i, indirect), ino, name, now) == if r == 0 then DirectoryFull(blocks) else Done(blocks, r)
    {
      WriteIndirect(indirect, 0, NumBlocks(i));
      var inode := MoreBlocks(i);
      PutInode(ino, inode);
      r := PutName(ino, name, now);
    }

    /** ext2_touch: the new inode's number, or zero if the directory has no room. */
    method TouchFile(name: seq<byte>, data: seq<byte>, raw: InodeBytes, now: nat) returns (r: nat)
      requires Touch(blocks, name, data, raw, now) != Outside
      modifies this
      ensures Touch(old(blocks), name, data, raw, now) == if r == 0 then DirectoryFull(blocks) else Done(blocks, r)
    {
      var ino := AllocateIn(InodeMap(blocks));
      var inode, indirect := WriteFile(FillStep, NewInode(raw, |data|, now), data);
      r := FinishFile(ino, inode, indirect, name, now);
    }

    /** The number of block i; at index 12 the number of block 11 is still in use. */
    method NextNumber(inode: InodeBytes, i: nat, was: nat, link: nat) returns (blocknum: nat, indirect: nat)
      requires i < LINKS + DIRECT
      requires (i == 12 ==> was == Pointer(inode, 11)) && (i > 12 ==> link == Pointer(inode, 12))
      ensures blocknum == BlockNumber(blocks, inode, i)
      ensures i >= 12 ==> indirect == Pointer(inode, 12)
    {
      blocknum, indirect := was, link;
      if i < 12 {
        blocknum := Pointer(inode, i);
      } else if i == 12 {
        indirect := Pointer(inode, i);
      } else {
        blocknum := ReadIndirect(indirect, i - 12);
      }
    }

    /** ext2_open: the blocks one after another, until a block number is zero. */
    method OpenFile(inode: InodeBytes) returns (buf: array<byte>)
      requires NumBlocks(inode) <= LINKS + DIRECT
      ensures fresh(buf) && buf.Length == NumBlocks(inode) * BLOCK_SIZE
      ensures |OpenFrom(blocks, inode, 0)| <= NumBlocks(inode)
      ensures buf[..BLOCK_SIZE * |OpenFrom(blocks, inode, 0)|] == Flatten(OpenFrom(blocks, inode, 0))
    {
      var numBlocks := NumBlocks(inode);
      buf := new byte[numBlocks * BLOCK_SIZE];
      var indirect, blocknum, i := 0, 0, 0;
      ghost var done: seq<Block> := [];
      OpenLength(blocks, inode, 0);
      while i < numBlocks
        invariant 0 <= i <= numBlocks && |done| == i
        invariant Progress(blocks, inode, done)
        invariant buf[..BLOCK_SIZE * i] == Flatten(done)
        invariant i == 12 ==> blocknum == Pointer(inode, 11)
        invariant i > 12 ==> indirect == Pointer(inode, 12)
      {
        blocknum, indirect := NextNumber(inode, i, blocknum, indirect);
        if blocknum == 0 {
          Finish(blocks, inode, done);
          return;
        }
        var b := At(blocks, blocknum);
        Memcpy(buf, i * BLOCK_SIZE, b);
        FlattenMore(done, b);
        Advance(blocks, inode, done, b);
        done := done + [b];
        i := i + 1;
      }
      Finish(blocks, inode, done);
    }

    /** The first loop of find_inode_in_dir. */
    method ReadDirectory(inode: InodeBytes) returns (buf: seq<byte>)
      requires NumBlocks(inode) <= 15
      ensures |buf| == NumBlocks(inode) * BLOCK_SIZE && buf == DirectoryBytes(blocks, inode, 0)
    {
      buf := [];
      var q := 0;
      while q < NumBlocks(inode)
        invariant 0 <= q <= NumBlocks(inode)
        invariant |buf| == q * BLOCK_SIZE && buf + DirectoryBytes(blocks, inode, q) == DirectoryBytes(blocks, inode, 0)
      {
        var b := At(blocks, Pointer(inode, q));
        DirectoryMore(blocks, inode, q, buf, b);
        buf := buf + b;
        q := q + 1;
      }
    }

    /** find_inode_in_dir: copy the directory out, then search it. */
    method FindInodeInDir(name: seq<byte>, dir: int) returns (r: int)
      requires dir == 0 || IsDirectory(blocks, dir)
      ensures r == FindInode(blocks, name, dir)
    {
      if dir == 0 {
        return -1;
      }
      var buf := ReadDirectory(Inode(blocks, dir));
      r := SearchDirectory(buf, name);
    }

    /** pathize, over the pieces strtok cuts the path into. */
    method FollowPath(path: string) returns (parent: int)
      requires Walkable(blocks, Strings.Tokens(path, 0, "/"), 2)
      ensures parent == Pathize(blocks, path)
    {
      var pieces := Strings.Tokens(path, 0, "/");
      parent := 2;
      var i := 0;
      while i < |pieces|
        invariant 0 <= i <= |pieces|
        invariant Walkable(blocks, pieces[i..], parent) && Walk(blocks, pieces[i..], parent) == Walk(blocks, pieces, 2)
      {
        assert pieces[i..][1..] == pieces[i + 1..];
        parent := FindInodeInDir(NameOf(pieces[i]), parent);
        i := i + 1;
      }
    }
  }

  lemma DirectoryMore(fs: Disk, inode: InodeBytes, q: nat, buf: seq<byte>, b: Block)
    requires q < NumBlocks(inode) <= 15 && b == At(fs, Pointer(inode, q))
    ensures buf + DirectoryBytes(fs, inode, q) == (buf + b) + DirectoryBytes(fs, inode, q + 1)
  {
    Reassociate(buf, b, DirectoryBytes(fs, inode, q + 1));
  }

  lemma Reassociate(a: seq<byte>, b: seq<byte>, c: seq<byte>)
    ensures a + (b + c) == (a + b) + c
  {
  }

  ghost predicate ProgressBody(fs: Disk, inode: InodeBytes, done: seq<Block>, key: nat)
    requires NumBlocks(inode) <= LINKS + DIRECT
  {
    done + OpenFrom(fs, inode, |done|) == OpenFrom(fs, inode, 0)
  }

  /** What has been copied out, and what is still to come, is the file. */
  ghost predicate Progress(fs: Disk, inode: InodeBytes, done: seq<Block>)
    requires NumBlocks(inode) <= LINKS + DIRECT
  {
    forall key: nat :: ProgressBody(fs, inode, done, key)
  }

  lemma Advance(fs: Disk, inode: InodeBytes, done: seq<Block>, b: Block)
    requires NumBlocks(inode) <= LINKS + DIRECT && Progress(fs, inode, done) && |done| < NumBlocks(inode)
    requires BlockNumber(fs, inode, |done|) != 0 && b == At(fs, BlockNumber(fs, inode, |done|))
    ensures Progress(fs, inode, done + [b])
  {
    assert ProgressBody(fs, inode, done, 0);
    assert done + OpenFrom(fs, inode, |done|) == (done + [b]) + OpenFrom(fs, inode, |done| + 1);
  }

  lemma Finish(fs: Disk, inode: InodeBytes, done: seq<Block>)
    requires NumBlocks(inode) <= LINKS + DIRECT && Progress(fs, inode, done)
    requires |done| >= NumBlocks(inode) || BlockNumber(fs, inode, |done|) == 0
    ensures OpenFrom(fs, inode, 0) == done
  {
    assert ProgressBody(fs, inode, done, 0);
    assert done + [] == done;
  }

  method Memcpy(buf: array<byte>, at: nat, b: Block)
    requires at + BLOCK_SIZE <= buf.Length
    modifies buf
    ensures buf[..at + BLOCK_SIZE] == old(buf[..at]) + b
  {
    var i := 0;
    while i < BLOCK_SIZE
      invariant 0 <= i <= BLOCK_SIZE && buf[..at + i] == old(buf[..at]) + b[..i]
    {
      buf[at + i] := b[i];
      i := i + 1;
    }
  }

  lemma {:induction false} OpenLength(fs: Disk, inode: InodeBytes, i: nat)
    requires i <= NumBlocks(inode) <= LINKS + DIRECT
    ensures |OpenFrom(fs, inode, i)| <= NumBlocks(inode) - i
    decreases NumBlocks(inode) - i
  {
    if i < NumBlocks(inode) {
      OpenLength(fs, inode, i + 1);
    }
  }

  lemma {:induction false} FlattenMore(done: seq<Block>, b: Block)
    ensures Flatten(done + [b]) == Flatten(done) + b
  {
    if done == [] {
    } else {
      assert (done + [b])[1..] == done[1..] + [b];
      FlattenMore(done[1..], b);
    }
  }

  /** Block q of the data, while some is left, and whether it is the last. */
  lemma LastRound(data: seq<byte>, q: nat, chunks: seq<Block>)
    requires chunks == Chunks(data, 0) && q < |chunks|
    ensures q * BLOCK_SIZE < |data| && chunks[q] == Chunk(data, q)
    ensures q + 1 == |chunks| <==> |data| <= (q + 1) * BLOCK_SIZE
  {
    ChunkTotal(data, 0);
    ChunkOf(data, 0, q);
  }

  /** The rounds of the loop are the blocks of the data. */
  lemma {:induction false} ChunkTotal(data: seq<byte>, q: nat)
    requires q * BLOCK_SIZE <= |data| + BLOCK_SIZE
    ensures BLOCK_SIZE * (q + |Chunks(data, q)|) >= |data|
    ensures Chunks(data, q) != [] ==> BLOCK_SIZE * (q + |Chunks(data, q)| - 1) < |data|
    decreases |data| + BLOCK_SIZE - q * BLOCK_SIZE
  {
    if q * BLOCK_SIZE < |data| {
      ChunkTotal(data, q + 1);
    }
  }
}
