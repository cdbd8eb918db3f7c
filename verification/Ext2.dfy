/**
 The ext2 file system seen through the block cache: a device is a sequence of 1024-byte
 blocks, and every structure is read from and written to the bytes it lies in.
 Block numbers past the end of the device read as zeros, and writes there are lost.
 */
module Ext2Spec {
  import opened Common
  import Bits
  import opened Bitmaps
  import opened Bytes
  import opened Directory

  const INODE_SIZE: nat := 128
  /** Bits in one block of bitmap. */
  const BITS: nat := 8192
  /** Block pointers that lie in the inode itself. */
  const DIRECT: nat := 12
  /** Links in one indirect block. */
  const LINKS: nat := 256

  // offsets of fields
  const SUPER_FREE_BLOCKS: nat := 12
  const SUPER_FREE_INODES: nat := 16
  const SUPER_PER_GROUP: nat := 40
  const SUPER_WTIME: nat := 48
  const GROUP_BLOCK_MAP: nat := 0
  const GROUP_INODE_MAP: nat := 4
  const GROUP_TABLE: nat := 8
  const GROUP_FREE_BLOCKS: nat := 12
  const GROUP_FREE_INODES: nat := 14
  const INODE_BLOCKS: nat := 28
  const INODE_LIST: nat := 40

  type Block = b: seq<byte> | |b| == BLOCK_SIZE witness seq(1024, _ => 0)
  const EMPTY: Block := Zeros(BLOCK_SIZE)
  type Disk = fs: seq<Block> | |fs| >= 3 witness [EMPTY, EMPTY, EMPTY]
  type InodeBytes = b: seq<byte> | |b| == INODE_SIZE witness seq(128, _ => 0)

  function At(fs: Disk, b: nat): (r: Block) {
    if b < |fs| then fs[b] else EMPTY
  }

  function Store(fs: Disk, b: nat, block: Block): (r: Disk)
    ensures |r| == |fs|
  {
    if b < |fs| then fs[b := block] else fs
  }

  // ----- fields

  function BlockMap(fs: Disk): (r: nat) {
    Get32(fs[2], GROUP_BLOCK_MAP)
  }

  function InodeMap(fs: Disk): (r: nat) {
    Get32(fs[2], GROUP_INODE_MAP)
  }

  function Table(fs: Disk): (r: nat) {
    Get32(fs[2], GROUP_TABLE)
  }

  function PerGroup(fs: Disk): (r: nat) {
    Get32(fs[1], SUPER_PER_GROUP)
  }

  /** Subtract one from a 32-bit field, wrapping. */
  function Less32(b: Block, off: nat): (r: Block)
    requires off + 4 <= BLOCK_SIZE
  {
    Put32(b, off, (Get32(b, off) + WORD - 1) % WORD)
  }

  function Less16(b: Block, off: nat): (r: Block)
    requires off + 2 <= BLOCK_SIZE
  {
    Put16(b, off, (Get16(b, off) + 0xFFFF) % 0x1_0000)
  }

  // ----- bitmaps

  function WordsOf(b: Block): (ws: seq<int>)
    ensures |ws| == 256 && IsBitmap(ws)
  {
    seq(256, q requires 0 <= q < 256 => Get32(b, 4 * q))
  }

  function Marked(b: Block): (s: set<nat>) {
    BitsOf(WordsOf(b))
  }

  function SetBit(b: Block, k: nat): (r: Block)
    requires k < BITS
  {
    Put32(b, 4 * (k / 32), Bits.Or(Get32(b, 4 * (k / 32)), Bits.Shift1(k % 32)))
  }

  datatype Alloc = Alloc(fs: Disk, num: nat) | Exhausted

  /** ext2_alloc_block and ext2_alloc_inode: numbers count from one. */
  function Allocate(fs: Disk, bitmap: nat): (r: Alloc)
    ensures r.Alloc? ==> |r.fs| == |fs| && r.num >= 1
  {
    var num := FirstClear(Marked(At(fs, bitmap)), 0, BITS);
    if num == -1 then Exhausted
    else Alloc(Store(fs, bitmap, SetBit(At(fs, bitmap), num)), num + 1)
  }

  // ----- inodes of the first block group

  predicate HasInode(fs: Disk, ino: nat) {
    1 <= ino <= PerGroup(fs)
  }

  function InodeBlock(fs: Disk, ino: nat): (r: nat)
    requires HasInode(fs, ino)
  {
    Table(fs) + (ino - 1) % PerGroup(fs) * INODE_SIZE / BLOCK_SIZE
  }

  function InodeOffset(fs: Disk, ino: nat): (r: nat)
    requires HasInode(fs, ino)
    ensures r + INODE_SIZE <= BLOCK_SIZE
  {
    (ino - 1) % PerGroup(fs) % 8 * INODE_SIZE
  }

  function Inode(fs: Disk, ino: nat): (r: InodeBytes)
    requires HasInode(fs, ino)
  {
    var off := InodeOffset(fs, ino);
    At(fs, InodeBlock(fs, ino))[off..off + INODE_SIZE]
  }

  function StoreInode(fs: Disk, ino: nat, inode: InodeBytes): (r: Disk)
    requires HasInode(fs, ino)
    ensures |r| == |fs|
  {
    var b := InodeBlock(fs, ino);
    Store(fs, b, Put(At(fs, b), InodeOffset(fs, ino), inode))
  }

  /** Block pointer q of an inode. */
  function Pointer(inode: InodeBytes, q: nat): (r: nat)
    requires q < 15
  {
    Get32(inode, INODE_LIST + 4 * q)
  }

  function NumBlocks(inode: InodeBytes): (r: nat) {
    Get32(inode, INODE_BLOCKS) / 2
  }

  /** Count one more block, in sectors. */
  function MoreBlocks(inode: InodeBytes): (r: InodeBytes) {
    Put32(inode, INODE_BLOCKS, (Get32(inode, INODE_BLOCKS) + 2) % WORD)
  }

  // ----- writing a file

  datatype File = File(fs: Disk, inode: InodeBytes, indirect: nat)
  datatype Fill = Filled(file: File) | Full

  /** Bytes q*1024 and on, padded with zeros to a block. */
  function Chunk(data: seq<byte>, q: nat): (r: Block)
    requires q * BLOCK_SIZE < |data|
  {
    var c := if |data| - q * BLOCK_SIZE >= BLOCK_SIZE then BLOCK_SIZE else |data| - q * BLOCK_SIZE;
    Put(EMPTY, 0, data[q * BLOCK_SIZE..q * BLOCK_SIZE + c])
  }

  /** ext2_write_indirect. */
  function WriteLink(fs: Disk, indirect: nat, link: nat, k: nat): (r: Disk)
    requires k < LINKS
    ensures |r| == |fs|
  {
    Store(fs, indirect, Put32(At(fs, indirect), 4 * k, link))
  }

  /** One block fewer in both free counts. */
  function SpendBlock(fs: Disk): (r: Disk)
    ensures |r| == |fs|
  {
    fs[1 := Less32(fs[1], SUPER_FREE_BLOCKS)][2 := Less16(fs[2], GROUP_FREE_BLOCKS)]
  }

  function WriteBlock(fs: Disk, b: nat, chunk: Block): (r: Disk)
    ensures |r| == |fs|
  {
    SpendBlock(Store(fs, b, chunk))
  }

  function WriteData(f: File, b: nat, chunk: Block): (r: File)
    ensures |r.fs| == |f.fs|
  {
    File(WriteBlock(f.fs, b, chunk), MoreBlocks(f.inode), f.indirect)
  }

  /** Record and write block q, given the next free block a and the one after it, d. */
  function FillWith(f: File, q: nat, chunk: Block, a: Alloc, d: Alloc): (r: Fill)
    requires a.Alloc? ==> |a.fs| == |f.fs|
    requires a.Alloc? && d.Alloc? ==> |d.fs| == |f.fs|
    ensures r.Filled? ==> |r.file.fs| == |f.fs|
  {
    if a.Exhausted? then Full
    else if q < DIRECT then
      Filled(WriteData(File(a.fs, Put32(f.inode, INODE_LIST + 4 * q, a.num), f.indirect), a.num, chunk))
    else if q == DIRECT then
      if d.Exhausted? then Full
      else
        var inode := Put32(f.inode, INODE_LIST + 4 * q, a.num);
        Filled(WriteData(File(WriteLink(d.fs, a.num, d.num, 0), inode, a.num), d.num, chunk))
    else
      var fs := if q < LINKS + DIRECT then WriteLink(a.fs, f.indirect, a.num, q - DIRECT) else a.fs;
      Filled(WriteData(File(fs, f.inode, f.indirect), a.num, chunk))
  }

  /** One round of the loop.  Only block 12 takes a second block, behind the indirect one. */
  function FillStep(f: File, q: nat, chunk: Block): (r: Fill)
    ensures r.Filled? ==> |r.file.fs| == |f.fs|
  {
    var a := Allocate(f.fs, BlockMap(f.fs));
    var d := if a.Alloc? then Allocate(a.fs, BlockMap(a.fs)) else Exhausted;
    FillWith(f, q, chunk, a, d)
  }

  /** The data, cut into blocks from block q on. */
  function Chunks(data: seq<byte>, q: nat): (r: seq<Block>)
    decreases |data| - q * BLOCK_SIZE
  {
    if q * BLOCK_SIZE >= |data| then [] else [Chunk(data, q)] + Chunks(data, q + 1)
  }

  /** The loop, from block q on, one round of it being `step`. */
  function FillFrom(step: (File, nat, Block) -> Fill, f: File, chunks: seq<Block>, q: nat): (r: Fill)
    requires q <= |chunks|
    decreases |chunks| - q
  {
    if q == |chunks| then Filled(f)
    else
      var r := step(f, q, chunks[q]);
      if r.Full? then Full else FillFrom(step, r.file, chunks, q + 1)
  }

  /** The new inode: file mode, size, times, one link; the rest is what the memory held. */
  function NewInode(raw: InodeBytes, size: nat, now: nat): (r: InodeBytes) {
    var head := Put16(Put32(Put16(raw, 0, 0x81C0), 4, size), 26, 1);
    Put(head, 8, Four(now) + Four(now) + Four(now) + Four(0))
  }

  datatype Outcome = Done(fs: Disk, ino: nat) | DirectoryFull(fs: Disk) | Outside

  /** ext2_touch.  Outside: the code leaves a bitmap, a block or the first block group. */
  function Touch(fs: Disk, name: seq<byte>, data: seq<byte>, raw: InodeBytes, now: nat): (r: Outcome) {
    var a := Allocate(fs, InodeMap(fs));
    var f := if a.Alloc? then FillFrom(FillStep, File(a.fs, NewInode(raw, |data|, now), 0), Chunks(data, 0), 0) else Full;
    TouchWith(a, f, name, now)
  }

  /** The outcome, given what the search for an inode and the loop over the blocks have found. */
  function TouchWith(a: Alloc, f: Fill, name: seq<byte>, now: nat): (r: Outcome) {
    if a.Exhausted? || f.Full? || !HasInode(a.fs, a.num) then Outside else Register(f.file, a.num, name, now)
  }

  /** The second half: end the indirect list, write the inode, the directory entry and the counts. */
  function Register(f: File, ino: nat, name: seq<byte>, now: nat): (r: Outcome) {
    if NumBlocks(f.inode) >= LINKS || !HasInode(f.fs, ino) then Outside
    else
      var ended := WriteLink(f.fs, f.indirect, 0, NumBlocks(f.inode));
      if !HasInode(ended, ino) then Outside
      else LinkName(StoreInode(ended, ino, MoreBlocks(f.inode)), ino, name, now)
  }

  function LinkName(fs: Disk, ino: nat, name: seq<byte>, now: nat): (r: Outcome) {
    if !HasInode(fs, 2) then Outside
    else
      var root := Pointer(Inode(fs, 2), 0);
      if !Chain(At(fs, root), 0) then Outside
      else match AppendFrom(At(fs, root), 0, name, ino)
           case NoRoom => DirectoryFull(fs)
           case Overflow => Outside
           case Appended(block) => Done(SpendInode(Store(fs, root, block), now), ino)
  }

  function SpendInode(fs: Disk, now: nat): (r: Disk)
    ensures |r| == |fs|
  {
    fs[1 := Put32(Less32(fs[1], SUPER_FREE_INODES), SUPER_WTIME, now)][2 := Less16(fs[2], GROUP_FREE_INODES)]
  }

  // ----- reading a file

  /**
   The block number ext2_open uses for block i.  At index 12 it fetches the indirect block and
   keeps the number of block 11.
   */
  function BlockNumber(fs: Disk, inode: InodeBytes, i: nat): (r: nat)
    requires i < LINKS + DIRECT
  {
    if i < DIRECT then Pointer(inode, i)
    else if i == DIRECT then Pointer(inode, 11)
    else Get32(At(fs, Pointer(inode, 12)), 4 * (i - DIRECT))
  }

  /** The blocks ext2_open copies out, from block i on; it stops at a zero block number. */
  function OpenFrom(fs: Disk, inode: InodeBytes, i: nat): (r: seq<Block>)
    requires NumBlocks(inode) <= LINKS + DIRECT
    decreases NumBlocks(inode) - i
  {
    if i >= NumBlocks(inode) || BlockNumber(fs, inode, i) == 0 then []
    else [At(fs, BlockNumber(fs, inode, i))] + OpenFrom(fs, inode, i + 1)
  }

  function Flatten(blocks: seq<Block>): (r: seq<byte>)
    ensures |r| == BLOCK_SIZE * |blocks|
  {
    if blocks == [] then [] else blocks[0] + Flatten(blocks[1..])
  }
}
