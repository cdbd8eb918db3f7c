/**
 A freshly made file system, to show that the promises are about something: it is sound, and
 files can be created in it.
 */
module Ext2Example {
  import opened Common
  import opened Bitmaps
  import opened Bytes
  import opened Directory
  import opened Ext2Fill
  import opened Ext2Paths
  import opened Ext2Runs
  import opened Ext2Spec
  import opened Ext2Touch
  import Strings = StrtokSpec

  /** The bitmap with bits lo to hi - 1 set as well. */
  function Mark(b: Block, lo: nat, hi: nat): (r: Block)
    requires hi <= BITS
    decreases hi - lo, |b|
  {
    if lo >= hi then b else Mark(SetBit(b, lo), lo + 1, hi)
  }

  lemma MarkNext(b: Block, lo: nat, hi: nat) returns (c: Block)
    requires lo < hi <= BITS
    ensures Mark(b, lo, hi) == Mark(c, lo + 1, hi) && Marked(c) == Marked(b) + {lo}
  {
    c := SetBit(b, lo);
    SetBitMarks(b, lo);
  }

  lemma {:induction false} MarkMarks(b: Block, lo: nat, hi: nat)
    requires hi <= BITS
    ensures forall k: nat :: k in Marked(Mark(b, lo, hi)) <==> k in Marked(b) || lo <= k < hi
    decreases hi - lo
  {
    if lo < hi {
      var c := MarkNext(b, lo, hi);
      MarkMarks(c, lo + 1, hi);
      MoreMarked(Marked(b), Marked(c), Marked(Mark(c, lo + 1, hi)), lo, hi);
    }
  }

  lemma MoreMarked(s: set<nat>, t: set<nat>, u: set<nat>, lo: nat, hi: nat)
    requires lo < hi && t == s + {lo} && forall k: nat :: k in u <==> k in t || lo + 1 <= k < hi
    ensures forall k: nat :: k in u <==> k in s || lo <= k < hi
  {
  }

  lemma EmptyMarks()
    ensures Marked(EMPTY) == {}
  {
    assert forall q :: 0 <= q < 256 ==> WordsOf(EMPTY)[q] == 0;
    EmptyBitmap(WordsOf(EMPTY));
  }

  /** Eight inodes; bitmaps in blocks 3 and 4, the inode table in block 5, the root directory in block 6. */
  function SuperBlock(): (r: Block) {
    Put32(EMPTY, SUPER_PER_GROUP, 8)
  }

  function GroupBlock(): (r: Block) {
    Put32(Put32(Put32(EMPTY, GROUP_BLOCK_MAP, 3), GROUP_INODE_MAP, 4), GROUP_TABLE, 5)
  }

  /** Inode 2, the second of the table, has one block: block 6. */
  function TableBlock(): (r: Block) {
    Put32(Put32(EMPTY, INODE_SIZE + INODE_BLOCKS, 2), INODE_SIZE + INODE_LIST, 6)
  }

  /** One entry, the directory itself, over the whole block. */
  function RootBlock(): (r: Block) {
    Put(EMPTY, 0, [2, 0, 0, 0, 0, 4, 1, 2, 46])
  }

  lemma SuperFields()
    ensures Get32(SuperBlock(), SUPER_PER_GROUP) == 8
  {
    Get32Put32(EMPTY, SUPER_PER_GROUP, 8);
  }

  lemma GroupFields()
    ensures Get32(GroupBlock(), GROUP_BLOCK_MAP) == 3 && Get32(GroupBlock(), GROUP_INODE_MAP) == 4
    ensures Get32(GroupBlock(), GROUP_TABLE) == 5
  {
    var a := Put32(EMPTY, GROUP_BLOCK_MAP, 3);
    var b := Put32(a, GROUP_INODE_MAP, 4);
    Get32Put32(EMPTY, GROUP_BLOCK_MAP, 3);
    Get32Put32(a, GROUP_INODE_MAP, 4);
    Get32Put32(b, GROUP_TABLE, 5);
    Get32Apart(a, GROUP_INODE_MAP, Four(4), GROUP_BLOCK_MAP);
    Get32Apart(b, GROUP_TABLE, Four(5), GROUP_BLOCK_MAP);
    Get32Apart(b, GROUP_TABLE, Four(5), GROUP_INODE_MAP);
  }

  lemma TableFields(inode: InodeBytes)
    requires inode == TableBlock()[INODE_SIZE..2 * INODE_SIZE]
    ensures Get32(inode, INODE_BLOCKS) == 2 && Pointer(inode, 0) == 6
  {
    var a := Put32(EMPTY, INODE_SIZE + INODE_BLOCKS, 2);
    Get32Put32(EMPTY, INODE_SIZE + INODE_BLOCKS, 2);
    Get32Put32(a, INODE_SIZE + INODE_LIST, 6);
    Get32Apart(a, INODE_SIZE + INODE_LIST, Four(6), INODE_SIZE + INODE_BLOCKS);
    Get32Slice(TableBlock(), INODE_SIZE, 2 * INODE_SIZE, INODE_BLOCKS);
    Get32Slice(TableBlock(), INODE_SIZE, 2 * INODE_SIZE, INODE_LIST);
  }

  lemma Get32Slice(b: seq<byte>, lo: nat, hi: nat, p: nat)
    requires lo <= hi <= |b| && lo + p + 4 <= hi
    ensures Get32(b[lo..hi], p) == Get32(b, lo + p)
  {
  }

  lemma RootEntries(b: Block)
    requires b == RootBlock()
    ensures IsRecord(b, 0) && RecLen(b, 0) == BLOCK_SIZE && NameLen(b, 0) == 1 && EntryAt(b, 0).inode == 2
    ensures Chain(b, 0) && Entries(b, 0) == [EntryAt(b, 0)] && Last(b, 0) == 0
  {
    assert b[0] == 2 && b[1] == 0 && b[2] == 0 && b[3] == 0 && b[4] == 0 && b[5] == 4 && b[6] == 1 && b[8] == 46;
    assert b[8..9] == [46];
    OneRecord(b, 0);
  }

  /** A device with these structures, all other blocks empty. */
  ghost predicate Laid(fs: Disk, bm: Block, im: Block) {
    && |fs| == BITS + 1
    && fs[1] == SuperBlock() && fs[2] == GroupBlock() && fs[3] == bm && fs[4] == im
    && fs[5] == TableBlock() && fs[6] == RootBlock()
  }

  lemma LaidFields(fs: Disk, bm: Block, im: Block)
    requires Laid(fs, bm, im)
    ensures PerGroup(fs) == 8 && BlockMap(fs) == 3 && InodeMap(fs) == 4 && Table(fs) == 5
  {
    SuperFields();
    GroupFields();
  }

  lemma SecondInode(fs: Disk, b: Block)
    requires PerGroup(fs) == 8 && Table(fs) == 5 && |fs| > 5 && fs[5] == b
    ensures HasInode(fs, 2) && Inode(fs, 2) == b[INODE_SIZE..2 * INODE_SIZE]
  {
    InodeAt(fs, 2);
  }

  lemma LaidShape(fs: Disk, bm: Block, im: Block)
    requires Laid(fs, bm, im)
    ensures PerGroup(fs) == 8 && BlockMap(fs) == 3 && InodeMap(fs) == 4 && Table(fs) == 5
    ensures HasInode(fs, 2) && Get32(Inode(fs, 2), INODE_BLOCKS) == 2 && Root(fs) == 6
  {
    LaidFields(fs, bm, im);
    SecondInode(fs, TableBlock());
    TableFields(Inode(fs, 2));
  }

  lemma LaidIsSound(fs: Disk, bm: Block, im: Block)
    requires Laid(fs, bm, im)
    requires forall k: nat :: k in Marked(bm) <==> k < 6
    requires forall k: nat :: k in Marked(im) <==> k < 2 || 8 <= k < BITS
    ensures Sound(fs)
  {
    LaidShape(fs, bm, im);
    RootEntries(fs[6]);
    assert At(fs, Root(fs)) == fs[6] && At(fs, 3) == bm && At(fs, 4) == im;
    assert Placed(fs);
    assert AllInUse(Entries(fs[6], 0), UsedInodes(fs)) by {
      assert 1 in Marked(im);
    }
    assert DirectoryInUse(fs[6], UsedInodes(fs));
  }

  /** s with the numbers from lo to hi - 1. */
  function Filled(s: set<nat>, lo: nat, hi: nat): (r: set<nat>)
    requires forall k :: k in s ==> k < lo
    ensures lo <= hi ==> |r| == |s| + (hi - lo)
    ensures forall k: nat :: k in r <==> k in s || lo <= k < hi
    decreases hi - lo, |s|
  {
    if lo >= hi then s else Filled(s + {lo}, lo + 1, hi)
  }

  lemma ManyFree(fs: Disk)
    requires forall k: nat :: k in UsedBlocks(fs) <==> k < 6
    ensures |FreeBlocks(fs)| == BITS - 6
  {
    var r := Filled({}, 6, BITS);
    assert FreeBlocks(fs) == r;
  }

  /** There is a sound file system in which a file of any size up to 255 blocks can be created. */
  lemma FilesCanBeMade(name: seq<byte>, n: nat) returns (fs: Disk)
    requires |name| < 256 && n < LINKS
    ensures Sound(fs) && CanTouch(fs, name, n)
  {
    var bm, im;
    fs, bm, im := Made();
    LaidIsSound(fs, bm, im);
    LaidCanTouch(fs, bm, im, name, n);
  }

  lemma Made() returns (fs: Disk, bm: Block, im: Block)
    ensures Laid(fs, bm, im)
    ensures forall k: nat :: k in Marked(bm) <==> k < 6
    ensures forall k: nat :: k in Marked(im) <==> k < 2 || 8 <= k < BITS
  {
    bm, im := Mark(EMPTY, 0, 6), Mark(Mark(EMPTY, 0, 2), 8, BITS);
    EmptyMarks();
    MarkMarks(EMPTY, 0, 6);
    MarkMarks(EMPTY, 0, 2);
    MarkMarks(Mark(EMPTY, 0, 2), 8, BITS);
    var head: seq<Block> := [EMPTY, SuperBlock(), GroupBlock(), bm, im, TableBlock(), RootBlock()];
    fs := head + seq(BITS - 6, _ => EMPTY);
  }

  lemma RootHasNoA(b: Block)
    requires b == RootBlock()
    ensures Chain(b, 0) && Lookup(b, 0, [97]) == -1
  {
    RootEntries(b);
    LookupIsFirstMatch(b, 0, [97]);
    assert EntryAt(b, 0).name == b[8..9];
    assert b[8..9][0] == 46;
  }

  lemma PathOfTwo()
    ensures Strings.Tokens("/a/b", 0, "/") == ["a", "b"]
  {
    var s := "/a/b";
    assert Strings.NextToken(s, 0, "/") == Strings.Token(1, 2, 3) && s[1..2] == "a";
    assert Strings.NextToken(s, 3, "/") == Strings.Token(3, 4, -1) && s[3..4] == "b";
  }

  /** A failing input: in the fresh file system /a is -1, and the look-up of b then reads outside a block. */
  lemma PathThroughMissing() returns (fs: Disk)
    ensures Sound(fs) && Strings.Tokens("/a/b", 0, "/") == ["a", "b"]
    ensures Walkable(fs, ["a"], 2) && Walk(fs, ["a"], 2) == -1 && !Walkable(fs, ["a", "b"], 2)
    ensures PerGroup(fs) > 0 && !DescriptorInBlock(PerGroup(fs), -1)
  {
    var bm, im;
    fs, bm, im := Made();
    LaidIsSound(fs, bm, im);
    LaidShape(fs, bm, im);
    PathOfTwo();
    var b := At(fs, Root(fs));
    assert b == fs[6];
    RootHasNoA(b);
    RootBytes(fs, b);
    assert NameOf("a") == [97];
    WalkOne(fs, "a", 2, b);
    NextPieceExact(fs, ["a"], "b", 2);
    assert ["a"] + ["b"] == ["a", "b"];
    StrayInodeExact(PerGroup(fs));
  }

  lemma LaidCanTouch(fs: Disk, bm: Block, im: Block, name: seq<byte>, n: nat)
    requires Laid(fs, bm, im) && |name| < 256 && n < LINKS
    requires forall k: nat :: k in Marked(bm) <==> k < 6
    requires forall k: nat :: k in Marked(im) <==> k < 2 || 8 <= k < BITS
    ensures CanTouch(fs, name, n)
  {
    LaidShape(fs, bm, im);
    RootEntries(fs[6]);
    ManyFree(fs);
    assert 2 !in UsedInodes(fs);
  }
}
