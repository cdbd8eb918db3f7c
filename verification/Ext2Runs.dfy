/**
 The main results about the file system: one call of ext2_touch, runs of calls, and opening
 a file by its path.
 */
module Ext2Runs {
  import opened Common
  import opened Bitmaps
  import opened Bytes
  import opened Directory
  import opened Ext2Files
  import opened Ext2Fill
  import opened Ext2Spec
  import opened Ext2Touch

  // ----- one call

  /** A file can be created exactly when there is an inode, room for it and a place for its name. */
  lemma TouchExact(fs: Disk, name: seq<byte>, data: seq<byte>, raw: InodeBytes, now: nat)
    requires Sound(fs) && Blank(raw) && |data| < 0x8000_0000
    ensures Touch(fs, name, data, raw, now).Done? <==> CanTouch(fs, name, |Chunks(data, 0)|)
  {
    var _ := TouchMakes(fs, name, data, raw, now);
  }

  /** The file system is as sound after the call as before it. */
  lemma TouchKeepsSound(fs: Disk, name: seq<byte>, data: seq<byte>, raw: InodeBytes, now: nat, hs: Disk, ino: nat)
    requires Sound(fs) && Blank(raw) && |data| < 0x8000_0000 && 0 !in name
    requires Touch(fs, name, data, raw, now) == Done(hs, ino)
    ensures Sound(hs)
  {
    var w := TouchMakes(fs, name, data, raw, now);
    MadeSound(fs, hs, ino, name, Chunks(data, 0), now, w);
  }

  /** What ext2_open then reads. */
  lemma TouchThenOpen(fs: Disk, name: seq<byte>, data: seq<byte>, raw: InodeBytes, now: nat, hs: Disk, ino: nat)
    requires Sound(fs) && Blank(raw) && |data| < 0x8000_0000
    requires Touch(fs, name, data, raw, now) == Done(hs, ino)
    ensures HasInode(hs, ino) && NumBlocks(Inode(hs, ino)) == |Chunks(data, 0)| + 1 <= LINKS
    ensures ReadsAs(Open(hs, ino), Chunks(data, 0))
  {
    var w := TouchMakes(fs, name, data, raw, now);
    MadeReadsBack(fs, hs, ino, name, Chunks(data, 0), now, w);
  }

  lemma {:induction false} FlattenIsInjective(a: seq<Block>, b: seq<Block>)
    requires |a| == |b| && Flatten(a) == Flatten(b)
    ensures a == b
  {
    if a != [] {
      assert a[0] == Flatten(a)[..BLOCK_SIZE] && b[0] == Flatten(b)[..BLOCK_SIZE];
      assert Flatten(a[1..]) == Flatten(a)[BLOCK_SIZE..] && Flatten(b[1..]) == Flatten(b)[BLOCK_SIZE..];
      FlattenIsInjective(a[1..], b[1..]);
    }
  }

  /** The bytes read are the bytes written, padded, unless a thirteenth block differs from the twelfth. */
  lemma ReadBackExact(data: seq<byte>, r: seq<Block>)
    requires ReadsAs(r, Chunks(data, 0))
    ensures var chunks := Chunks(data, 0);
            Flatten(r[..|chunks|]) == Padded(data) <==> |chunks| <= DIRECT || chunks[12] == chunks[11]
  {
    var chunks := Chunks(data, 0);
    var s := r[..|chunks|];
    ChunksHold(data, 0);
    assert Padded(data)[0..] == Padded(data);
    if Flatten(s) == Flatten(chunks) {
      FlattenIsInjective(s, chunks);
      assert |chunks| > DIRECT ==> s[12] == chunks[Source(12)];
    }
    if |chunks| <= DIRECT || chunks[12] == chunks[11] {
      assert forall i :: 0 <= i < |chunks| ==> s[i] == chunks[Source(i)] == chunks[i];
      assert s == chunks;
    }
  }

  /** Bits and counts: the blocks taken were free, and the counts fall by the blocks of data and one inode. */
  lemma TouchCounts(fs: Disk, name: seq<byte>, data: seq<byte>, raw: InodeBytes, now: nat, hs: Disk, ino: nat)
    requires Sound(fs) && Blank(raw) && |data| < 0x8000_0000
    requires Touch(fs, name, data, raw, now) == Done(hs, ino)
    ensures var n := |Chunks(data, 0)|;
            && Spent(fs, hs, n) && SpentInode(fs, hs)
            && UsedBlocks(fs) <= UsedBlocks(hs) && |UsedBlocks(hs) - UsedBlocks(fs)| == Need(n)
            && ino - 1 !in UsedInodes(fs) && UsedInodes(hs) == UsedInodes(fs) + {ino - 1}
  {
    var w := TouchMakes(fs, name, data, raw, now);
    var chunks := Chunks(data, 0);
    MadeCounts(fs, hs, ino, name, chunks, now, w);
    MadeChanged(fs, hs, ino, name, chunks, now, w);
    assert ChangedBody(fs, hs, w.own, ino, MoreBlocks(w.file.inode), w.block, 0);
    assert UsedBlocks(hs) - UsedBlocks(fs) == w.own;
    assert MadeBody(fs, hs, ino, name, chunks, now, w, 0);
    OwnSize(w.start, w.file, w.was, w.own, w.ds, chunks);
  }

  /** The new inode says what it should: a file, its size, the time, one link, and the blocks it counts. */
  lemma TouchWritesInode(fs: Disk, name: seq<byte>, data: seq<byte>, raw: InodeBytes, now: nat, hs: Disk, ino: nat)
    requires Sound(fs) && Blank(raw) && |data| < 0x8000_0000 && now < WORD
    requires Touch(fs, name, data, raw, now) == Done(hs, ino)
    ensures HasInode(hs, ino) && NewFileHead(Inode(hs, ino), |data|, now)
    ensures Get32(Inode(hs, ino), INODE_BLOCKS) == 2 * |Chunks(data, 0)| + 2
    ensures Get32(hs[1], SUPER_WTIME) == now
  {
    var w := TouchMakes(fs, name, data, raw, now);
    var chunks := Chunks(data, 0);
    MadeInode(fs, hs, ino, name, chunks, now, w);
    NewInodeHead(raw, |data|, now);
    SameHead(Inode(hs, ino), w.was, |data|, now);
    HeadersThrough(fs, hs, ino, name, chunks, now, w);
    Get32Put32(Less32(w.file.fs[1], SUPER_FREE_INODES), SUPER_WTIME, now);
  }

  /**
   A file of at most 12 blocks has no list of links to end; the word that would end it is
   cleared in the boot block instead, which is unchanged exactly if that word was zero.
   */
  lemma TouchClearsBootWord(fs: Disk, name: seq<byte>, data: seq<byte>, raw: InodeBytes, now: nat, hs: Disk, ino: nat)
    requires Sound(fs) && Blank(raw) && |data| < 0x8000_0000
    requires Touch(fs, name, data, raw, now) == Done(hs, ino)
    ensures var n := |Chunks(data, 0)|;
            n < LINKS && (hs[0] == fs[0] <==> n > DIRECT || Get32(fs[0], 4 * n) == 0)
  {
    var w := TouchMakes(fs, name, data, raw, now);
    MadeBootBlock(fs, hs, ino, name, Chunks(data, 0), now, w);
    ClearedWord(fs[0], |Chunks(data, 0)|);
  }

  lemma ClearedWord(b: Block, k: nat)
    requires k < LINKS
    ensures Put32(b, 4 * k, 0) == b <==> Get32(b, 4 * k) == 0
  {
    var c := Put32(b, 4 * k, 0);
    Get32Put32(b, 4 * k, 0);
    if Get32(b, 4 * k) == 0 {
      assert b[4 * k] == 0 && b[4 * k + 1] == 0 && b[4 * k + 2] == 0 && b[4 * k + 3] == 0;
      assert forall i :: 0 <= i < BLOCK_SIZE ==> c[i] == b[i];
    }
  }

  /** The data blocks are distinct and were free before. */
  lemma TouchTakesFreshBlocks(fs: Disk, name: seq<byte>, data: seq<byte>, raw: InodeBytes, now: nat, hs: Disk, ino: nat, i: nat, j: nat)
    requires Sound(fs) && Blank(raw) && |data| < 0x8000_0000
    requires Touch(fs, name, data, raw, now) == Done(hs, ino)
    requires i < |Chunks(data, 0)| && j < |Chunks(data, 0)| && i != DIRECT && j != DIRECT && i != j
    ensures HasInode(hs, ino) && |Chunks(data, 0)| < LINKS
    ensures var b, c := BlockNumber(hs, Inode(hs, ino), i), BlockNumber(hs, Inode(hs, ino), j);
            b != c && InUse(UsedBlocks(hs), b) && !InUse(UsedBlocks(fs), b)
  {
    var w := TouchMakes(fs, name, data, raw, now);
    var chunks := Chunks(data, 0);
    NumberIs(fs, hs, ino, name, chunks, now, w, i);
    NumberIs(fs, hs, ino, name, chunks, now, w, j);
    MadeChanged(fs, hs, ino, name, chunks, now, w);
    MadeData(fs, hs, ino, name, chunks, now, w, i);
    assert ChangedBody(fs, hs, w.own, ino, MoreBlocks(w.file.inode), w.block, 0);
    assert w.ds[i] != w.ds[j] by {
      assert MadeBody(fs, hs, ino, name, chunks, now, w, 0);
      assert OnDiskBody(w.start, w.file.fs, w.own, w.ds, w.file.indirect, chunks, 0);
      assert i < j ==> w.ds[i] != w.ds[j];
      assert j < i ==> w.ds[j] != w.ds[i];
    }
  }

  lemma NumberIs(fs: Disk, hs: Disk, ino: nat, name: seq<byte>, chunks: seq<Block>, now: nat, w: Work, i: nat)
    requires Sound(fs) && Made(fs, hs, ino, name, chunks, now, w) && i < |chunks| && i != DIRECT
    ensures HasInode(hs, ino) && |w.ds| == |chunks| < LINKS && BlockNumber(hs, Inode(hs, ino), i) == w.ds[i]
  {
    MadeInode(fs, hs, ino, name, chunks, now, w);
    if i > DIRECT {
      MadeLink(fs, hs, ino, name, chunks, now, w, i);
    }
  }

  lemma {:induction false} ChunkOf(data: seq<byte>, q: nat, i: nat)
    requires (q + i) * BLOCK_SIZE < |data|
    ensures i < |Chunks(data, q)| && Chunks(data, q)[i] == Chunk(data, q + i)
    decreases i
  {
    var rest := Chunks(data, q + 1);
    assert Chunks(data, q) == [Chunk(data, q)] + rest;
    if i > 0 {
      ChunkOf(data, q + 1, i - 1);
      assert Chunks(data, q)[i] == rest[i - 1];
    }
  }

  /** Twelve blocks of zeros and one more byte do not read back. */
  lemma ThirteenthBlockIsLost(data: seq<byte>, r: seq<Block>)
    requires data == Zeros(12 * BLOCK_SIZE) + [1] && ReadsAs(r, Chunks(data, 0))
    ensures Flatten(r[..|Chunks(data, 0)|]) != Padded(data)
  {
    ReadBackExact(data, r);
    ChunkOf(data, 0, 11);
    ChunkOf(data, 0, 12);
    assert Chunk(data, 12)[0] == 1 && Chunk(data, 11)[0] == 0;
  }

  // ----- other files

  ghost predicate IsDataBody(fs: Disk, b: nat, key: nat) {
    b < |fs| && InUse(UsedBlocks(fs), b) && !Reserved(fs, b)
  }

  /** A block that holds file data. */
  ghost predicate IsData(fs: Disk, b: nat) {
    forall key: nat :: IsDataBody(fs, b, key)
  }

  /** All that opening a file with this inode reads are data blocks in use. */
  ghost predicate ReadsDataBody(fs: Disk, inode: InodeBytes, key: nat) {
    && NumBlocks(inode) <= LINKS + DIRECT
    && (NumBlocks(inode) > DIRECT + 1 ==> IsData(fs, Pointer(inode, 12)))
    && forall i :: 0 <= i < NumBlocks(inode) ==> BlockNumber(fs, inode, i) == 0 || IsData(fs, BlockNumber(fs, inode, i))
  }

  ghost predicate Readable(fs: Disk, ino: nat) {
    && HasInode(fs, ino) && InUse(UsedInodes(fs), ino) && NumBlocks(Inode(fs, ino)) <= LINKS + DIRECT
    && forall key: nat :: ReadsDataBody(fs, Inode(fs, ino), key)
  }

  lemma DataKept(fs: Disk, hs: Disk, own: set<nat>, ino: nat, inode: InodeBytes, block: Block, b: nat)
    requires Sound(fs) && Changed(fs, hs, own, ino, inode, block) && IsData(fs, b)
    ensures At(hs, b) == At(fs, b) && IsData(hs, b)
  {
    ChangedRoot(fs, hs, own, ino, inode, block);
    SameReserved(fs, hs);
    assert IsDataBody(fs, b, 0);
    assert ChangedBody(fs, hs, own, ino, inode, block, 0);
    InodeAt(fs, ino);
    assert !InUse(own, b) && !Special(fs, b, ino) && b >= 3;
  }

  /** Where two devices agree on all that is read, opening reads the same. */
  lemma {:induction false} OpenSame(fs: Disk, hs: Disk, inode: InodeBytes, i: nat)
    requires NumBlocks(inode) <= LINKS + DIRECT
    requires forall k :: 0 <= k < NumBlocks(inode) ==>
               BlockNumber(hs, inode, k) == BlockNumber(fs, inode, k) &&
               (BlockNumber(fs, inode, k) == 0 || At(hs, BlockNumber(fs, inode, k)) == At(fs, BlockNumber(fs, inode, k)))
    ensures OpenFrom(hs, inode, i) == OpenFrom(fs, inode, i)
    decreases NumBlocks(inode) - i
  {
    if i < NumBlocks(inode) {
      OpenSame(fs, hs, inode, i + 1);
    }
  }

  /** A file in use stays readable, and reads the same, whatever other file is created. */
  lemma OthersKept(fs: Disk, hs: Disk, own: set<nat>, ino: nat, inode: InodeBytes, block: Block, j: nat)
    requires Sound(fs) && Changed(fs, hs, own, ino, inode, block) && Readable(fs, j)
    ensures Readable(hs, j) && Open(hs, j) == Open(fs, j)
  {
    InodeStays(fs, hs, own, ino, inode, block, j);
    AllDataKept(fs, hs, own, ino, inode, block);
    SameFile(fs, hs, j);
  }

  lemma InodeStays(fs: Disk, hs: Disk, own: set<nat>, ino: nat, inode: InodeBytes, block: Block, j: nat)
    requires BlocksSound(fs) && Changed(fs, hs, own, ino, inode, block) && HasInode(fs, j) && InUse(UsedInodes(fs), j)
    ensures HasInode(hs, j) && Inode(hs, j) == Inode(fs, j) && InUse(UsedInodes(hs), j)
  {
    assert j != ino && InUse(UsedInodes(hs), j) by {
      ChangedFacts(fs, hs, own, ino, inode, block);
      StillInUse(UsedInodes(fs), UsedInodes(hs), ino, j);
    }
    ChangedInode(fs, hs, own, ino, inode, block, j);
  }

  lemma StillInUse(s: set<nat>, t: set<nat>, ino: nat, j: nat)
    requires ino >= 1 && ino - 1 !in s && t == s + {ino - 1} && InUse(s, j)
    ensures j != ino && InUse(t, j)
  {
  }

  ghost predicate KeepsDataBody(fs: Disk, hs: Disk, key: nat) {
    forall b: nat :: IsData(fs, b) ==> IsData(hs, b) && At(hs, b) == At(fs, b)
  }

  ghost predicate KeepsData(fs: Disk, hs: Disk) {
    forall key: nat :: KeepsDataBody(fs, hs, key)
  }

  lemma AllDataKept(fs: Disk, hs: Disk, own: set<nat>, ino: nat, inode: InodeBytes, block: Block)
    requires Sound(fs) && Changed(fs, hs, own, ino, inode, block)
    ensures KeepsData(fs, hs)
  {
    forall b: nat | IsData(fs, b) ensures IsData(hs, b) && At(hs, b) == At(fs, b) {
      DataKept(fs, hs, own, ino, inode, block, b);
    }
  }

  lemma SameFile(fs: Disk, hs: Disk, j: nat)
    requires Readable(fs, j) && HasInode(hs, j) && Inode(hs, j) == Inode(fs, j) && InUse(UsedInodes(hs), j)
    requires KeepsData(fs, hs)
    ensures Readable(hs, j) && Open(hs, j) == Open(fs, j)
  {
    assert KeepsDataBody(fs, hs, 0);
    var i := Inode(fs, j);
    assert ReadsDataBody(fs, i, 0);
    forall k | 0 <= k < NumBlocks(i) ensures BlockNumber(hs, i, k) == BlockNumber(fs, i, k) {
      assert k > DIRECT ==> IsData(fs, Pointer(i, 12));
    }
    OpenSame(fs, hs, i, 0);
  }

  /** A file of up to 12 blocks is readable once it is created. */
  lemma NewFileReadable(fs: Disk, hs: Disk, ino: nat, name: seq<byte>, chunks: seq<Block>, now: nat, w: Work)
    requires Sound(fs) && Made(fs, hs, ino, name, chunks, now, w) && |chunks| <= DIRECT
    ensures Readable(hs, ino)
  {
    MadeInode(fs, hs, ino, name, chunks, now, w);
    MadeChanged(fs, hs, ino, name, chunks, now, w);
    ChangedRoot(fs, hs, w.own, ino, MoreBlocks(w.file.inode), w.block);
    ChangedFacts(fs, hs, w.own, ino, MoreBlocks(w.file.inode), w.block);
    forall j | 0 <= j < |chunks| ensures IsData(hs, w.ds[j]) {
      MadeData(fs, hs, ino, name, chunks, now, w, j);
      NewBlockIsData(fs, hs, w.own, ino, MoreBlocks(w.file.inode), w.block, w.ds[j]);
    }
    ReadableFrom(hs, ino, w.ds);
  }

  lemma ReadableFrom(fs: Disk, ino: nat, ds: seq<nat>)
    requires HasInode(fs, ino) && InUse(UsedInodes(fs), ino) && |ds| <= DIRECT && NumBlocks(Inode(fs, ino)) == |ds| + 1
    requires forall j :: 0 <= j < |ds| ==> IsData(fs, ds[j])
    requires forall j :: 0 <= j < 12 ==> Pointer(Inode(fs, ino), j) == if j < |ds| then ds[j] else 0
    ensures Readable(fs, ino)
  {
  }

  lemma NewBlockIsData(fs: Disk, hs: Disk, own: set<nat>, ino: nat, inode: InodeBytes, block: Block, b: nat)
    requires Sound(fs) && Changed(fs, hs, own, ino, inode, block) && InUse(own, b)
    ensures IsData(hs, b)
  {
    ChangedRoot(fs, hs, own, ino, inode, block);
    SameReserved(fs, hs);
    ChangedFacts(fs, hs, own, ino, inode, block);
    assert !Reserved(fs, b) && b < |fs| by {
      OwnIsFar(fs, own, b);
    }
  }

  // ----- names in the root directory

  /** Looking up the name in directory b finds an entry, and that entry's inode is ino. */
  ghost predicate NamesBody(b: seq<byte>, name: seq<byte>, ino: nat, key: nat) {
    Chain(b, 0) && !NoPrefix(Entries(b, 0), name) && Lookup(b, 0, name) == ino
  }

  ghost predicate Names(b: seq<byte>, name: seq<byte>, ino: nat) {
    forall key: nat :: NamesBody(b, name, ino, key)
  }

  lemma {:induction false} FoundStays(es: seq<Entry>, e: Entry, name: seq<byte>)
    requires !NoPrefix(es, name)
    ensures !NoPrefix(es + [e], name) && FirstMatch(es + [e], name) == FirstMatch(es, name)
  {
    var i :| 0 <= i < |es| && es[i].name <= name;
    assert (es + [e])[i] == es[i];
    if !(es[0].name <= name) {
      assert es[1..][i - 1] == es[i];
      FoundStays(es[1..], e, name);
      assert (es + [e])[1..] == es[1..] + [e];
    }
  }

  lemma NameStays(b: seq<byte>, c: seq<byte>, e: Entry, name: seq<byte>, ino: nat)
    requires Adds(b, c, e) && Names(b, name, ino)
    ensures Names(c, name, ino)
  {
    assert AddsBody(b, c, e, 0) && NamesBody(b, name, ino, 0);
    FoundStays(Entries(b, 0), e, name);
    LookupIsFirstMatch(b, 0, name);
    LookupIsFirstMatch(c, 0, name);
  }

  lemma NameAdded(b: seq<byte>, c: seq<byte>, name: seq<byte>, ino: nat)
    requires Adds(b, c, NewEntry(ino, name)) && Chain(b, 0)
    requires forall i :: 0 <= i < |Entries(b, 0)| ==> Entries(b, 0)[i].inode != ino
    ensures Names(c, name, ino) <==> NoPrefix(Entries(b, 0), name)
  {
    var e := NewEntry(ino, name);
    assert AddsBody(b, c, e, 0);
    LookupIsFirstMatch(c, 0, name);
    LastMatch(Entries(b, 0), Entries(c, 0), ino, name);
    assert Entries(c, 0)[|Entries(b, 0)|] == e && e.name <= name;
    assert Names(c, name, ino) ==> NamesBody(c, name, ino, 0);
  }

  /** No entry of the root directory uses a free inode. */
  lemma EntriesUseOthers(fs: Disk, ino: nat)
    requires Sound(fs) && ino >= 1 && ino - 1 !in UsedInodes(fs)
    ensures Chain(At(fs, Root(fs)), 0)
    ensures forall i :: 0 <= i < |Entries(At(fs, Root(fs)), 0)| ==> Entries(At(fs, Root(fs)), 0)[i].inode != ino
  {
    RootInUseEntries(fs);
    assert DirectoryInUseBody(At(fs, Root(fs)), UsedInodes(fs), 0);
    OthersInUse(Entries(At(fs, Root(fs)), 0), UsedInodes(fs), ino);
  }

  lemma OthersInUse(es: seq<Entry>, s: set<nat>, ino: nat)
    requires AllInUse(es, s) && ino >= 1 && ino - 1 !in s
    ensures forall i :: 0 <= i < |es| ==> es[i].inode != ino
  {
  }

  /** After touch, looking the name up finds the new file exactly when no earlier name begins it. */
  lemma TouchThenLookup(fs: Disk, name: seq<byte>, data: seq<byte>, raw: InodeBytes, now: nat, hs: Disk, ino: nat)
    requires Sound(fs) && Blank(raw) && |data| < 0x8000_0000 && 0 !in name
    requires Touch(fs, name, data, raw, now) == Done(hs, ino)
    ensures Chain(At(fs, Root(fs)), 0)
    ensures Names(At(hs, Root(hs)), name, ino) <==> NoPrefix(Entries(At(fs, Root(fs)), 0), name)
  {
    var w := TouchMakes(fs, name, data, raw, now);
    MadeName(fs, hs, ino, name, Chunks(data, 0), now, w);
  }

  lemma MadeName(fs: Disk, hs: Disk, ino: nat, name: seq<byte>, chunks: seq<Block>, now: nat, w: Work)
    requires Sound(fs) && Made(fs, hs, ino, name, chunks, now, w) && 0 !in name && ino < WORD
    ensures At(hs, Root(hs)) == w.block && Adds(At(fs, Root(fs)), w.block, NewEntry(ino, name))
    ensures Chain(At(fs, Root(fs)), 0)
    ensures Names(w.block, name, ino) <==> NoPrefix(Entries(At(fs, Root(fs)), 0), name)
  {
    MadeRoot(fs, hs, ino, name, chunks, now, w);
    MadeEntries(fs, hs, ino, name, chunks, now, w, NewEntry(ino, name));
    EntriesUseOthers(fs, ino);
    NameAdded(At(fs, Root(fs)), w.block, name, ino);
  }

  lemma MadeRoot(fs: Disk, hs: Disk, ino: nat, name: seq<byte>, chunks: seq<Block>, now: nat, w: Work)
    requires Sound(fs) && Made(fs, hs, ino, name, chunks, now, w)
    ensures At(hs, Root(hs)) == w.block && ino >= 1 && ino - 1 !in UsedInodes(fs)
  {
    MadeChanged(fs, hs, ino, name, chunks, now, w);
    ChangedRoot(fs, hs, w.own, ino, MoreBlocks(w.file.inode), w.block);
    assert ChangedBody(fs, hs, w.own, ino, MoreBlocks(w.file.inode), w.block, 0);
  }

  // ----- runs of touch

  datatype Request = Request(name: seq<byte>, data: seq<byte>, raw: InodeBytes, now: nat)
  datatype Run = Ran(fs: Disk, inos: seq<nat>) | Stopped

  type Toucher = (Disk, Request) -> Outcome

  function TouchOne(fs: Disk, r: Request): (o: Outcome) {
    Touch(fs, r.name, r.data, r.raw, r.now)
  }

  /** One call after another, as long as they succeed. */
  function TouchAll(touch: Toucher, fs: Disk, rs: seq<Request>): (run: Run)
    ensures run.Ran? ==> |run.inos| == |rs|
    decreases |rs|
  {
    if rs == [] then Ran(fs, [])
    else
      var o := touch(fs, rs[0]);
      if !o.Done? then Stopped
      else
        var rest := TouchAll(touch, o.fs, rs[1..]);
        if rest.Stopped? then Stopped else Ran(rest.fs, [o.ino] + rest.inos)
  }

  ghost predicate TouchesBody(touch: Toucher, key: nat) {
    touch == TouchOne
  }

  ghost predicate Touches(touch: Toucher) {
    forall key: nat :: TouchesBody(touch, key)
  }

  /** A request for a file of up to 12 blocks, with zeroed memory for its inode. */
  predicate Fine(r: Request) {
    Blank(r.raw) && |r.data| <= DIRECT * BLOCK_SIZE && 0 !in r.name
  }

  /** The name as the directory holds it. */
  function Kept(name: seq<byte>): (r: seq<byte>) {
    name[..|name| % 256]
  }

  ghost predicate NewNameBody(fs: Disk, name: seq<byte>, key: nat) {
    Chain(At(fs, Root(fs)), 0) && NoPrefix(Entries(At(fs, Root(fs)), 0), name)
  }

  /** No entry of the root directory begins the name. */
  ghost predicate NewName(fs: Disk, name: seq<byte>) {
    forall key: nat :: NewNameBody(fs, name, key)
  }

  /** The file is there: it reads back, and its name leads to it. */
  ghost predicate StoredBody(fs: Disk, name: seq<byte>, ino: nat, data: seq<byte>, key: nat) {
    Readable(fs, ino) && ReadsAs(Open(fs, ino), Chunks(data, 0)) && Names(At(fs, Root(fs)), name, ino)
  }

  ghost predicate Stored(fs: Disk, name: seq<byte>, ino: nat, data: seq<byte>) {
    forall key: nat :: StoredBody(fs, name, ino, data, key)
  }

  lemma FewChunks(data: seq<byte>)
    requires |data| <= DIRECT * BLOCK_SIZE
    ensures |Chunks(data, 0)| <= DIRECT
  {
    ChunkCount(data, 0);
  }

  lemma TouchStores(fs: Disk, r: Request, hs: Disk, ino: nat)
    requires Sound(fs) && Fine(r) && TouchOne(fs, r) == Done(hs, ino) && NewName(fs, r.name)
    ensures Sound(hs) && Stored(hs, r.name, ino, r.data)
  {
    assert NewNameBody(fs, r.name, 0);
    TouchKeepsSound(fs, r.name, r.data, r.raw, r.now, hs, ino);
    TouchThenOpen(fs, r.name, r.data, r.raw, r.now, hs, ino);
    TouchThenLookup(fs, r.name, r.data, r.raw, r.now, hs, ino);
    FewChunks(r.data);
    var w := TouchMakes(fs, r.name, r.data, r.raw, r.now);
    NewFileReadable(fs, hs, ino, r.name, Chunks(r.data, 0), r.now, w);
  }

  /** Creating a file keeps every file there is. */
  lemma TouchKeepsStored(fs: Disk, r: Request, hs: Disk, ino: nat, name: seq<byte>, j: nat, data: seq<byte>)
    requires Sound(fs) && Fine(r) && TouchOne(fs, r) == Done(hs, ino) && Stored(fs, name, j, data)
    ensures Stored(hs, name, j, data)
  {
    var w := TouchMakes(fs, r.name, r.data, r.raw, r.now);
    var chunks := Chunks(r.data, 0);
    assert StoredBody(fs, name, j, data, 0);
    MadeChanged(fs, hs, ino, r.name, chunks, r.now, w);
    OthersKept(fs, hs, w.own, ino, MoreBlocks(w.file.inode), w.block, j);
    MadeName(fs, hs, ino, r.name, chunks, r.now, w);
    NameStays(At(fs, Root(fs)), w.block, NewEntry(ino, r.name), name, j);
  }

  /** A name stays new if neither an entry before nor the one just made begins it. */
  lemma TouchKeepsNew(fs: Disk, r: Request, hs: Disk, ino: nat, name: seq<byte>)
    requires Sound(fs) && Fine(r) && TouchOne(fs, r) == Done(hs, ino)
    requires NewName(fs, name) && !(Kept(r.name) <= name)
    ensures NewName(hs, name)
  {
    var w := TouchMakes(fs, r.name, r.data, r.raw, r.now);
    MadeName(fs, hs, ino, r.name, Chunks(r.data, 0), r.now, w);
    assert NewNameBody(fs, name, 0);
    NewStays(At(fs, Root(fs)), w.block, NewEntry(ino, r.name), name);
  }

  lemma NewStays(b: seq<byte>, c: seq<byte>, e: Entry, name: seq<byte>)
    requires Adds(b, c, e) && Chain(b, 0) && NoPrefix(Entries(b, 0), name) && !(e.name <= name)
    ensures Chain(c, 0) && NoPrefix(Entries(c, 0), name)
  {
    assert AddsBody(b, c, e, 0);
  }

  lemma StepStores(touch: Toucher, fs: Disk, r: Request)
    requires Touches(touch) && Sound(fs) && Fine(r) && touch(fs, r).Done?
    ensures Sound(touch(fs, r).fs)
    ensures NewName(fs, r.name) ==> Stored(touch(fs, r).fs, r.name, touch(fs, r).ino, r.data)
  {
    assert TouchesBody(touch, 0);
    var hs, ino := touch(fs, r).fs, touch(fs, r).ino;
    TouchKeepsSound(fs, r.name, r.data, r.raw, r.now, hs, ino);
    if NewName(fs, r.name) {
      TouchStores(fs, r, hs, ino);
    }
  }

  lemma StepKeepsStored(touch: Toucher, fs: Disk, r: Request, name: seq<byte>, j: nat, data: seq<byte>)
    requires Touches(touch) && Sound(fs) && Fine(r) && touch(fs, r).Done? && Stored(fs, name, j, data)
    ensures Stored(touch(fs, r).fs, name, j, data)
  {
    assert TouchesBody(touch, 0);
    TouchKeepsStored(fs, r, touch(fs, r).fs, touch(fs, r).ino, name, j, data);
  }

  lemma {:induction false} RunKeepsStored(touch: Toucher, fs: Disk, rs: seq<Request>, name: seq<byte>, j: nat, data: seq<byte>)
    requires Touches(touch) && Sound(fs) && (forall i :: 0 <= i < |rs| ==> Fine(rs[i]))
    requires Stored(fs, name, j, data) && TouchAll(touch, fs, rs).Ran?
    ensures Stored(TouchAll(touch, fs, rs).fs, name, j, data)
    decreases |rs|
  {
    if rs != [] {
      StepStores(touch, fs, rs[0]);
      StepKeepsStored(touch, fs, rs[0], name, j, data);
      var o := touch(fs, rs[0]);
      RunKeepsStored(touch, o.fs, rs[1..], name, j, data);
    }
  }

  /** No name of the run is begun by an entry that is there, nor by an earlier name of the run. */
  ghost predicate NewNames(fs: Disk, rs: seq<Request>) {
    && (forall i :: 0 <= i < |rs| ==> NewName(fs, rs[i].name))
    && forall i, j :: 0 <= i < j < |rs| ==> !(Kept(rs[i].name) <= rs[j].name)
  }

  lemma StepKeepsNewName(touch: Toucher, fs: Disk, r: Request, name: seq<byte>)
    requires Touches(touch) && Sound(fs) && Fine(r) && touch(fs, r).Done? && NewName(fs, name) && !(Kept(r.name) <= name)
    ensures NewName(touch(fs, r).fs, name)
  {
    assert TouchesBody(touch, 0);
    TouchKeepsNew(fs, r, touch(fs, r).fs, touch(fs, r).ino, name);
  }

  lemma StepKeepsNew(touch: Toucher, fs: Disk, rs: seq<Request>)
    requires Touches(touch) && Sound(fs) && rs != [] && Fine(rs[0]) && touch(fs, rs[0]).Done? && NewNames(fs, rs)
    ensures NewNames(touch(fs, rs[0]).fs, rs[1..])
  {
    forall i | 0 <= i < |rs[1..]| ensures NewName(touch(fs, rs[0]).fs, rs[1..][i].name) {
      StepKeepsNewName(touch, fs, rs[0], rs[i + 1].name);
    }
  }

  /** After any run of touch with new names, every file of the run is there, under its name. */
  lemma {:induction false} EveryFileIsStored(touch: Toucher, fs: Disk, rs: seq<Request>)
    requires Touches(touch) && Sound(fs) && (forall i :: 0 <= i < |rs| ==> Fine(rs[i])) && NewNames(fs, rs)
    requires TouchAll(touch, fs, rs).Ran?
    ensures var run := TouchAll(touch, fs, rs);
            Sound(run.fs) && forall i :: 0 <= i < |rs| ==> Stored(run.fs, rs[i].name, run.inos[i], rs[i].data)
    decreases |rs|
  {
    if rs != [] {
      var o := touch(fs, rs[0]);
      StepStores(touch, fs, rs[0]);
      StepKeepsNew(touch, fs, rs);
      var run, rest := TouchAll(touch, fs, rs), TouchAll(touch, o.fs, rs[1..]);
      RunKeepsStored(touch, o.fs, rs[1..], rs[0].name, o.ino, rs[0].data);
      EveryFileIsStored(touch, o.fs, rs[1..]);
      forall i | 0 <= i < |rs| ensures Stored(run.fs, rs[i].name, run.inos[i], rs[i].data) {
        if i > 0 {
          assert rs[i] == rs[1..][i - 1] && run.inos[i] == rest.inos[i - 1];
        }
      }
    }
  }
}
