/**
 The file system's device and the block cache: when the interrupts of an access have
 arrived before the next access is made, the cache behaves as the plain sequence of
 blocks that the ext2 model works on.

 The driver does not wait for them itself, so a block that is not cached is returned
 before it has arrived.  `EarlyReadExact` says when that goes well.
 */
module Ext2Cache {
  import opened Common
  import opened Ext2Spec
  import opened IdeSpec

  /** Nothing is queued, and the disk holds the blocks of fs. */
  ghost predicate Holds<B>(s: State<B>, fs: Disk) {
    Inv(s) && s.queue == [] && forall b :: 0 <= b < |fs| ==> DiskAt(s.disk, b) == fs[b]
  }

  /** The buffer buffer_read returns for a block of the disk. */
  function BufferOf<B>(s: State<B>, block: nat, spare: B, junk: Data): B
    requires forall id :: id in s.cache ==> id in s.bufs
  {
    Get(s, DISK, block, spare, junk).id
  }

  /** The state once buffer_read has been called and its interrupt, if any, has arrived. */
  function Settled<B>(s: State<B>, block: nat, spare: B, junk: Data): (r: State<B>)
    requires Inv(s) && s.queue == [] && spare !in s.bufs
    ensures Inv(r) && r.queue == []
  {
    ReadKeeps(s, DISK, block, spare, junk);
    Drain(Read(s, DISK, block, spare, junk))
  }

  lemma DrainOne<B>(s: State<B>, id: B)
    requires Inv(s) && s.queue == [id]
    ensures Drain(s) == Interrupt(s)
  {
    InterruptKeeps(s);
    assert Interrupt(s).queue == [];
  }

  /** What a buffer and the disk are once the buffer's request, the only one, has been served. */
  lemma RequestSettles<B>(s: State<B>, id: B)
    requires Inv(s) && s.queue == [id] && s.bufs[id].dev == DISK
    ensures var r, b := Drain(s), s.bufs[id];
            && id in r.bufs && r.bufs[id] == Served(b, s.disk)
            && r.disk == if b.dirty then s.disk[b.block := b.data] else s.disk
  {
    DrainOne(s, id);
  }

  lemma ReadCached<B>(s: State<B>, fs: Disk, block: nat, spare: B, junk: Data)
    requires Holds(s, fs) && spare !in s.bufs && block < |fs|
    requires var g := Get(s, DISK, block, spare, junk); g.state.bufs[g.id].valid
    ensures var r, id := Settled(s, block, spare, junk), BufferOf(s, block, spare, junk);
            && Holds(r, fs)
            && id in r.bufs && r.bufs[id].dev == DISK && r.bufs[id].block == block
            && r.bufs[id].valid && r.bufs[id].data == At(fs, block)
  {
    GetKeeps(s, DISK, block, spare, junk);
  }

  lemma ReadNew<B>(s: State<B>, fs: Disk, block: nat, spare: B, junk: Data)
    requires Holds(s, fs) && spare !in s.bufs && block < |fs|
    requires var g := Get(s, DISK, block, spare, junk); !g.state.bufs[g.id].valid
    ensures var r, id := Settled(s, block, spare, junk), BufferOf(s, block, spare, junk);
            && Holds(r, fs)
            && id in r.bufs && r.bufs[id].dev == DISK && r.bufs[id].block == block
            && r.bufs[id].valid && r.bufs[id].data == At(fs, block)
  {
    var g := Get(s, DISK, block, spare, junk);
    GetKeeps(s, DISK, block, spare, junk);
    var s1 := Request(g.state, g.id);
    RequestKeeps(g.state, g.id);
    assert s1.queue == [g.id] && !s1.bufs[g.id].dirty;
    RequestSettles(s1, g.id);
  }

  /** A read that has settled gives the block, and leaves the disk as it was. */
  lemma ReadSettles<B>(s: State<B>, fs: Disk, block: nat, spare: B, junk: Data)
    requires Holds(s, fs) && spare !in s.bufs && block < |fs|
    ensures var r, id := Settled(s, block, spare, junk), BufferOf(s, block, spare, junk);
            && Holds(r, fs)
            && id in r.bufs && r.bufs[id].dev == DISK && r.bufs[id].block == block
            && r.bufs[id].valid && r.bufs[id].data == At(fs, block)
  {
    var g := Get(s, DISK, block, spare, junk);
    if g.state.bufs[g.id].valid {
      ReadCached(s, fs, block, spare, junk);
    } else {
      ReadNew(s, fs, block, spare, junk);
    }
  }

  /** A write that has settled stores the block, and no other. */
  lemma WriteSettles<B>(s: State<B>, fs: Disk, id: B, block: Block)
    requires Holds(s, fs) && id in s.bufs && s.bufs[id].dev == DISK
    ensures Inv(Write(s, id, block))
    ensures Holds(Drain(Write(s, id, block)), Store(fs, s.bufs[id].block, block))
  {
    WriteKeeps(s, id, block);
    var s1 := Write(s, id, block);
    assert s1.queue == [id] && s1.disk == s.disk;
    RequestSettles(s1, id);
    StoreOnDisk(s.disk, fs, s.bufs[id].block, block);
  }

  lemma StoreOnDisk(disk: map<nat, Data>, fs: Disk, b: nat, block: Block)
    requires forall k :: 0 <= k < |fs| ==> DiskAt(disk, k) == fs[k]
    ensures forall k :: 0 <= k < |fs| ==> DiskAt(disk[b := block], k) == Store(fs, b, block)[k]
  {
  }

  // ----- whole sequences of accesses

  /** An access of the file system: a block is read, and perhaps changed and written. */
  datatype Access<B> = Access(block: nat, spare: B, junk: Data, change: Option<Block>)

  function Apply<B>(fs: Disk, a: Access<B>): (r: Disk)
    ensures |r| == |fs|
  {
    if a.change.Some? then Store(fs, a.block, a.change.value) else fs
  }

  function ApplyAll<B>(fs: Disk, run: seq<Access<B>>): (r: Disk)
    ensures |r| == |fs|
    decreases |run|
  {
    if run == [] then fs else ApplyAll(Apply(fs, run[0]), run[1..])
  }

  /** The cache after one access, with all its interrupts. */
  ghost function Accessed<B>(s: State<B>, a: Access<B>): (r: State<B>)
    requires Inv(s) && s.queue == [] && a.spare !in s.bufs
    ensures Inv(r) && r.queue == []
  {
    GetKeeps(s, DISK, a.block, a.spare, a.junk);
    var r := Settled(s, a.block, a.spare, a.junk);
    var id := BufferOf(s, a.block, a.spare, a.junk);
    if a.change.None? then r else
    SettledKeys(s, a.block, a.spare, a.junk);
    WriteKeeps(r, id, a.change.value);
    Drain(Write(r, id, a.change.value))
  }

  lemma SettledKeys<B>(s: State<B>, block: nat, spare: B, junk: Data)
    requires Inv(s) && s.queue == [] && spare !in s.bufs
    ensures BufferOf(s, block, spare, junk) in Settled(s, block, spare, junk).bufs
  {
    GetKeeps(s, DISK, block, spare, junk);
    ReadKeeps(s, DISK, block, spare, junk);
  }

  lemma AccessRefines<B>(s: State<B>, fs: Disk, a: Access<B>)
    requires Holds(s, fs) && a.spare !in s.bufs && a.block < |fs|
    ensures Holds(Accessed(s, a), Apply(fs, a))
  {
    ReadSettles(s, fs, a.block, a.spare, a.junk);
    if a.change.Some? {
      var r := Settled(s, a.block, a.spare, a.junk);
      var id := BufferOf(s, a.block, a.spare, a.junk);
      WriteSettles(r, fs, id, a.change.value);
      AccessIs(s, a, r, id);
    }
  }

  lemma AccessIs<B>(s: State<B>, a: Access<B>, r: State<B>, id: B)
    requires Inv(s) && s.queue == [] && a.spare !in s.bufs && a.change.Some?
    requires r == Settled(s, a.block, a.spare, a.junk) && id == BufferOf(s, a.block, a.spare, a.junk)
    requires id in r.bufs && Inv(Write(r, id, a.change.value))
    ensures Accessed(s, a) == Drain(Write(r, id, a.change.value))
  {
  }

  /** Each access is to a block of the device, and a new buffer is new. */
  ghost predicate Possible<B>(s: State<B>, size: nat, run: seq<Access<B>>)
    requires Inv(s) && s.queue == []
    decreases |run|
  {
    run == [] ||
    (run[0].block < size && run[0].spare !in s.bufs && Possible(Accessed(s, run[0]), size, run[1..]))
  }

  ghost function AccessedAll<B>(s: State<B>, size: nat, run: seq<Access<B>>): (r: State<B>)
    requires Inv(s) && s.queue == [] && Possible(s, size, run)
    ensures Inv(r) && r.queue == []
    decreases |run|
  {
    if run == [] then s else AccessedAll(Accessed(s, run[0]), size, run[1..])
  }

  /** Main result: after every sequence of settled accesses the disk is what plain stores make of it. */
  lemma {:induction false} CacheRefinesDisk<B>(s: State<B>, fs: Disk, run: seq<Access<B>>)
    requires Holds(s, fs) && Possible(s, |fs|, run)
    ensures Holds(AccessedAll(s, |fs|, run), ApplyAll(fs, run))
    decreases |run|
  {
    if run != [] {
      AccessRefines(s, fs, run[0]);
      CacheRefinesDisk(Accessed(s, run[0]), Apply(fs, run[0]), run[1..]);
    }
  }

  /** What the accesses of a run read, each before its own change. */
  ghost function ReadAll<B>(s: State<B>, size: nat, run: seq<Access<B>>): (r: seq<Data>)
    requires Inv(s) && s.queue == [] && Possible(s, size, run)
    decreases |run|
  {
    if run == [] then [] else
    var a := run[0];
    SettledKeys(s, a.block, a.spare, a.junk);
    [Settled(s, a.block, a.spare, a.junk).bufs[BufferOf(s, a.block, a.spare, a.junk)].data] +
    ReadAll(Accessed(s, a), size, run[1..])
  }

  /** What they should read: the block as the changes before have left it. */
  function BlocksOf<B>(fs: Disk, run: seq<Access<B>>): (r: seq<Data>)
    decreases |run|
  {
    if run == [] then [] else [At(fs, run[0].block)] + BlocksOf(Apply(fs, run[0]), run[1..])
  }

  /** And every access of the run read the block as it then was. */
  lemma {:induction false} EveryReadIsCurrent<B>(s: State<B>, fs: Disk, run: seq<Access<B>>)
    requires Holds(s, fs) && Possible(s, |fs|, run)
    ensures ReadAll(s, |fs|, run) == BlocksOf(fs, run)
    decreases |run|
  {
    if run != [] {
      ReadSettles(s, fs, run[0].block, run[0].spare, run[0].junk);
      AccessRefines(s, fs, run[0]);
      EveryReadIsCurrent(Accessed(s, run[0]), Apply(fs, run[0]), run[1..]);
    }
  }

  // ----- what the driver does instead of waiting

  /** A valid buffer for the block is in the cache. */
  ghost predicate Cached<B>(s: State<B>, block: nat) {
    exists id :: id in s.bufs && s.bufs[id].dev == DISK && s.bufs[id].block == block && s.bufs[id].valid
  }

  lemma NewBufferIsInvalid<B>(s: State<B>, block: nat, spare: B, junk: Data)
    requires Inv(s) && spare !in s.bufs
    ensures var g := Get(s, DISK, block, spare, junk);
            g.state.bufs[g.id].valid <==> Cached(s, block)
  {
    var i := Find(s, DISK, block, 0);
    if i == -1 {
      forall id | id in s.bufs ensures !(s.bufs[id].dev == DISK && s.bufs[id].block == block) {
        assert id in s.cache;
      }
    } else if Cached(s, block) {
      var id :| id in s.bufs && s.bufs[id].dev == DISK && s.bufs[id].block == block && s.bufs[id].valid;
      assert id == s.cache[i];
    }
  }

  /** Every buffer of the disk has been read or waits to be. */
  ghost predicate AllAsked<B>(s: State<B>) {
    forall id :: id in s.bufs && s.bufs[id].dev == DISK ==> s.bufs[id].valid || id in s.queue
  }

  lemma DoKeepsAsked<B>(s: State<B>, a: Action<B>)
    requires Inv(s) && Legal(s, a) && AllAsked(s)
    ensures AllAsked(Do(s, a))
  {
    match a
    case ReadAction(dev, block, spare, junk) => ReadKeepsAsked(s, dev, block, spare, junk);
    case WriteAction(id, data) => WriteKeepsAsked(s, id, data);
    case InterruptAction => InterruptQueue(s);
  }

  lemma ReadKeepsAsked<B>(s: State<B>, dev: nat, block: nat, spare: B, junk: Data)
    requires Inv(s) && AllAsked(s) && Legal(s, ReadAction(dev, block, spare, junk))
    ensures AllAsked(Read(s, dev, block, spare, junk))
  {
    GetKeeps(s, dev, block, spare, junk);
  }

  lemma WriteKeepsAsked<B>(s: State<B>, id: B, data: Data)
    requires Inv(s) && AllAsked(s) && id in s.bufs
    ensures AllAsked(Write(s, id, data))
  {
  }

  /** So it is in every run from buffer_init; once nothing is queued, every buffer of the disk is valid. */
  lemma {:induction false} EveryRunAsks<B>(s: State<B>, run: seq<Action<B>>)
    requires Inv(s) && AllAsked(s) && LegalRun(s, run)
    ensures AllAsked(Run(s, run))
    decreases |run|
  {
    if run != [] {
      DoKeepsAsked(s, run[0]);
      EveryRunAsks(Do(s, run[0]), run[1..]);
    }
  }

  /**
   buffer_read returns at once.  The buffer then holds the block exactly when a valid buffer
   for it was cached, or the memory of the new buffer happened to hold the block's bytes.
   */
  lemma EarlyReadExact<B>(s: State<B>, fs: Disk, block: nat, spare: B, junk: Data)
    requires Holds(s, fs) && AllAsked(s) && spare !in s.bufs && block < |fs|
    ensures Read(s, DISK, block, spare, junk).bufs[BufferOf(s, block, spare, junk)].data == At(fs, block) <==>
            Cached(s, block) || junk == At(fs, block)
  {
    NewBufferIsInvalid(s, block, spare, junk);
    GetKeeps(s, DISK, block, spare, junk);
  }

  /** The sixteen buffers of buffer_init, over a given disk. */
  function InitCache(fs: Disk): State<nat> {
    var ids: seq<nat> := seq(16, i => i);
    State(map i | i in ids :: Buf(NO_DEVICE, 0, false, false, false, []), ids, [], None,
          map b | 0 <= b < |fs| :: fs[b], [], [])
  }

  /** A failing input: nothing read so far, and memory that does not hold the block. */
  lemma EarlyReadFails(fs: Disk, junk: Data)
    requires junk != At(fs, 0)
    ensures var s := InitCache(fs);
            && Initial(s) && Holds(s, fs) && AllAsked(s)
            && Read(s, DISK, 0, 16, junk).bufs[BufferOf(s, 0, 16, junk)].data != At(fs, 0)
  {
    var s := InitCache(fs);
    InitialInv(s);
    EarlyReadExact(s, fs, 0, 16, junk);
  }
}
