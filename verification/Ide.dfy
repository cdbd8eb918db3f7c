/**
 The disk driver's buffer cache and request queue.

 One command is outstanding at a time; it completes only when the device interrupts,
 and the handler then starts the next one.  A transfer is a whole block.
 */
module IdeSpec {
  import opened Common

  type Data = seq<int>

  const NO_DEVICE: nat := 0xFFFF_FFFF
  const DISK: nat := 1

  datatype Buf = Buf(dev: nat, block: nat, busy: bool, valid: bool, dirty: bool, data: Data)

  datatype Command = ReadBlock(block: nat) | WriteBlock(block: nat, data: Data)

  /**
   Buffers by identity, the cache list, the queue, the command the device is working on,
   the disk, and the history of requests made and served.
   */
  datatype State<B> = State(bufs: map<B, Buf>, cache: seq<B>, queue: seq<B>, pending: Option<Command>,
                            disk: map<nat, Data>, asked: seq<B>, served: seq<B>)

  function DiskAt(disk: map<nat, Data>, block: nat): Data {
    if block in disk then disk[block] else []
  }

  /** ide_op: the command for a buffer. */
  function CommandFor(b: Buf): Command {
    if b.dirty then WriteBlock(b.block, b.data) else ReadBlock(b.block)
  }

  /** ide_rw refuses a buffer that is valid and clean, and one that is not on the disk. */
  predicate Refused(b: Buf) {
    (b.valid && !b.dirty) || b.dev != DISK
  }

  /** ide_rw on a buffer that is not queued. */
  function Request<B>(s: State<B>, id: B): (r: State<B>)
    requires id in s.bufs
  {
    if Refused(s.bufs[id]) then s
    else s.(queue := s.queue + [id], asked := s.asked + [id],
            pending := if s.queue == [] then Some(CommandFor(s.bufs[id])) else s.pending)
  }

  /** Position of the first cached buffer for (dev, block) from i on, or -1. */
  function Find<B>(s: State<B>, dev: nat, block: nat, i: nat): (r: int)
    requires i <= |s.cache| && forall id :: id in s.cache ==> id in s.bufs
    ensures r == -1 || i <= r < |s.cache|
    ensures r != -1 ==> s.bufs[s.cache[r]].dev == dev && s.bufs[s.cache[r]].block == block
    ensures r == -1 ==> forall j :: i <= j < |s.cache| ==> !(s.bufs[s.cache[j]].dev == dev && s.bufs[s.cache[j]].block == block)
    decreases |s.cache| - i
  {
    if i == |s.cache| then -1
    else if s.bufs[s.cache[i]].dev == dev && s.bufs[s.cache[i]].block == block then i
    else Find(s, dev, block, i + 1)
  }

  datatype Got<B> = Got(state: State<B>, id: B)

  /** buffer_get: the cached buffer, marked busy, or a new one at the end of the list. */
  function Get<B>(s: State<B>, dev: nat, block: nat, spare: B, junk: Data): (r: Got<B>)
    requires forall id :: id in s.cache ==> id in s.bufs
  {
    var i := Find(s, dev, block, 0);
    if i != -1 then Got(s.(bufs := s.bufs[s.cache[i] := s.bufs[s.cache[i]].(busy := true)]), s.cache[i])
    else Got(s.(bufs := s.bufs[spare := Buf(dev, block, true, false, false, junk)], cache := s.cache + [spare]), spare)
  }

  /** buffer_read: get it, and ask for the block if it has not been read. */
  function Read<B>(s: State<B>, dev: nat, block: nat, spare: B, junk: Data): (r: State<B>)
    requires forall id :: id in s.cache ==> id in s.bufs
  {
    var g := Get(s, dev, block, spare, junk);
    if g.state.bufs[g.id].valid then g.state else Request(g.state, g.id)
  }

  /** A client changes a buffer's data and calls buffer_write. */
  function Write<B>(s: State<B>, id: B, data: Data): (r: State<B>)
    requires id in s.bufs
  {
    Request(s.(bufs := s.bufs[id := s.bufs[id].(data := data, dirty := true)]), id)
  }

  /** What the device does with the outstanding command when it completes. */
  function Complete(disk: map<nat, Data>, c: Option<Command>): map<nat, Data> {
    match c
    case Some(WriteBlock(block, data)) => disk[block := data]
    case _ => disk
  }

  /** The buffer once its command is done: read from the disk unless it was being written; valid and clean. */
  function Served(b: Buf, disk: map<nat, Data>): Buf {
    b.(data := if b.dirty then b.data else DiskAt(disk, b.block), valid := true, dirty := false)
  }

  /** ide_handler: the head of the queue is done; the next one, if any, is started. */
  function Interrupt<B>(s: State<B>): (r: State<B>)
    requires s.queue != [] && forall id :: id in s.queue ==> id in s.bufs
  {
    var id := s.queue[0];
    var disk := Complete(s.disk, s.pending);
    var bufs := s.bufs[id := Served(s.bufs[id], s.disk)];
    var rest := s.queue[1..];
    State(bufs, s.cache, rest, if rest == [] then None else Some(CommandFor(bufs[rest[0]])),
          disk, s.asked, s.served + [id])
  }

  // ----- the invariant

  predicate Distinct<B(==)>(q: seq<B>) {
    forall i, j :: 0 <= i < j < |q| ==> q[i] != q[j]
  }

  ghost predicate Known<B>(s: State<B>) {
    && (forall id :: id in s.cache ==> id in s.bufs)
    && (forall id :: id in s.bufs ==> id in s.cache)
    && (forall id :: id in s.queue ==> id in s.bufs)
    && Distinct(s.cache)
  }

  /** The outstanding command is the one for the head of the queue, as that buffer is now. */
  ghost predicate OneCommand<B>(s: State<B>)
    requires Known(s)
  {
    && Distinct(s.queue)
    && (s.queue == [] ==> s.pending == None)
    && (s.queue != [] ==> s.pending == Some(CommandFor(s.bufs[s.queue[0]])))
    && (forall id :: id in s.queue ==> !Refused(s.bufs[id]))
  }

  /** At most one cached buffer for each block of each device. */
  ghost predicate OnePerBlock<B>(s: State<B>)
    requires Known(s)
  {
    forall a, b :: a in s.bufs && b in s.bufs && a != b && s.bufs[a].dev == s.bufs[b].dev != NO_DEVICE ==>
      s.bufs[a].block != s.bufs[b].block
  }

  /** A valid, clean buffer of the disk holds what is on the disk. */
  ghost predicate Coherent<B>(s: State<B>)
    requires Known(s)
  {
    && (forall id :: id in s.bufs && s.bufs[id].dev == DISK && s.bufs[id].valid && !s.bufs[id].dirty ==>
          s.bufs[id].data == DiskAt(s.disk, s.bufs[id].block))
    && (forall id :: id in s.bufs && s.bufs[id].dev == DISK && s.bufs[id].dirty ==> id in s.queue)
  }

  /** Requests are served in the order they were made. */
  ghost predicate InOrder<B>(s: State<B>) {
    s.asked == s.served + s.queue
  }

  ghost predicate Inv<B>(s: State<B>) {
    Known(s) && OneCommand(s) && OnePerBlock(s) && Coherent(s) && InOrder(s)
  }

  /** Once a buffer's command is done, buffer and disk agree; a write changes its own block only, a read none. */
  lemma CommandExact(b: Buf, disk: map<nat, Data>, block: nat)
    ensures var disk' := Complete(disk, Some(CommandFor(b)));
            && Served(b, disk).data == DiskAt(disk', b.block)
            && (DiskAt(disk', block) != DiskAt(disk, block) ==> block == b.block && b.dirty)
            && (b.dirty ==> Served(b, disk).data == b.data)
  {
  }

  // ----- each step keeps it

  lemma RequestKeeps<B>(s: State<B>, id: B)
    requires Known(s) && OneCommand(s) && OnePerBlock(s) && InOrder(s) && id in s.bufs && id !in s.queue
    requires forall i :: i in s.bufs && s.bufs[i].dev == DISK && s.bufs[i].valid && !s.bufs[i].dirty ==>
               s.bufs[i].data == DiskAt(s.disk, s.bufs[i].block)
    requires forall i :: i in s.bufs && i != id && s.bufs[i].dev == DISK && s.bufs[i].dirty ==> i in s.queue
    ensures Inv(Request(s, id))
  {
    var r := Request(s, id);
    if !Refused(s.bufs[id]) {
      assert r.queue == s.queue + [id];
      assert r.asked == r.served + r.queue;
    }
  }

  lemma GetKeeps<B>(s: State<B>, dev: nat, block: nat, spare: B, junk: Data)
    requires Inv(s) && spare !in s.bufs
    ensures var g := Get(s, dev, block, spare, junk);
            && Inv(g.state) && g.id in g.state.bufs && g.state.queue == s.queue
            && g.state.bufs[g.id].dev == dev && g.state.bufs[g.id].block == block
  {
    if Find(s, dev, block, 0) == -1 {
      GetNew(s, dev, block, spare, junk);
    } else {
      GetCached(s, dev, block, spare, junk);
    }
  }

  lemma GetCached<B>(s: State<B>, dev: nat, block: nat, spare: B, junk: Data)
    requires Inv(s) && Find(s, dev, block, 0) != -1
    ensures var g := Get(s, dev, block, spare, junk);
            && Inv(g.state) && g.id in g.state.bufs && g.state.queue == s.queue
            && g.state.bufs[g.id].dev == dev && g.state.bufs[g.id].block == block
  {
  }

  lemma GetNew<B>(s: State<B>, dev: nat, block: nat, spare: B, junk: Data)
    requires Inv(s) && spare !in s.bufs && Find(s, dev, block, 0) == -1
    ensures var g := Get(s, dev, block, spare, junk);
            && Inv(g.state) && g.id in g.state.bufs && g.state.queue == s.queue
            && g.state.bufs[g.id].dev == dev && g.state.bufs[g.id].block == block
  {
    forall a | a in s.bufs
      ensures !(s.bufs[a].dev == dev && s.bufs[a].block == block)
    {
      assert a in s.cache;
    }
  }

  lemma ReadKeeps<B>(s: State<B>, dev: nat, block: nat, spare: B, junk: Data)
    requires Inv(s) && spare !in s.bufs
    requires var g := Get(s, dev, block, spare, junk); g.state.bufs[g.id].valid || g.id !in s.queue
    ensures Inv(Read(s, dev, block, spare, junk))
  {
    GetKeeps(s, dev, block, spare, junk);
    var g := Get(s, dev, block, spare, junk);
    if !g.state.bufs[g.id].valid {
      RequestKeeps(g.state, g.id);
    }
  }

  /**
   The buffer that a read is answered with: it is for the block, and it is what it was if it was
   cached; if it is valid and clean it holds the disk's block, and if not valid it is queued.
   */
  lemma ReadReturns<B>(s: State<B>, dev: nat, block: nat, spare: B, junk: Data)
    requires Inv(s) && (Find(s, dev, block, 0) != -1 || spare !in s.bufs)
    ensures var r, id := Read(s, dev, block, spare, junk), Get(s, dev, block, spare, junk).id;
            && id in r.bufs && r.bufs[id].dev == dev && r.bufs[id].block == block && r.disk == s.disk
            && (id in s.bufs ==> r.bufs[id] == s.bufs[id].(busy := true))
            && (dev == DISK && r.bufs[id].valid && !r.bufs[id].dirty ==> r.bufs[id].data == DiskAt(s.disk, block))
            && (dev == DISK && !r.bufs[id].valid ==> id in r.queue)
  {
    if Find(s, dev, block, 0) == -1 {
      GetNew(s, dev, block, spare, junk);
    } else {
      GetCached(s, dev, block, spare, junk);
    }
  }

  lemma WriteKeeps<B>(s: State<B>, id: B, data: Data)
    requires Inv(s) && id in s.bufs && id !in s.queue
    ensures Inv(Write(s, id, data))
  {
    var s' := s.(bufs := s.bufs[id := s.bufs[id].(data := data, dirty := true)]);
    RequestKeeps(s', id);
  }

  lemma InterruptQueue<B>(s: State<B>)
    requires Inv(s) && s.queue != []
    ensures var r := Interrupt(s);
            && Known(r) && OneCommand(r) && OnePerBlock(r) && InOrder(r)
            && s.queue[0] !in r.queue && s.queue == [s.queue[0]] + r.queue
  {
    InterruptOrder(s);
  }

  lemma InterruptOrder<B>(s: State<B>)
    requires Inv(s) && s.queue != []
    ensures var r := Interrupt(s);
            && InOrder(r) && s.queue[0] !in r.queue && s.queue == [s.queue[0]] + r.queue
            && forall i :: i in r.queue ==> i in s.queue
  {
    var r := Interrupt(s);
    var id := s.queue[0];
    assert s.queue == [id] + r.queue;
    assert r.asked == r.served + r.queue;
    assert forall i :: i in r.queue ==> i in s.queue && i != id;
  }

  lemma InterruptKeeps<B>(s: State<B>)
    requires Inv(s) && s.queue != []
    ensures Inv(Interrupt(s))
  {
    InterruptQueue(s);
    var r := Interrupt(s);
    var id := s.queue[0];
    forall i | i in r.bufs && r.bufs[i].dev == DISK && r.bufs[i].dirty
      ensures i in r.queue
    {
      assert i in s.queue && i != id;
    }
    forall i | i in r.bufs && r.bufs[i].dev == DISK && r.bufs[i].valid && !r.bufs[i].dirty
      ensures r.bufs[i].data == DiskAt(r.disk, r.bufs[i].block)
    {
      if i != id {
        assert r.bufs[i] == s.bufs[i];
        assert s.bufs[i].block != s.bufs[id].block;
      }
    }
  }

  // ----- runs

  datatype Action<B> =
    | ReadAction(dev: nat, block: nat, spare: B, junk: Data)
    | WriteAction(id: B, data: Data)
    | InterruptAction

  /**
   A new buffer is new; a buffer is neither changed nor queued again while it is queued;
   and the device interrupts only when it has a command.
   */
  ghost predicate Legal<B>(s: State<B>, a: Action<B>)
    requires Inv(s)
  {
    match a
    case ReadAction(dev, block, spare, junk) =>
      spare !in s.bufs && var g := Get(s, dev, block, spare, junk); g.state.bufs[g.id].valid || g.id !in s.queue
    case WriteAction(id, _) => id in s.bufs && id !in s.queue
    case InterruptAction => s.queue != []
  }

  function Do<B>(s: State<B>, a: Action<B>): (r: State<B>)
    requires Inv(s) && Legal(s, a)
    ensures Inv(r)
  {
    match a
    case ReadAction(dev, block, spare, junk) => ReadKeeps(s, dev, block, spare, junk); Read(s, dev, block, spare, junk)
    case WriteAction(id, data) => WriteKeeps(s, id, data); Write(s, id, data)
    case InterruptAction => InterruptKeeps(s); Interrupt(s)
  }

  ghost predicate LegalRun<B>(s: State<B>, run: seq<Action<B>>)
    requires Inv(s)
    decreases |run|
  {
    run == [] || (Legal(s, run[0]) && LegalRun(Do(s, run[0]), run[1..]))
  }

  ghost function Run<B>(s: State<B>, run: seq<Action<B>>): (r: State<B>)
    requires Inv(s) && LegalRun(s, run)
    decreases |run|
  {
    if run == [] then s else Run(Do(s, run[0]), run[1..])
  }

  /** What buffer_init sets up: buffers of no device, nothing queued. */
  ghost predicate Initial<B>(s: State<B>) {
    && Known(s) && s.queue == [] && s.pending == None && s.asked == [] && s.served == []
    && forall id :: id in s.bufs ==> s.bufs[id].dev == NO_DEVICE
  }

  lemma InitialInv<B>(s: State<B>)
    requires Initial(s)
    ensures Inv(s)
  {
  }

  /**
   Main result, for every run: one cached buffer per block, one command outstanding and it is
   for the head of a queue without repetitions, service in the order of requests, and every
   valid clean buffer equal to its disk block.
   */
  lemma {:induction false} EveryRunIsCoherent<B>(s: State<B>, run: seq<Action<B>>)
    requires Inv(s) && LegalRun(s, run)
    ensures Inv(Run(s, run))
    decreases |run|
  {
    if run != [] {
      EveryRunIsCoherent(Do(s, run[0]), run[1..]);
    }
  }

  // ----- what is written reaches the disk

  /** Interrupts until nothing is queued. */
  function Drain<B>(s: State<B>): (r: State<B>)
    requires Inv(s)
    ensures Inv(r) && r.queue == [] && r.bufs.Keys == s.bufs.Keys
    decreases |s.queue|
  {
    if s.queue == [] then s else
    InterruptKeeps(s);
    Drain(Interrupt(s))
  }

  /** What a buffer holds once the queue has drained: its block of the disk if it waits to be read, else its data. */
  function Contents<B>(s: State<B>, id: B): Data
    requires id in s.bufs
  {
    if id in s.queue && !s.bufs[id].dirty then DiskAt(s.disk, s.bufs[id].block) else s.bufs[id].data
  }

  /** An interrupt changes no buffer's place and no buffer's contents to be. */
  lemma InterruptContents<B>(s: State<B>, id: B)
    requires Inv(s) && s.queue != [] && id in s.bufs
    ensures var r := Interrupt(s);
            && id in r.bufs && Contents(r, id) == Contents(s, id)
            && r.bufs[id].dev == s.bufs[id].dev && r.bufs[id].block == s.bufs[id].block
            && (s.bufs[id].valid || id in s.queue ==> r.bufs[id].valid || id in r.queue)
  {
    InterruptQueue(s);
    var r := Interrupt(s);
    var head := s.queue[0];
    if id != head {
      assert id in r.queue <==> id in s.queue;
      if id in s.queue {
        assert s.bufs[id].block != s.bufs[head].block;
      }
    }
  }

  /** Draining leaves every buffer with its contents, and makes every queued one valid. */
  lemma {:induction false} DrainKeepsData<B>(s: State<B>, id: B)
    requires Inv(s) && id in s.bufs
    ensures Drain(s).bufs[id].data == Contents(s, id) && Drain(s).bufs[id].dev == s.bufs[id].dev
    ensures Drain(s).bufs[id].block == s.bufs[id].block
    ensures s.bufs[id].valid || id in s.queue ==> Drain(s).bufs[id].valid
    decreases |s.queue|
  {
    if s.queue != [] {
      InterruptKeeps(s);
      InterruptContents(s, id);
      DrainKeepsData(Interrupt(s), id);
    }
  }

  /** When the queue has drained, every buffer of the disk that was valid or queued is on the disk. */
  lemma DrainFlushes<B>(s: State<B>, id: B)
    requires Inv(s) && id in s.bufs && s.bufs[id].dev == DISK && (s.bufs[id].valid || id in s.queue)
    ensures DiskAt(Drain(s).disk, s.bufs[id].block) == Contents(s, id)
  {
    DrainKeepsData(s, id);
    assert !Drain(s).bufs[id].dirty;
  }

  // ----- the queue as links

  /** The member of q after the i-th, or null. */
  function After(q: seq<nat>, i: nat): int {
    if i + 1 < |q| then q[i + 1] else -1
  }

  /** From `head` along the links one meets exactly the members of q, and then null (-1). */
  ghost predicate IsQueue(links: map<nat, int>, head: int, q: seq<nat>) {
    && head == (if q == [] then -1 else q[0])
    && Distinct(q)
    && (forall i :: 0 <= i < |q| ==> q[i] in links)
    && (forall i :: 0 <= i < |q| ==> links[q[i]] == After(q, i))
  }

  /** What is left of the queue once b's link is cleared: all of it, or the part up to b. */
  function Cut(q: seq<nat>, b: nat): (r: seq<nat>)
    ensures r <= q
    ensures b !in q ==> r == q
    ensures b in q ==> r != [] && r[|r| - 1] == b && b !in r[..|r| - 1]
  {
    if q == [] then [] else if q[0] == b then [b] else
    var r := Cut(q[1..], b);
    assert b in q ==> ([q[0]] + r)[..|r|] == [q[0]] + r[..|r| - 1];
    [q[0]] + r
  }

  /** ide_rw's list operation: clear b's link, walk to the end of what remains, hang b there. */
  function Hang(links: map<nat, int>, q: seq<nat>, b: nat): map<nat, int> {
    var rest := Cut(q, b);
    if rest == [] then links[b := -1] else links[b := -1][rest[|rest| - 1] := b]
  }

  function HeadAfter(head: int, b: nat): int {
    if head == -1 then b else head
  }

  /** A buffer that is not queued goes to the end of the queue. */
  lemma HangAppends(links: map<nat, int>, head: int, q: seq<nat>, b: nat)
    requires IsQueue(links, head, q) && b !in q
    ensures IsQueue(Hang(links, q, b), HeadAfter(head, b), q + [b])
  {
  }

  lemma {:induction false} SamePath(links: map<nat, int>, links': map<nat, int>, head: int, q: seq<nat>, p: seq<nat>, q': seq<nat>, i: nat)
    requires IsQueue(links, head, q) && p <= q && i < |p|
    requires forall j :: 0 <= j < |p| - 1 ==> p[j] in links' && links'[p[j]] == links[p[j]]
    requires IsQueue(links', head, q')
    ensures i < |q'| && q'[i] == p[i]
  {
    assert p[i] == q[i] && head == q[0];
    if i > 0 {
      SamePath(links, links', head, q, p, q', i - 1);
      assert p[i - 1] == q[i - 1];
      assert links'[q'[i - 1]] == q[i];
    }
  }

  /** No queue passes through a buffer that is its own successor. */
  lemma SelfLoop(links: map<nat, int>, head: int, q: seq<nat>, b: nat)
    requires IsQueue(links, head, q) && b in links && links[b] == b
    ensures b !in q
  {
  }

  /**
   Queueing again a buffer that is queued makes it its own successor: the list from the
   head is then no queue at all, whatever its members are taken to be.
   */
  lemma RequeueMakesCycle(links: map<nat, int>, head: int, q: seq<nat>, b: nat, q': seq<nat>)
    requires IsQueue(links, head, q) && b in q
    ensures !IsQueue(Hang(links, q, b), HeadAfter(head, b), q')
  {
    var links' := Hang(links, q, b);
    var p := Cut(q, b);
    assert links'[b] == b;
    if IsQueue(links', head, q') {
      SelfLoop(links', head, q', b);
      SamePath(links, links', head, q, p, q', |p| - 1);
    }
  }

  /** So the list stays a queue exactly when the buffer was not in it. */
  lemma HangExact(links: map<nat, int>, head: int, q: seq<nat>, b: nat)
    requires IsQueue(links, head, q)
    ensures (exists q' :: IsQueue(Hang(links, q, b), HeadAfter(head, b), q')) <==> b !in q
  {
    if b !in q {
      HangAppends(links, head, q, b);
    } else {
      forall q' ensures !IsQueue(Hang(links, q, b), HeadAfter(head, b), q') {
        RequeueMakesCycle(links, head, q, b, q');
      }
    }
  }
}

/** The driver on linked buffers: the cache list through `next`, the request queue through `q`. */
module IdeImpl {
  import opened Common
  import opened IdeSpec

  /** A buffer: its contents, and its links in the cache list and in the queue. */
  class Buffer {
    var val: Buf
    var next: Buffer?
    var q: Buffer?

    constructor (val: Buf)
      ensures this.val == val && next == null && q == null
    {
      this.val, next, q := val, null, null;
    }
  }

  /** The i-th member of a list, or null past its end. */
  function Nth(s: seq<Buffer>, i: nat): Buffer? {
    if i < |s| then s[i] else null
  }

  ghost function Values(cs: seq<Buffer>): map<Buffer, Buf>
    reads cs`val
  {
    map b | b in cs :: b.val
  }

  ghost predicate QueueChain(queue: seq<Buffer>, key: nat)
    reads queue`q
  {
    forall i :: 0 <= i < |queue| ==> queue[i].q == Nth(queue, i + 1)
  }

  /** The links through `q` spell out the queue; the key keeps the chain unopened until it is needed. */
  ghost predicate QueueLinks(head: Buffer?, queue: seq<Buffer>)
    reads queue`q
  {
    head == Nth(queue, 0) && forall key: nat :: QueueChain(queue, key)
  }

  ghost predicate CacheChain(cache: seq<Buffer>, key: nat)
    reads cache`next
  {
    forall i :: 0 <= i < |cache| ==> cache[i].next == Nth(cache, i + 1)
  }

  /** The links through `next` spell out the cache list. */
  ghost predicate CacheLinks(head: Buffer?, cache: seq<Buffer>)
    reads cache`next
  {
    head == Nth(cache, 0) && forall key: nat :: CacheChain(cache, key)
  }

  lemma ValuesMore(cs: seq<Buffer>, b: Buffer)
    ensures Values(cs + [b]) == Values(cs)[b := b.val]
  {
  }

  lemma DistinctAppend(q: seq<Buffer>, b: Buffer)
    requires Distinct(q) && b !in q
    ensures Distinct(q + [b])
  {
  }

  lemma DistinctTail(q: seq<Buffer>)
    requires Distinct(q) && q != []
    ensures Distinct(q[1..]) && q[0] !in q[1..]
  {
  }

  const MAX_OP_BLOCKS := 16

  class Driver {
    var idequeue: Buffer?
    var list: Buffer?
    var pending: Option<Command>
    var disk: map<nat, Data>
    ghost var cache: seq<Buffer>
    ghost var queue: seq<Buffer>
    ghost var asked: seq<Buffer>
    ghost var served: seq<Buffer>

    ghost predicate Linked()
      reads this, cache`next, queue`q
    {
      && QueueLinks(idequeue, queue) && CacheLinks(list, cache)
      && Distinct(cache) && Distinct(queue)
      && (forall b :: b in queue ==> b in cache)
    }

    ghost function Abs(): State<Buffer>
      reads this, cache`val
    {
      State(Values(cache), cache, queue, pending, disk, asked, served)
    }

    /** buffer_init: a list of buffers that belong to no device; `junk` is what their memory held. */
    constructor (disk: map<nat, Data>, junk: Buf)
      ensures Linked() && Initial(Abs()) && |cache| == MAX_OP_BLOCKS && this.disk == disk
      ensures fresh(cache)
    {
      idequeue, list, pending, this.disk := null, null, None, disk;
      cache, queue, asked, served := [], [], [], [];
      new;
      var i := 0;
      while i < MAX_OP_BLOCKS
        invariant 0 <= i <= MAX_OP_BLOCKS && |cache| == i && fresh(cache)
        invariant Linked() && queue == [] && asked == [] && served == [] && pending == None && this.disk == disk
        invariant forall b :: b in cache ==> b.val.dev == NO_DEVICE
      {
        var b := new Buffer(junk.(dev := NO_DEVICE));
        AppendCache(b);
        i := i + 1;
      }
    }

    /** ide_op: hands the device the command for b. */
    method IdeOp(b: Buffer)
      modifies this`pending
      ensures pending == Some(CommandFor(b.val))
    {
      if b.val.dirty {
        pending := Some(WriteBlock(b.val.block, b.val.data));
      } else {
        pending := Some(ReadBlock(b.val.block));
      }
    }

    /** Walks to the end of the queue and hangs b there. */
    method Append(b: Buffer)
      requires QueueLinks(idequeue, queue) && Distinct(queue) && b !in queue
      modifies this`idequeue, this`queue, b`q, queue`q
      ensures QueueLinks(idequeue, queue) && queue == old(queue) + [b] && Distinct(queue)
      ensures idequeue == b <==> old(queue) == []
    {
      DistinctAppend(queue, b);
      assert QueueChain(queue, 0);
      ghost var q0 := queue;
      b.q := null;
      if idequeue == null {
        idequeue := b;
      } else {
        var p: Buffer := idequeue;
        ghost var i := 0;
        while p.q != null
          invariant 0 <= i < |q0| && p == q0[i]
          decreases |q0| - i
        {
          p := p.q;
          i := i + 1;
        }
        assert i == |q0| - 1;
        p.q := b;
      }
      queue := queue + [b];
      forall i | 0 <= i < |queue|
        ensures queue[i].q == Nth(queue, i + 1)
      {
        if i < |q0| {
          assert queue[i] == q0[i] && q0[i] != b;
        }
      }
    }

    /** The part of ide_rw past its two tests. */
    method Enqueue(b: Buffer)
      requires Linked() && b in cache && b !in queue
      modifies this`idequeue, this`queue, this`pending, this`asked, cache`q, queue`q
      ensures Linked() && queue == old(queue) + [b] && asked == old(asked) + [b]
      ensures pending == if old(queue) == [] then Some(CommandFor(b.val)) else old(pending)
    {
      Append(b);
      if idequeue == b {
        IdeOp(b);
      }
      asked := asked + [b];
    }

    /** ide_rw for a buffer that is not queued. */
    method IdeRw(b: Buffer) returns (r: int)
      requires Linked() && b in cache && b !in queue
      modifies this`idequeue, this`queue, this`pending, this`asked, cache`q, queue`q
      ensures Linked() && Abs() == Request(old(Abs()), b)
      ensures r == if b.val.valid && !b.val.dirty then -1 else if b.val.dev != DISK then -2 else 0
    {
      if b.val.valid && !b.val.dirty {
        return -1;
      }
      if b.val.dev != 1 {
        return -2;
      }
      Enqueue(b);
      return 0;
    }

    /** The transfer at the end of a command: the device delivers the block it was asked for, or stores it. */
    method Finish(b: Buffer)
      requires pending == Some(CommandFor(b.val)) && b in cache
      modifies this`disk, b`val
      ensures Values(cache) == old(Values(cache))[b := b.val]
      ensures disk == Complete(old(disk), pending)
      ensures b.val == Served(old(b.val), old(disk))
    {
      if !b.val.dirty {
        b.val := b.val.(data := DiskAt(disk, pending.value.block));
      }
      disk := Complete(disk, pending);
      b.val := b.val.(valid := true);
      b.val := b.val.(dirty := false);
    }

    /** Takes the head off the queue. */
    method Pop()
      requires Linked() && queue != []
      modifies this`idequeue, this`queue
      ensures Linked() && queue == old(queue)[1..]
    {
      DistinctTail(queue);
      assert QueueChain(queue, 0);
      assert queue[0].q == Nth(queue, 1);
      idequeue := idequeue.q;
      ghost var q0 := queue;
      queue := queue[1..];
      forall i | 0 <= i < |queue|
        ensures queue[i].q == Nth(queue, i + 1)
      {
        assert queue[i] == q0[i + 1];
      }
    }

    /** Starts the command for the new head, if there is one. */
    method StartNext()
      requires QueueLinks(idequeue, queue)
      modifies this`pending
      ensures pending == if queue == [] then None else Some(CommandFor(queue[0].val))
    {
      if idequeue != null {
        IdeOp(idequeue);
      } else {
        pending := None;
      }
    }

    /** ide_handler, part by part. */
    method HandlerStep() returns (b: Buffer)
      requires Linked() && queue != [] && pending == Some(CommandFor(queue[0].val))
      modifies this`idequeue, this`queue, this`pending, this`served, this`disk, cache`val
      ensures Linked() && b == old(queue)[0] && queue == old(queue)[1..] && served == old(served) + [b]
      ensures disk == Complete(old(disk), old(pending))
      ensures b in cache && Values(cache) == old(Values(cache))[b := Served(old(b.val), old(disk))]
      ensures pending == if queue == [] then None else Some(CommandFor(queue[0].val))
    {
      b := idequeue;
      assert b in queue;
      Pop();
      Finish(b);
      served := served + [b];
      StartNext();
    }

    /** ide_handler. */
    method IdeHandler()
      requires Linked() && queue != [] && pending == Some(CommandFor(queue[0].val))
      modifies this`idequeue, this`queue, this`pending, this`served, this`disk, cache`val
      ensures Linked() && Abs() == Interrupt(old(Abs()))
    {
      var b := HandlerStep();
      assert queue != [] ==> queue[0] in cache && queue[0].val == Values(cache)[queue[0]];
    }

    /** The search of buffer_get: the cached buffer for (dev, block), or null. */
    method Search(dev: nat, block: nat) returns (p: Buffer?)
      requires Linked()
      ensures var i := Find(Abs(), dev, block, 0); p == if i == -1 then null else cache[i]
      ensures p != null ==> p in cache && p.val.dev == dev && p.val.block == block
    {
      assert CacheChain(cache, 0);
      p := list;
      ghost var i := 0;
      while p != null
        invariant 0 <= i <= |cache| && p == Nth(cache, i)
        invariant Find(Abs(), dev, block, i) == Find(Abs(), dev, block, 0)
        decreases |cache| - i
      {
        if p.val.dev == dev && p.val.block == block {
          return;
        }
        p := p.next;
        i := i + 1;
      }
    }

    method MarkBusy(p: Buffer)
      requires p in cache
      modifies p`val
      ensures p.val == old(p.val).(busy := true)
      ensures Values(cache) == old(Values(cache))[p := p.val]
    {
      if !p.val.busy {
        p.val := p.val.(busy := true);
      }
    }

    /** A new buffer for (dev, block) at the end of the cache list. */
    method NewBuffer(dev: nat, block: nat, junk: Data) returns (b: Buffer)
      requires Linked()
      modifies this`list, this`cache, cache`next
      ensures Linked() && fresh(b) && cache == old(cache) + [b] && b.val == Buf(dev, block, true, false, false, junk)
      ensures Values(cache) == old(Values(cache))[b := Buf(dev, block, true, false, false, junk)]
    {
      b := new Buffer(Buf(dev, block, true, false, false, junk));
      ghost var c0 := cache;
      AppendCache(b);
      ValuesMore(c0, b);
    }

    /** buffer_get. */
    method BufferGet(dev: nat, block: nat, junk: Data) returns (b: Buffer)
      requires Linked()
      modifies this`list, this`cache, cache`val, cache`next
      ensures Linked() && (b in old(cache) || fresh(b))
      ensures Got(Abs(), b) == Get(old(Abs()), dev, block, b, junk)
      ensures b.val.dev == dev && b.val.block == block && b in cache
      ensures b in old(cache) ==> b.val == old(b.val).(busy := true)
    {
      var p := Search(dev, block);
      if p != null {
        MarkBusy(p);
        return p;
      }
      b := NewBuffer(dev, block, junk);
    }

    /** Walks to the end of the cache list and hangs b there. */
    method AppendCache(b: Buffer)
      requires CacheLinks(list, cache) && Distinct(cache) && b !in cache && b.next == null
      modifies this`list, this`cache, cache`next
      ensures CacheLinks(list, cache) && cache == old(cache) + [b] && Distinct(cache)
    {
      assert CacheChain(cache, 0);
      ghost var c0 := cache;
      if list == null {
        list := b;
      } else {
        var p: Buffer := list;
        ghost var i := 0;
        while p.next != null
          invariant 0 <= i < |c0| && p == c0[i]
          decreases |c0| - i
        {
          p := p.next;
          i := i + 1;
        }
        assert i == |c0| - 1;
        p.next := b;
      }
      cache := cache + [b];
      forall i | 0 <= i < |cache|
        ensures cache[i].next == Nth(cache, i + 1)
      {
        if i < |c0| {
          assert cache[i] == c0[i] && c0[i] != b;
        }
      }
    }

    /** buffer_read.  The buffer may still be waiting for its data when this returns. */
    method BufferRead(dev: nat, block: nat, junk: Data) returns (b: Buffer)
      requires Linked()
      requires forall c :: c in queue ==> c.val.valid || c.val.dev != dev || c.val.block != block
      modifies this, cache`val, cache`next, cache`q, queue`q
      ensures Linked() && Abs() == Read(old(Abs()), dev, block, b, junk)
      ensures b in cache && (b in old(cache) || fresh(b)) && b.val.dev == dev && b.val.block == block
      ensures b == Get(old(Abs()), dev, block, b, junk).id && (b in old(cache) ==> b.val == old(b.val).(busy := true))
      ensures dev == DISK && !b.val.valid ==> b in queue
      ensures old(Inv(Abs())) && dev == DISK && b.val.valid && !b.val.dirty ==> b.val.data == DiskAt(disk, block)
    {
      b := BufferGet(dev, block, junk);
      if old(Inv(Abs())) {
        ReadReturns(old(Abs()), dev, block, b, junk);
      }
      if !b.val.valid {
        assert b !in queue;
        var _ := IdeRw(b);
      }
    }

    /** A client stores data in a buffer that is not queued and calls buffer_write. */
    method BufferWrite(b: Buffer, data: Data)
      requires Linked() && b in cache && b !in queue
      modifies this`idequeue, this`queue, this`pending, this`asked, b`val, cache`q, queue`q
      ensures Linked() && Abs() == Write(old(Abs()), b, data)
    {
      b.val := b.val.(data := data);
      b.val := b.val.(dirty := true);
      assert Values(cache) == old(Values(cache))[b := b.val];
      var _ := IdeRw(b);
    }
  }
}
