/**
 A directory block: a chain of variable-length records that ends exactly at the end of
 the block.  A new entry is cut off from the slack of the last record; a name is looked up
 by comparing each entry over the entry's own length.
 */
module Directory {
  import opened Common
  import opened Bytes

  const BLOCK_SIZE: nat := 1024
  /** sizeof(dirent): an 8-byte head and room for 255 name bytes, packed. */
  const DIRENT_SIZE: nat := 263

  /** file_type of a regular file. */
  const REGULAR: byte := 1

  datatype Entry = Entry(inode: nat, kind: byte, name: seq<byte>)

  predicate HasHead(b: seq<byte>, off: nat) {
    off + 8 <= |b|
  }

  function RecLen(b: seq<byte>, off: nat): (r: nat)
    requires HasHead(b, off)
  {
    Get16(b, off + 4)
  }

  function NameLen(b: seq<byte>, off: nat): (r: nat)
    requires HasHead(b, off)
    ensures r < 256
  {
    b[off + 6]
  }

  /** The entry length the code works with: the whole structure, the name again, rounded down to 4. */
  function EntryLen(nameLen: nat): (r: nat)
    ensures nameLen + 264 <= r <= nameLen + 267
  {
    (DIRENT_SIZE + nameLen + 4) / 4 * 4
  }

  predicate IsRecord(b: seq<byte>, off: nat) {
    && HasHead(b, off)
    && 8 + NameLen(b, off) <= RecLen(b, off)
    && off + RecLen(b, off) <= |b|
    && 0 !in b[off + 8..off + 8 + NameLen(b, off)]
  }

  predicate Chain(b: seq<byte>, off: nat)
    decreases |b| - off
  {
    off == |b| || (IsRecord(b, off) && Chain(b, off + RecLen(b, off)))
  }

  function EntryAt(b: seq<byte>, off: nat): (e: Entry)
    requires IsRecord(b, off)
  {
    Entry(Get32(b, off), b[off + 7], b[off + 8..off + 8 + NameLen(b, off)])
  }

  function Entries(b: seq<byte>, off: nat): (es: seq<Entry>)
    requires Chain(b, off)
    ensures off < |b| ==> es != []
    decreases |b| - off
  {
    if off == |b| then [] else [EntryAt(b, off)] + Entries(b, off + RecLen(b, off))
  }

  /** Where the last record starts. */
  function Last(b: seq<byte>, off: nat): (r: nat)
    requires Chain(b, off) && off < |b|
    ensures off <= r && IsRecord(b, r) && r + RecLen(b, r) == |b|
    decreases |b| - off
  {
    var next := off + RecLen(b, off);
    if next == |b| then off else Last(b, next)
  }

  // ----- appending an entry

  /** The entry for a new file: name_len keeps the low 8 bits of the name's length. */
  function NewEntry(inode: nat, name: seq<byte>): (e: Entry) {
    Entry(inode, REGULAR, name[..|name| % 256])
  }

  datatype Append = Appended(block: seq<byte>) | NoRoom | Overflow

  /** The record written at p: the rest of the block, the inode, a regular file, the name. */
  function NewRecord(p: nat, name: seq<byte>, inode: nat): (r: seq<byte>)
    requires p <= BLOCK_SIZE
    ensures |r| == 8 + |name|
  {
    Four(inode) + [(BLOCK_SIZE - p) % 0x100, (BLOCK_SIZE - p) / 0x100 % 0x100, |name| % 0x100, REGULAR] + name
  }

  function Place(b: seq<byte>, last: nat, name: seq<byte>, inode: nat): (r: Append)
    requires |b| == BLOCK_SIZE && IsRecord(b, last)
    ensures r.Appended? ==> |r.block| == BLOCK_SIZE
  {
    var len := EntryLen(NameLen(b, last));
    var p := last + len;
    if p + 8 + |name| > BLOCK_SIZE then Overflow
    else Appended(Put(Put16(b, last + 4, len), p, NewRecord(p, name, inode)))
  }

  /** The loop over the records.  Only a record that ends the block can be split. */
  function AppendFrom(b: seq<byte>, off: nat, name: seq<byte>, inode: nat): (r: Append)
    requires |b| == BLOCK_SIZE && Chain(b, off) && off < |b|
    ensures r.Appended? ==> |r.block| == BLOCK_SIZE
    decreases |b| - off
  {
    var next := off + RecLen(b, off);
    if RecLen(b, off) != EntryLen(NameLen(b, off)) && next == BLOCK_SIZE then
      if off + EntryLen(|name|) > BLOCK_SIZE then NoRoom else Place(b, off, name, inode)
    else if next < BLOCK_SIZE then AppendFrom(b, next, name, inode)
    else Overflow
  }

  /** Enough slack after the last record, at the code's own idea of its length. */
  predicate Slack(b: seq<byte>, off: nat, name: seq<byte>)
    requires |b| == BLOCK_SIZE && Chain(b, off) && off < |b|
  {
    var last := Last(b, off);
    var len := EntryLen(NameLen(b, last));
    RecLen(b, last) != len && last + len + 8 + |name| <= BLOCK_SIZE
  }

  lemma {:induction false} AppendAtLast(b: seq<byte>, off: nat, name: seq<byte>, inode: nat)
    requires |b| == BLOCK_SIZE && Chain(b, off) && off < |b|
    ensures var last := Last(b, off);
            AppendFrom(b, off, name, inode) ==
              if RecLen(b, last) == EntryLen(NameLen(b, last)) then Overflow
              else if last + EntryLen(|name|) > BLOCK_SIZE then NoRoom
              else Place(b, last, name, inode)
    decreases |b| - off
  {
    var next := off + RecLen(b, off);
    if next < |b| {
      AppendAtLast(b, next, name, inode);
    }
  }

  /** What the block then looks like from the record that was split on. */
  lemma SplitRecord(b: seq<byte>, last: nat, name: seq<byte>, inode: nat, c: seq<byte>)
    requires |b| == BLOCK_SIZE && IsRecord(b, last) && Place(b, last, name, inode) == Appended(c)
    ensures c[..last] == b[..last]
    ensures IsRecord(c, last) && RecLen(c, last) == EntryLen(NameLen(b, last)) && EntryAt(c, last) == EntryAt(b, last)
  {
    var len := EntryLen(NameLen(b, last));
    var d := Put16(b, last + 4, len);
    assert d[..last + 4] == b[..last + 4] && d[last + 6..] == b[last + 6..];
    assert c[..last + len] == d[..last + len];
    Get16Put16(b, last + 4, len);
    Get16Apart(d, last + len, NewRecord(last + len, name, inode), last + 4);
    SplitBytes(b, d, c, last, len);
  }

  lemma SplitBytes(b: seq<byte>, d: seq<byte>, c: seq<byte>, last: nat, len: nat)
    requires |b| == |c| == |d| == BLOCK_SIZE && IsRecord(b, last) && len == EntryLen(NameLen(b, last)) && last + len <= BLOCK_SIZE
    requires d[..last + 4] == b[..last + 4] && d[last + 6..] == b[last + 6..] && c[..last + len] == d[..last + len]
    requires Get16(c, last + 4) == len
    ensures c[..last] == b[..last]
    ensures IsRecord(c, last) && EntryAt(c, last) == EntryAt(b, last)
  {
    assert forall i :: 0 <= i < last + 4 ==> c[i] == c[..last + len][i] == d[..last + 4][i] == b[..last + 4][i] == b[i];
    assert forall i :: last + 6 <= i < last + len ==> c[i] == c[..last + len][i] == d[i] == d[last + 6..][i - last - 6] == b[i];
    assert c[last + 8..last + 8 + NameLen(b, last)] == b[last + 8..last + 8 + NameLen(b, last)];
  }

  lemma NewRecordReads(b: seq<byte>, p: nat, name: seq<byte>, inode: nat, c: seq<byte>)
    requires |b| == BLOCK_SIZE && p + 8 + |name| <= BLOCK_SIZE && inode < WORD && 0 !in name
    requires c == Put(b, p, NewRecord(p, name, inode))
    ensures IsRecord(c, p) && RecLen(c, p) == BLOCK_SIZE - p
    ensures EntryAt(c, p) == NewEntry(inode, name)
  {
    var r := NewRecord(p, name, inode);
    NewRecordBytes(p, name, inode);
    assert c[p..p + |r|] == r;
    RecordIn(c, p, r, name, inode);
  }

  lemma RecordIn(c: seq<byte>, p: nat, r: seq<byte>, name: seq<byte>, inode: nat)
    requires |c| == BLOCK_SIZE && |r| == 8 + |name| && p + |r| <= BLOCK_SIZE && c[p..p + |r|] == r && 0 !in name
    requires Get32(r, 0) == inode && r[6] == |name| % 256 && r[7] == REGULAR && r[8..] == name
    requires (r[4] as int) + 0x100 * (r[5] as int) == BLOCK_SIZE - p
    ensures IsRecord(c, p) && RecLen(c, p) == BLOCK_SIZE - p
    ensures EntryAt(c, p) == NewEntry(inode, name)
  {
    assert forall i :: 0 <= i < |r| ==> c[p + i] == c[p..p + |r|][i] == r[i];
    assert c[p + 4] == r[4] && c[p + 5] == r[5] && c[p + 6] == r[6] && c[p + 7] == r[7];
    assert c[p] == r[0] && c[p + 1] == r[1] && c[p + 2] == r[2] && c[p + 3] == r[3];
    var n := |name| % 256;
    assert c[p + 8..p + 8 + n] == name[..n] by {
      assert forall i :: 0 <= i < n ==> c[p + (8 + i)] == r[8 + i] == r[8..][i] == name[i];
    }
  }

  lemma NewRecordBytes(p: nat, name: seq<byte>, inode: nat)
    requires p <= BLOCK_SIZE && inode < WORD
    ensures var r := NewRecord(p, name, inode);
            && Get32(r, 0) == inode && r[6] == |name| % 256 && r[7] == REGULAR
            && (r[4] as int) + 0x100 * (r[5] as int) == BLOCK_SIZE - p
            && r[8..] == name
  {
    var r := NewRecord(p, name, inode);
    assert r[0] == Four(inode)[0] && r[1] == Four(inode)[1] && r[2] == Four(inode)[2] && r[3] == Four(inode)[3];
    FourValue(inode);
  }

  /** A record whose bytes agree is the same record. */
  lemma SameRecord(b: seq<byte>, c: seq<byte>, off: nat, m: nat)
    requires |c| == |b| && IsRecord(b, off) && off + RecLen(b, off) <= m <= |b| && c[..m] == b[..m]
    ensures IsRecord(c, off) && RecLen(c, off) == RecLen(b, off) && EntryAt(c, off) == EntryAt(b, off)
  {
    assert forall i :: 0 <= i < m ==> c[i] == c[..m][i] == b[..m][i] == b[i];
    assert c[off + 8..off + 8 + NameLen(b, off)] == b[off + 8..off + 8 + NameLen(b, off)];
  }

  lemma FirstRecord(b: seq<byte>, off: nat, next: nat)
    requires IsRecord(b, off) && next == off + RecLen(b, off) && Chain(b, next)
    ensures Chain(b, off) && Entries(b, off) == [EntryAt(b, off)] + Entries(b, next)
  {
  }

  lemma DropLast(e: Entry, es: seq<Entry>, tail: seq<Entry>)
    requires es != []
    ensures [e] + (es[..|es| - 1] + tail) == ([e] + es)[..|[e] + es| - 1] + tail
  {
    assert ([e] + es)[..|[e] + es| - 1] == [e] + es[..|es| - 1];
  }

  /** Records before the last are read as before. */
  lemma {:induction false} Splice(b: seq<byte>, c: seq<byte>, off: nat, last: nat)
    requires |c| == |b| && Chain(b, off) && off < |b| && last == Last(b, off)
    requires c[..last] == b[..last] && Chain(c, last)
    ensures Chain(c, off)
    ensures Entries(c, off) == Entries(b, off)[..|Entries(b, off)| - 1] + Entries(c, last)
    decreases |b| - off
  {
    var next := off + RecLen(b, off);
    if next == |b| {
      LastAlone(b, off, Entries(c, last));
    } else {
      Splice(b, c, next, last);
      SpliceStep(b, c, off, next, last, Entries(b, next), Entries(c, last));
    }
  }

  lemma LastAlone(b: seq<byte>, off: nat, tail: seq<Entry>)
    requires IsRecord(b, off) && off + RecLen(b, off) == |b|
    ensures Chain(b, off) && Entries(b, off)[..|Entries(b, off)| - 1] + tail == tail
  {
    FirstRecord(b, off, |b|);
    assert Entries(b, off)[..|Entries(b, off)| - 1] == [];
  }

  lemma SpliceStep(b: seq<byte>, c: seq<byte>, off: nat, next: nat, last: nat, es: seq<Entry>, tail: seq<Entry>)
    requires |c| == |b| && IsRecord(b, off) && next == off + RecLen(b, off) <= last <= |b| && c[..last] == b[..last]
    requires Chain(b, next) && es == Entries(b, next) && es != []
    requires Chain(c, next) && Entries(c, next) == es[..|es| - 1] + tail
    ensures Chain(b, off) && Chain(c, off)
    ensures Entries(c, off) == Entries(b, off)[..|Entries(b, off)| - 1] + tail
  {
    SameRecord(b, c, off, last);
    FirstRecord(c, off, next);
    FirstRecord(b, off, next);
    DropLast(EntryAt(b, off), es, tail);
  }

  lemma {:induction false} LastEntry(b: seq<byte>, off: nat)
    requires Chain(b, off) && off < |b|
    ensures Entries(b, off)[|Entries(b, off)| - 1] == EntryAt(b, Last(b, off))
    decreases |b| - off
  {
    var next := off + RecLen(b, off);
    if next < |b| {
      LastEntry(b, next);
    }
  }

  /** An entry can be appended exactly when there is slack. */
  lemma AppendExact(b: seq<byte>, off: nat, name: seq<byte>, inode: nat)
    requires |b| == BLOCK_SIZE && Chain(b, off) && off < |b|
    ensures AppendFrom(b, off, name, inode).Appended? <==> Slack(b, off, name)
    ensures Slack(b, off, name) ==> AppendFrom(b, off, name, inode) == Place(b, Last(b, off), name, inode)
  {
    AppendAtLast(b, off, name, inode);
  }

  lemma AppendSplits(b: seq<byte>, off: nat, name: seq<byte>, inode: nat, c: seq<byte>)
    requires |b| == BLOCK_SIZE && Chain(b, off) && off < |b| && inode < WORD && 0 !in name
    requires AppendFrom(b, off, name, inode) == Appended(c)
    ensures SplitAt(b, c, Last(b, off), NewEntry(inode, name))
  {
    AppendAtLast(b, off, name, inode);
    SplitEntries(b, Last(b, off), name, inode, c);
  }

  /** Appending keeps every old entry, keeps the chain filling the block, and adds one entry at the end. */
  lemma AppendKeepsEntries(b: seq<byte>, off: nat, name: seq<byte>, inode: nat, c: seq<byte>)
    requires |b| == BLOCK_SIZE && Chain(b, off) && off < |b| && inode < WORD && 0 !in name
    requires AppendFrom(b, off, name, inode) == Appended(c)
    ensures Chain(c, off) && Entries(c, off) == Entries(b, off) + [NewEntry(inode, name)]
  {
    AppendSplits(b, off, name, inode, c);
    AppendedEntries(b, c, off, Last(b, off), NewEntry(inode, name));
  }

  ghost predicate SplitAtBody(b: seq<byte>, c: seq<byte>, last: nat, e: Entry, key: nat)
    requires IsRecord(b, last)
  {
    |c| == |b| && c[..last] == b[..last] && Chain(c, last) && Entries(c, last) == [EntryAt(b, last)] + [e]
  }

  /** Block c is b with entry e split off the record at last; the key keeps this unopened until it is needed. */
  ghost predicate SplitAt(b: seq<byte>, c: seq<byte>, last: nat, e: Entry)
    requires IsRecord(b, last)
  {
    forall key: nat :: SplitAtBody(b, c, last, e, key)
  }

  lemma AppendedEntries(b: seq<byte>, c: seq<byte>, off: nat, last: nat, e: Entry)
    requires Chain(b, off) && off < |b| && last == Last(b, off)
    requires SplitAt(b, c, last, e)
    ensures Chain(c, off) && Entries(c, off) == Entries(b, off) + [e]
  {
    assert SplitAtBody(b, c, last, e, 0);
    Splice(b, c, off, last);
    LastEntry(b, off);
    JoinEntries(Entries(b, off), Entries(c, last), e);
  }

  lemma SplitEntries(b: seq<byte>, last: nat, name: seq<byte>, inode: nat, c: seq<byte>)
    requires |b| == BLOCK_SIZE && IsRecord(b, last) && inode < WORD && 0 !in name
    requires Place(b, last, name, inode) == Appended(c)
    ensures SplitAt(b, c, last, NewEntry(inode, name))
  {
    var p := last + EntryLen(NameLen(b, last));
    PlacedRecords(b, last, name, inode, c, p);
    TwoRecords(b, c, last, p, NewEntry(inode, name));
  }

  /** The block ends with the old last record, cut at p, and a record for e. */
  ghost predicate EndsWith(b: seq<byte>, c: seq<byte>, last: nat, p: nat, e: Entry)
    requires IsRecord(b, last)
  {
    && |c| == |b| && c[..last] == b[..last]
    && IsRecord(c, last) && EntryAt(c, last) == EntryAt(b, last) && last + RecLen(c, last) == p
    && IsRecord(c, p) && EntryAt(c, p) == e && p + RecLen(c, p) == |c|
  }

  lemma PlacedRecords(b: seq<byte>, last: nat, name: seq<byte>, inode: nat, c: seq<byte>, p: nat)
    requires |b| == BLOCK_SIZE && IsRecord(b, last) && inode < WORD && 0 !in name
    requires Place(b, last, name, inode) == Appended(c) && p == last + EntryLen(NameLen(b, last))
    ensures EndsWith(b, c, last, p, NewEntry(inode, name))
  {
    SplitRecord(b, last, name, inode, c);
    NewRecordReads(Put16(b, last + 4, p - last), p, name, inode, c);
  }

  lemma TwoRecords(b: seq<byte>, c: seq<byte>, last: nat, p: nat, e: Entry)
    requires IsRecord(b, last) && EndsWith(b, c, last, p, e)
    ensures SplitAt(b, c, last, e)
  {
    OneRecord(c, p);
    FirstRecord(c, last, p);
  }

  lemma OneRecord(b: seq<byte>, off: nat)
    requires IsRecord(b, off) && off + RecLen(b, off) == |b|
    ensures Chain(b, off) && Entries(b, off) == [EntryAt(b, off)]
  {
    FirstRecord(b, off, |b|);
  }

  lemma JoinEntries(es: seq<Entry>, tail: seq<Entry>, e: Entry)
    requires es != [] && tail == [es[|es| - 1]] + [e]
    ensures es[..|es| - 1] + tail == es + [e]
  {
    assert es == es[..|es| - 1] + [es[|es| - 1]];
  }

  ghost predicate AddsBody(b: seq<byte>, c: seq<byte>, e: Entry, key: nat) {
    Chain(b, 0) && Chain(c, 0) && Entries(c, 0) == Entries(b, 0) + [e]
  }

  /** Directory c is directory b with entry e added at the end. */
  ghost predicate Adds(b: seq<byte>, c: seq<byte>, e: Entry) {
    forall key: nat :: AddsBody(b, c, e, key)
  }

  lemma AppendAdds(b: seq<byte>, c: seq<byte>, name: seq<byte>, ino: nat, e: Entry)
    requires |b| == BLOCK_SIZE && Chain(b, 0) && ino < WORD && 0 !in name
    requires AppendFrom(b, 0, name, ino) == Appended(c) && e == NewEntry(ino, name)
    ensures Adds(b, c, e)
  {
    AppendKeepsEntries(b, 0, name, ino, c);
  }

  // ----- looking a name up

  /** strncmp over the entry's length, the name being followed by its terminator. */
  function Compare(a: seq<byte>, s: seq<byte>, i: nat): (r: int)
    requires i <= |a| && i <= |s| && 0 !in a
    decreases |a| - i
  {
    if i == |a| then 0
    else if i < |s| && a[i] == s[i] then Compare(a, s, i + 1)
    else (a[i] as int) - (if i < |s| then s[i] as int else 0)
  }

  lemma {:induction false} CompareExact(a: seq<byte>, s: seq<byte>, i: nat)
    requires i <= |a| && i <= |s| && a[..i] == s[..i] && 0 !in a
    ensures Compare(a, s, i) == 0 <==> a <= s
    decreases |a| - i
  {
    if i < |a| && i < |s| && a[i] == s[i] {
      assert a[..i + 1] == a[..i] + [a[i]] && s[..i + 1] == s[..i] + [s[i]];
      CompareExact(a, s, i + 1);
    }
  }

  function Lookup(b: seq<byte>, off: nat, name: seq<byte>): (r: int)
    requires Chain(b, off)
    decreases |b| - off
  {
    if off == |b| then -1
    else if Compare(EntryAt(b, off).name, name, 0) == 0 then EntryAt(b, off).inode
    else Lookup(b, off + RecLen(b, off), name)
  }

  /** The reference: the first entry whose name begins the wanted one. */
  function FirstMatch(es: seq<Entry>, name: seq<byte>): (r: int) {
    if es == [] then -1
    else if es[0].name <= name then es[0].inode
    else FirstMatch(es[1..], name)
  }

  lemma FirstMatchStep(e: Entry, es: seq<Entry>, name: seq<byte>)
    ensures FirstMatch([e] + es, name) == if e.name <= name then e.inode else FirstMatch(es, name)
  {
    assert ([e] + es)[1..] == es;
  }

  lemma {:induction false} LookupIsFirstMatch(b: seq<byte>, off: nat, name: seq<byte>)
    requires Chain(b, off)
    ensures Lookup(b, off, name) == FirstMatch(Entries(b, off), name)
    decreases |b| - off
  {
    if off < |b| {
      var next := off + RecLen(b, off);
      CompareExact(EntryAt(b, off).name, name, 0);
      LookupIsFirstMatch(b, next, name);
      FirstMatchStep(EntryAt(b, off), Entries(b, next), name);
    }
  }

  ghost predicate NoPrefix(es: seq<Entry>, name: seq<byte>) {
    forall i :: 0 <= i < |es| ==> !(es[i].name <= name)
  }

  lemma {:induction false} FirstMatchOfLast(es: seq<Entry>, e: Entry, name: seq<byte>)
    requires e.name <= name && forall i :: 0 <= i < |es| ==> es[i].inode != e.inode
    ensures FirstMatch(es + [e], name) == e.inode <==> NoPrefix(es, name)
  {
    if es == [] {
    } else {
      assert (es + [e])[1..] == es[1..] + [e];
      if !(es[0].name <= name) {
        FirstMatchOfLast(es[1..], e, name);
        assert NoPrefix(es, name) <==> NoPrefix(es[1..], name) by {
          assert forall i :: 0 < i < |es| ==> es[i] == es[1..][i - 1];
        }
      }
    }
  }

  /** Looking up the appended name gives the new inode exactly when no earlier entry's name begins it. */
  lemma AppendThenLookup(b: seq<byte>, off: nat, name: seq<byte>, inode: nat, c: seq<byte>)
    requires |b| == BLOCK_SIZE && Chain(b, off) && off < |b| && inode < WORD && 0 !in name
    requires AppendFrom(b, off, name, inode) == Appended(c)
    requires forall i :: 0 <= i < |Entries(b, off)| ==> Entries(b, off)[i].inode != inode
    ensures Chain(c, off)
    ensures Lookup(c, off, name) == inode <==> NoPrefix(Entries(b, off), name)
  {
    AppendKeepsEntries(b, off, name, inode, c);
    LookupIsFirstMatch(c, off, name);
    LastMatch(Entries(b, off), Entries(c, off), inode, name);
  }

  lemma LastMatch(es: seq<Entry>, fs: seq<Entry>, inode: nat, name: seq<byte>)
    requires fs == es + [NewEntry(inode, name)]
    requires forall i :: 0 <= i < |es| ==> es[i].inode != inode
    ensures FirstMatch(fs, name) == inode <==> NoPrefix(es, name)
  {
    FirstMatchOfLast(es, NewEntry(inode, name), name);
  }
}
