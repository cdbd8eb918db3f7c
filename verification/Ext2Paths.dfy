/**
 Opening a file by its path: pathize cuts the path with strtok and looks each piece up in the
 directory before it, starting at the root.
 */
module Ext2Paths {
  import opened Common
  import opened Bytes
  import opened Directory
  import opened Ext2Files
  import opened Ext2Fill
  import opened Ext2Runs
  import opened Ext2Spec
  import opened Ext2Touch
  import Strings = StrtokSpec

  /** The characters of a name. */
  function Text(name: seq<byte>): (s: string) {
    seq(|name|, i requires 0 <= i < |name| => name[i] as char)
  }

  /** The bytes of a string of one-byte characters. */
  function NameOf(s: string): (r: seq<byte>) {
    seq(|s|, i requires 0 <= i < |s| => (s[i] as int) % 256)
  }

  /** The blocks of a directory, one after another. */
  function DirectoryBytes(fs: Disk, inode: InodeBytes, q: nat): (r: seq<byte>)
    requires NumBlocks(inode) <= 15
    decreases NumBlocks(inode) - q
  {
    if q >= NumBlocks(inode) then [] else At(fs, Pointer(inode, q)) + DirectoryBytes(fs, inode, q + 1)
  }

  /** An inode that find_inode_in_dir can walk. */
  predicate IsDirectory(fs: Disk, dir: int) {
    && dir >= 1 && HasInode(fs, dir)
    && Get32(Inode(fs, dir), INODE_BLOCKS) % 2 == 0 && 1 <= NumBlocks(Inode(fs, dir)) <= 15
    && Chain(DirectoryBytes(fs, Inode(fs, dir), 0), 0)
  }

  /** find_inode_in_dir. */
  function FindInode(fs: Disk, name: seq<byte>, dir: int): (r: int)
    requires dir == 0 || IsDirectory(fs, dir)
  {
    if dir == 0 then -1 else Lookup(DirectoryBytes(fs, Inode(fs, dir), 0), 0, name)
  }

  /** Every piece but the last leads to a directory. */
  predicate Walkable(fs: Disk, pieces: seq<string>, dir: int) {
    pieces == [] ||
    ((dir == 0 || IsDirectory(fs, dir)) && Walkable(fs, pieces[1..], FindInode(fs, NameOf(pieces[0]), dir)))
  }

  function Walk(fs: Disk, pieces: seq<string>, dir: int): (r: int)
    requires Walkable(fs, pieces, dir)
  {
    if pieces == [] then dir else Walk(fs, pieces[1..], FindInode(fs, NameOf(pieces[0]), dir))
  }

  /** pathize: 2 is the root directory. */
  function Pathize(fs: Disk, path: string): (r: int)
    requires Walkable(fs, Strings.Tokens(path, 0, "/"), 2)
  {
    Walk(fs, Strings.Tokens(path, 0, "/"), 2)
  }

  // ----- paths through a missing directory

  /** A longer path is walked by walking its front and going on from there. */
  lemma {:induction false} WalkSplit(fs: Disk, a: seq<string>, b: seq<string>, dir: int)
    ensures Walkable(fs, a + b, dir) <==> Walkable(fs, a, dir) && Walkable(fs, b, Walk(fs, a, dir))
    ensures Walkable(fs, a + b, dir) ==> Walk(fs, a + b, dir) == Walk(fs, b, Walk(fs, a, dir))
  {
    if a == [] {
      assert a + b == b;
    } else {
      assert (a + b)[0] == a[0] && (a + b)[1..] == a[1..] + b;
      if dir == 0 || IsDirectory(fs, dir) {
        WalkSplit(fs, a[1..], b, FindInode(fs, NameOf(a[0]), dir));
      }
    }
  }

  /**
   One more piece can be looked up exactly when the front of the path leads to a directory,
   or to number 0, for which the look-up fails at once.  It does not fail for -1.
   */
  lemma NextPieceExact(fs: Disk, front: seq<string>, piece: string, dir: int)
    requires Walkable(fs, front, dir)
    ensures var w := Walk(fs, front, dir);
            && (Walkable(fs, front + [piece], dir) <==> w == 0 || IsDirectory(fs, w))
            && (w == -1 ==> !Walkable(fs, front + [piece], dir))
  {
    WalkSplit(fs, front, [piece], dir);
    assert [piece][1..] == [];
  }

  /** ext2_inode's block group of an inode number; the subtraction is unsigned. */
  function GroupOf(perGroup: nat, ino: int): (r: nat)
    requires perGroup > 0
  {
    Wrap(ino - 1) / perGroup
  }

  const DESCRIPTOR_SIZE: nat := 32

  /** The descriptor of the block group lies in the block that is read. */
  predicate DescriptorInBlock(perGroup: nat, ino: int)
    requires perGroup > 0
  {
    (GroupOf(perGroup, ino) + 1) * DESCRIPTOR_SIZE <= BLOCK_SIZE
  }

  /**
   The look-up in a missing directory goes on with inode -1.  Its descriptor lies in the block
   read exactly when a group has at least 2^27 inodes, which no bitmap of one block can hold.
   */
  lemma StrayInodeExact(perGroup: nat)
    requires perGroup > 0
    ensures DescriptorInBlock(perGroup, -1) <==> perGroup >= 0x800_0000
    ensures perGroup <= BITS ==> !DescriptorInBlock(perGroup, -1)
  {
    assert Wrap(-2) == 0xFFFF_FFFE;
    DivideExact(0xFFFF_FFFE, perGroup, 32);
  }

  lemma DivideExact(n: nat, d: nat, k: nat)
    requires d > 0
    ensures n / d < k <==> n < k * d
  {
    var q := n / d;
    assert q * d <= n < q * d + d;
    if q < k {
      assert (q + 1) * d <= k * d;
    } else {
      assert k * d <= q * d;
    }
  }

  // ----- the root directory

  lemma RootFacts(fs: Disk)
    requires Sound(fs)
    ensures HasInode(fs, 2) && Get32(Inode(fs, 2), INODE_BLOCKS) == 2 && Pointer(Inode(fs, 2), 0) == Root(fs)
    ensures Chain(At(fs, Root(fs)), 0)
  {
    assert NamesSoundBody(fs, 0);
    RootIsDirectory(fs);
  }

  lemma OneBlockBytes(fs: Disk, inode: InodeBytes)
    requires NumBlocks(inode) == 1
    ensures DirectoryBytes(fs, inode, 0) == At(fs, Pointer(inode, 0))
  {
    assert DirectoryBytes(fs, inode, 1) == [];
  }

  lemma RootBytes(fs: Disk, b: Block)
    requires Sound(fs) && b == At(fs, Root(fs))
    ensures Chain(b, 0) && IsDirectory(fs, 2) && DirectoryBytes(fs, Inode(fs, 2), 0) == b
  {
    RootFacts(fs);
    OneBlockBytes(fs, Inode(fs, 2));
  }

  lemma WalkOne(fs: Disk, piece: string, dir: int, b: seq<byte>)
    requires IsDirectory(fs, dir) && DirectoryBytes(fs, Inode(fs, dir), 0) == b && Chain(b, 0)
    ensures Walkable(fs, [piece], dir) && Walk(fs, [piece], dir) == Lookup(b, 0, NameOf(piece))
  {
    assert [piece][1..] == [];
  }

  lemma NameOfText(name: seq<byte>)
    ensures NameOf(Text(name)) == name
  {
  }

  /** A path of one name under the root is cut into that name alone. */
  lemma OnePiece(name: string)
    requires name != [] && '/' !in name
    ensures Strings.Tokens("/" + name, 0, "/") == [name]
  {
    var s := "/" + name;
    assert s[0] == '/' && s[1] == name[0] && s[1] !in "/";
    assert Strings.Span(s, 0, "/") == Strings.Span(s, 1, "/") == 1;
    Unbroken(s, 2);
    assert s[1..|s|] == name;
  }

  lemma {:induction false} Unbroken(s: string, pos: nat)
    requires pos <= |s| && '/' !in s[pos..]
    ensures Strings.Break(s, pos, "/") == |s|
    decreases |s| - pos
  {
    if pos < |s| {
      assert s[pos] == s[pos..][0];
      assert s[pos + 1..] == s[pos..][1..];
      Unbroken(s, pos + 1);
    }
  }

  /** A path under the root leads where looking the name up in the root directory leads. */
  lemma PathizeInRoot(fs: Disk, name: seq<byte>)
    requires Sound(fs) && name != [] && 47 !in name
    ensures Walkable(fs, Strings.Tokens("/" + Text(name), 0, "/"), 2)
    ensures Chain(At(fs, Root(fs)), 0) && Pathize(fs, "/" + Text(name)) == Lookup(At(fs, Root(fs)), 0, name)
  {
    var b := At(fs, Root(fs));
    RootBytes(fs, b);
    NameOfText(name);
    NoSlash(name);
    OnePiece(Text(name));
    WalkOne(fs, Text(name), 2, b);
  }

  lemma NoSlash(name: seq<byte>)
    requires 47 !in name
    ensures '/' !in Text(name)
  {
    assert forall i :: 0 <= i < |name| ==> Text(name)[i] as int == name[i];
  }

  // ----- open

  datatype Opened = Blocks(blocks: seq<Block>) | Missing

  predicate CanOpen(fs: Disk, path: string) {
    var pieces := Strings.Tokens(path, 0, "/");
    Walkable(fs, pieces, 2) &&
    var ino := Walk(fs, pieces, 2);
    ino == -1 || (ino >= 1 && HasInode(fs, ino) && NumBlocks(Inode(fs, ino)) <= LINKS + DIRECT)
  }

  /** open: the blocks of the file the path leads to. */
  function OpenPath(fs: Disk, path: string): (r: Opened)
    requires CanOpen(fs, path)
  {
    var ino := Pathize(fs, path);
    if ino == -1 then Missing else Blocks(Open(fs, ino))
  }

  /** A stored file opens under its path, and its blocks begin with the data written. */
  lemma StoredOpens(fs: Disk, name: seq<byte>, ino: nat, data: seq<byte>)
    requires Sound(fs) && Stored(fs, name, ino, data) && name != [] && 47 !in name && |data| <= DIRECT * BLOCK_SIZE
    ensures Readable(fs, ino)
    ensures CanOpen(fs, "/" + Text(name)) && OpenPath(fs, "/" + Text(name)) == Blocks(Open(fs, ino))
    ensures var n := |Chunks(data, 0)|; n <= |Open(fs, ino)| && Flatten(Open(fs, ino)[..n]) == Padded(data)
  {
    assert StoredBody(fs, name, ino, data, 0);
    assert NamesBody(At(fs, Root(fs)), name, ino, 0);
    PathizeInRoot(fs, name);
    FewChunks(data);
    ReadBackExact(data, Open(fs, ino));
  }

  /** The whole path: after any run of touch with new names, opening each file by its path gives back its data. */
  lemma EveryFileOpens(fs: Disk, rs: seq<Request>, i: nat)
    requires Sound(fs) && (forall k :: 0 <= k < |rs| ==> Fine(rs[k])) && NewNames(fs, rs)
    requires TouchAll(TouchOne, fs, rs).Ran? && i < |rs| && rs[i].name != [] && 47 !in rs[i].name
    ensures var hs := TouchAll(TouchOne, fs, rs).fs;
            var path, n := "/" + Text(rs[i].name), |Chunks(rs[i].data, 0)|;
            && CanOpen(hs, path) && OpenPath(hs, path).Blocks?
            && n <= |OpenPath(hs, path).blocks| && Flatten(OpenPath(hs, path).blocks[..n]) == Padded(rs[i].data)
  {
    EveryFileIsStored(TouchOne, fs, rs);
    var run := TouchAll(TouchOne, fs, rs);
    StoredOpens(run.fs, rs[i].name, run.inos[i], rs[i].data);
  }
}
