/**
 Little-endian fields in byte buffers, as C structures overlay them.
 */
module Bytes {
  import opened Common

  function Get32(b: seq<byte>, off: nat): (r: nat)
    requires off + 4 <= |b|
    ensures r < WORD
  {
    (b[off] as int) + 0x100 * (b[off + 1] as int) + 0x1_0000 * (b[off + 2] as int) + 0x100_0000 * (b[off + 3] as int)
  }

  function Four(v: nat): (r: seq<byte>)
    ensures |r| == 4
  {
    [v % 0x100, v / 0x100 % 0x100, v / 0x1_0000 % 0x100, v / 0x100_0000 % 0x100]
  }

  /** The buffer with `bytes` stored from off on. */
  function Put(b: seq<byte>, off: nat, bytes: seq<byte>): (r: seq<byte>)
    requires off + |bytes| <= |b|
    ensures |r| == |b|
    ensures forall i :: 0 <= i < |b| ==> r[i] == if off <= i < off + |bytes| then bytes[i - off] else b[i]
  {
    b[..off] + bytes + b[off + |bytes|..]
  }

  function Put32(b: seq<byte>, off: nat, v: nat): (r: seq<byte>)
    requires off + 4 <= |b|
    ensures |r| == |b|
  {
    Put(b, off, Four(v))
  }

  function Get16(b: seq<byte>, off: nat): (r: nat)
    requires off + 2 <= |b|
    ensures r < 0x1_0000
  {
    (b[off] as int) + 0x100 * (b[off + 1] as int)
  }

  function Put16(b: seq<byte>, off: nat, v: nat): (r: seq<byte>)
    requires off + 2 <= |b|
    ensures |r| == |b|
  {
    Put(b, off, [v % 0x100, v / 0x100 % 0x100])
  }

  function Zeros(n: nat): (r: seq<byte>)
    ensures |r| == n && forall i :: 0 <= i < n ==> r[i] == 0
  {
    seq(n, _ => 0)
  }

  lemma Get32Put32(b: seq<byte>, off: nat, v: nat)
    requires off + 4 <= |b| && v < WORD
    ensures Get32(Put32(b, off, v), off) == v
  {
    var r := Put32(b, off, v);
    assert r[off] == Four(v)[0] && r[off + 1] == Four(v)[1] && r[off + 2] == Four(v)[2] && r[off + 3] == Four(v)[3];
    FourValue(v);
  }

  lemma FourValue(v: nat)
    requires v < WORD
    ensures v % 0x100 + 0x100 * (v / 0x100 % 0x100) + 0x1_0000 * (v / 0x1_0000 % 0x100) + 0x100_0000 * (v / 0x100_0000 % 0x100) == v
  {
    var a, b, c := v / 0x100, v / 0x1_0000, v / 0x100_0000;
    assert a / 0x100 == b && b / 0x100 == c && c < 0x100;
    assert v == 0x100 * a + v % 0x100 && a == 0x100 * b + a % 0x100 && b == 0x100 * c + b % 0x100;
  }

  /** Four bytes of a word read back as the word. */
  lemma FourAt(b: seq<byte>, off: nat, v: nat)
    requires v < WORD && off + 4 <= |b| && b[off..off + 4] == Four(v)
    ensures Get32(b, off) == v
  {
    var w := b[off..off + 4];
    assert b[off] == w[0] && b[off + 1] == w[1] && b[off + 2] == w[2] && b[off + 3] == w[3];
    FourValue(v);
  }

  lemma Get16Put16(b: seq<byte>, off: nat, v: nat)
    requires off + 2 <= |b| && v < 0x1_0000
    ensures Get16(Put16(b, off, v), off) == v
  {
    var r := Put16(b, off, v);
    assert r[off] == v % 0x100 && r[off + 1] == v / 0x100 % 0x100;
  }

  /** A field that the stored bytes do not touch keeps its value. */
  lemma Get32Apart(b: seq<byte>, off: nat, bytes: seq<byte>, p: nat)
    requires off + |bytes| <= |b| && p + 4 <= |b| && (p + 4 <= off || off + |bytes| <= p)
    ensures Get32(Put(b, off, bytes), p) == Get32(b, p)
  {
  }

  lemma Get16Apart(b: seq<byte>, off: nat, bytes: seq<byte>, p: nat)
    requires off + |bytes| <= |b| && p + 2 <= |b| && (p + 2 <= off || off + |bytes| <= p)
    ensures Get16(Put(b, off, bytes), p) == Get16(b, p)
  {
  }
}
