/**
 Bitmaps: arrays of 32-bit words, bit i of word q standing for number 32q + i.
 */
module Bitmaps {
  import opened Common
  import opened Bits

  /** Lowest number from k on and below n that is not in s, or -1. */
  function FirstClear(s: set<nat>, k: nat, n: nat): (r: int)
    requires k <= n
    ensures r == -1 || k <= r < n
    decreases n - k, s
  {
    if k == n then -1
    else if k !in s then k
    else FirstClear(s, k + 1, n)
  }

  lemma {:induction false} FirstClearIsLowest(s: set<nat>, k: nat, n: nat)
    requires k <= n
    ensures var r := FirstClear(s, k, n);
            && (forall j :: k <= j < (if r == -1 then n else r) ==> j in s)
            && (r != -1 ==> r !in s)
    decreases n - k
  {
    if k < n && k in s {
      FirstClearIsLowest(s, k + 1, n);
    }
  }

  predicate IsBitmap(ws: seq<int>) {
    forall q :: 0 <= q < |ws| ==> 0 <= ws[q] < WORD
  }

  /** The numbers of the bits that are on, bit i of word q being number 32q + i. */
  function BitsOf(ws: seq<int>): (s: set<nat>)
    requires IsBitmap(ws)
  {
    set k: nat | k < 32 * |ws| && Bit(ws[k / 32], k % 32)
  }

  /** Bits of a word with one bit set, cleared or tested. */
  lemma WordBits(w: nat, i: nat, j: nat)
    requires w < WORD && i < 32 && j < 32
    ensures Or(w, Shift1(i)) < WORD && (Bit(Or(w, Shift1(i)), j) <==> Bit(w, j) || i == j)
    ensures AndNot(w, Shift1(i)) < WORD && (Bit(AndNot(w, Shift1(i)), j) <==> Bit(w, j) && i != j)
  {
    Shift1Of32();
    Shift1Below32(i);
    Bounded(w, Shift1(i), 32);
    BitOfOr(w, Shift1(i), j);
    BitOfAndNot(w, Shift1(i), j);
    BitOfShift1(i, j);
  }

  lemma TestBit(w: nat, i: nat)
    requires w < WORD && i < 32
    ensures And(WORD - 1 - w, Shift1(i)) != 0 <==> !Bit(w, i)
  {
    AndWithShift1(WORD - 1 - w, i);
    Shift1Of32();
    BitOfComplement(w, 32, i);
  }

  lemma SetBitOf(ws: seq<int>, b: nat, w: nat)
    requires IsBitmap(ws) && b < 32 * |ws| && w == Or(ws[b / 32], Shift1(b % 32))
    ensures w < WORD && BitsOf(ws[b / 32 := w]) == BitsOf(ws) + {b}
  {
    forall k: nat | k < 32 * |ws|
      ensures w < WORD && (Bit(ws[b / 32 := w][k / 32], k % 32) <==> Bit(ws[k / 32], k % 32) || k == b)
    {
      WordBits(ws[b / 32], b % 32, k % 32);
    }
    WordBits(ws[b / 32], b % 32, 0);
  }

  lemma ClearBitOf(ws: seq<int>, b: nat, w: nat)
    requires IsBitmap(ws) && b < 32 * |ws| && w == AndNot(ws[b / 32], Shift1(b % 32))
    ensures w < WORD && BitsOf(ws[b / 32 := w]) == BitsOf(ws) - {b}
  {
    forall k: nat | k < 32 * |ws|
      ensures w < WORD && (Bit(ws[b / 32 := w][k / 32], k % 32) <==> Bit(ws[k / 32], k % 32) && k != b)
    {
      WordBits(ws[b / 32], b % 32, k % 32);
    }
    WordBits(ws[b / 32], b % 32, 0);
  }

  lemma {:induction false} Shift1Grows(i: nat, j: nat)
    requires i < j
    ensures Shift1(i) < Shift1(j)
  {
    if i < j - 1 {
      Shift1Grows(i, j - 1);
    }
  }

  lemma Shift1Below32(i: nat)
    requires i < 32
    ensures Shift1(i) < WORD
  {
    Shift1Grows(i, 32);
    Shift1Of32();
  }

  lemma EmptyBitmap(ws: seq<int>)
    requires IsBitmap(ws) && forall q :: 0 <= q < |ws| ==> ws[q] == 0
    ensures BitsOf(ws) == {}
  {
    forall k: nat | k < 32 * |ws| ensures k !in BitsOf(ws) {
      BitOfZero(k % 32);
    }
  }

  lemma TestBitOf(ws: seq<int>, q: nat, i: nat)
    requires IsBitmap(ws) && q < |ws| && i < 32
    ensures And(WORD - 1 - ws[q], Shift1(i)) != 0 <==> 32 * q + i !in BitsOf(ws)
  {
    TestBit(ws[q], i);
    var k := 32 * q + i;
    assert k / 32 == q && k % 32 == i;
  }

  /** The inner loop of mm_first_free and ext_first_free: the lowest clear bit of word q, or -1. */
  method FirstFreeInWord(ws: seq<int>, q: nat) returns (r: int)
    requires IsBitmap(ws) && q < |ws|
    ensures r == -1 || 32 * q <= r < 32 * q + 32
    ensures r == -1 ==> forall k :: 32 * q <= k < 32 * q + 32 ==> k in BitsOf(ws)
    ensures r != -1 ==> r !in BitsOf(ws) && forall k :: 32 * q <= k < r ==> k in BitsOf(ws)
  {
    var freeBits := WORD - 1 - ws[q];
    var i := 0;
    while i < 32
      invariant 0 <= i <= 32
      invariant forall k :: 32 * q <= k < 32 * q + i ==> k in BitsOf(ws)
    {
      TestBitOf(ws, q, i);
      if And(freeBits, Shift1(i)) != 0 {
        return i + q * 32;
      }
      i := i + 1;
    }
    return -1;
  }

  lemma {:induction false} SkipUsed(s: set<nat>, k: nat, m: nat, n: nat)
    requires k <= m <= n && forall j :: k <= j < m ==> j in s
    ensures FirstClear(s, k, n) == FirstClear(s, m, n)
    decreases m - k
  {
    if k < m {
      SkipUsed(s, k + 1, m, n);
    }
  }

  /** mm_first_free and ext_first_free: word by word. */
  method FirstFreeBit(ws: seq<int>) returns (r: int)
    requires IsBitmap(ws)
    ensures r == FirstClear(BitsOf(ws), 0, 32 * |ws|)
  {
    ghost var s := BitsOf(ws);
    var q := 0;
    while q < |ws|
      invariant 0 <= q <= |ws|
      invariant FirstClear(s, 32 * q, 32 * |ws|) == FirstClear(s, 0, 32 * |ws|)
    {
      r := FirstFreeInWord(ws, q);
      if r != -1 {
        SkipUsed(s, 32 * q, r, 32 * |ws|);
        return;
      }
      SkipUsed(s, 32 * q, 32 * q + 32, 32 * |ws|);
      q := q + 1;
    }
    return -1;
  }
}
