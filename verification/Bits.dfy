/**
 C's bitwise operators on unsigned words, defined on naturals digit by digit,
 and single bits as the kernel's bitmaps set, clear and test them.
 */
module Bits {
  import opened Common


  predicate Bit(w: nat, i: nat) {
    if i == 0 then w % 2 == 1 else Bit(w / 2, i - 1)
  }

  /** a | b */
  function Or(a: nat, b: nat): (r: nat)
    decreases a + b
  {
    if a == 0 && b == 0 then 0
    else 2 * Or(a / 2, b / 2) + (if a % 2 == 1 || b % 2 == 1 then 1 else 0)
  }

  /** a & b */
  function And(a: nat, b: nat): (r: nat)
    decreases a + b
  {
    if a == 0 && b == 0 then 0
    else 2 * And(a / 2, b / 2) + (if a % 2 == 1 && b % 2 == 1 then 1 else 0)
  }

  /** a & ~b */
  function AndNot(a: nat, b: nat): (r: nat)
    decreases a + b
  {
    if a == 0 && b == 0 then 0
    else 2 * AndNot(a / 2, b / 2) + (if a % 2 == 1 && b % 2 == 0 then 1 else 0)
  }

  /** 1 << i */
  function Shift1(i: nat): (r: nat)
    ensures r > 0
  {
    if i == 0 then 1 else 2 * Shift1(i - 1)
  }

  lemma {:induction false} BitOfZero(i: nat)
    ensures !Bit(0, i)
  {
    if i > 0 {
      BitOfZero(i - 1);
    }
  }

  lemma {:induction false} BitOfShift1(i: nat, j: nat)
    ensures Bit(Shift1(i), j) <==> i == j
  {
    if i == 0 {
      if j > 0 {
        BitOfZero(j - 1);
      }
    } else if j > 0 {
      BitOfShift1(i - 1, j - 1);
    }
  }

  /** The low bits of a number do not depend on its high part. */
  lemma {:induction false} LowBits(lo: nat, hi: nat, n: nat, i: nat)
    requires i < n
    ensures Bit(lo + Shift1(n) * hi, i) <==> Bit(lo, i)
    decreases i
  {
    var s := Shift1(n - 1);
    assert Shift1(n) * hi == 2 * (s * hi);
    if i > 0 {
      assert (lo + 2 * (s * hi)) / 2 == lo / 2 + s * hi;
      LowBits(lo / 2, hi, n - 1, i - 1);
    }
  }

  /** The bits above a low part of n bits are those of the high part. */
  lemma {:induction false} HighBits(lo: nat, hi: nat, n: nat, i: nat)
    requires lo < Shift1(n)
    ensures Bit(lo + Shift1(n) * hi, n + i) <==> Bit(hi, i)
    decreases n
  {
    if n > 0 {
      var s := Shift1(n - 1);
      assert Shift1(n) * hi == 2 * (s * hi);
      assert (lo + 2 * (s * hi)) / 2 == lo / 2 + s * hi;
      HighBits(lo / 2, hi, n - 1, i);
    }
  }

  lemma {:induction false} BitOfOr(a: nat, b: nat, j: nat)
    ensures Bit(Or(a, b), j) <==> Bit(a, j) || Bit(b, j)
  {
    if a == 0 && b == 0 {
      BitOfZero(j);
    } else if j > 0 {
      BitOfOr(a / 2, b / 2, j - 1);
    }
  }

  lemma {:induction false} BitOfAnd(a: nat, b: nat, j: nat)
    ensures Bit(And(a, b), j) <==> Bit(a, j) && Bit(b, j)
  {
    if a == 0 && b == 0 {
      BitOfZero(j);
    } else if j > 0 {
      BitOfAnd(a / 2, b / 2, j - 1);
    }
  }

  lemma {:induction false} BitOfAndNot(a: nat, b: nat, j: nat)
    ensures Bit(AndNot(a, b), j) <==> Bit(a, j) && !Bit(b, j)
  {
    if a == 0 && b == 0 {
      BitOfZero(j);
    } else if j > 0 {
      BitOfAndNot(a / 2, b / 2, j - 1);
    }
  }

  lemma {:induction false} Bounded(a: nat, b: nat, i: nat)
    requires a < Shift1(i) && b < Shift1(i)
    ensures Or(a, b) < Shift1(i) && AndNot(a, b) < Shift1(i)
  {
    if i > 0 && !(a == 0 && b == 0) {
      Bounded(a / 2, b / 2, i - 1);
    }
  }

  /** The all-ones word of i bits, minus w, is w with every bit flipped. */
  lemma {:induction false} BitOfComplement(w: nat, i: nat, j: nat)
    requires w < Shift1(i) && j < i
    ensures Bit(Shift1(i) - 1 - w, j) <==> !Bit(w, j)
  {
    if j > 0 {
      BitOfComplement(w / 2, i - 1, j - 1);
      assert (Shift1(i) - 1 - w) / 2 == Shift1(i - 1) - 1 - w / 2;
    }
  }

  lemma {:induction false} AndWithShift1(w: nat, i: nat)
    ensures And(w, Shift1(i)) != 0 <==> Bit(w, i)
  {
    if i == 0 {
      AndWithZero(w / 2);
    } else {
      AndWithShift1(w / 2, i - 1);
    }
  }

  lemma {:induction false} AndWithZero(w: nat)
    ensures And(w, 0) == 0 && And(0, w) == 0
  {
    if w > 0 {
      AndWithZero(w / 2);
    }
  }

  lemma {:induction false} OrWithZero(w: nat)
    ensures Or(w, 0) == w && Or(0, w) == w
  {
    if w > 0 {
      OrWithZero(w / 2);
    }
  }

  /** Words without a common bit position are added by |. */
  lemma {:induction false} OrOfDisjoint(a: nat, b: nat, i: nat)
    requires b < Shift1(i)
    ensures Or(a * Shift1(i), b) == a * Shift1(i) + b
  {
    if i == 0 {
      OrWithZero(a);
    } else {
      var x := a * Shift1(i);
      assert x == 2 * (a * Shift1(i - 1));
      OrOfDisjoint(a, b / 2, i - 1);
      if x == 0 && b == 0 {
      } else {
        assert x / 2 == a * Shift1(i - 1) && x % 2 == 0;
      }
    }
  }

  lemma Shift1Of32()
    ensures Shift1(32) == WORD && Shift1(10) == 0x400 && Shift1(12) == 0x1000
  {
    assert Shift1(8) == 0x100;
    assert Shift1(16) == 0x1_0000;
    assert Shift1(24) == 0x100_0000;
  }
}
