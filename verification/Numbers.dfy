/**
 Numbers as text: itoa, sitoa, the in-place strrev they end with, and the parsers
 atoi and lass_atoi.
 */
module NumberSpec {

  function Pow(b: nat, k: nat): (r: nat)
    ensures b > 0 ==> r > 0
  {
    if k == 0 then 1 else b * Pow(b, k - 1)
  }

  function DigitChar(d: nat): (c: char)
    requires d < 16
  {
    if d > 9 then (d - 10 + 'A' as int) as char else (d + '0' as int) as char
  }

  /** The digit loop: at most k digits, least significant first. */
  function LowDigits(num: nat, base: nat, k: nat): (r: string)
    requires 2 <= base <= 16
    ensures |r| <= k
    decreases k, num
  {
    if num == 0 || k == 0 then "" else [DigitChar(num % base)] + LowDigits(num / base, base, k - 1)
  }

  function Zeros(k: nat): (r: string)
    ensures |r| == k && forall i :: 0 <= i < k ==> r[i] == '0'
  {
    seq(k, _ => '0')
  }

  function Reverse(s: string): (r: string)
    ensures |r| == |s|
    ensures forall i :: 0 <= i < |s| ==> r[i] == s[|s| - 1 - i]
  {
    if s == "" then "" else Reverse(s[1..]) + [s[0]]
  }

  function Width(base: nat): nat {
    if base == 2 then 32 else 8
  }

  /** What the buffer holds before it is reversed: digits, padded with zeros unless decimal. */
  function PaddedDigits(num: nat, base: nat, len: nat): (r: string)
    requires 2 <= base <= 16
  {
    var ds := LowDigits(num, base, len);
    if base == 10 then ds else ds + Zeros(len - |ds|)
  }

  function ItoaDigits(num: nat, base: nat): (r: string)
    requires 2 <= base <= 16
  {
    PaddedDigits(num, base, Width(base))
  }

  function Itoa(num: nat, base: nat): (r: string)
    requires 2 <= base <= 16
  {
    Reverse(ItoaDigits(num, base))
  }

  function Sitoa(num: int, base: nat): (r: string)
    requires base == 0 || 2 <= base <= 16
  {
    if num == 0 || base == 0 then "0"
    else if num < 0 then Reverse(LowDigits(-num, base, 8) + "-")
    else Reverse(LowDigits(num, base, 8))
  }

  // ----- parsing

  predicate IsDigit(c: char) {
    '0' <= c <= '9'
  }

  predicate IsLower(c: char) {
    'a' <= c <= 'z'
  }

  /** The macro moves every other character by the distance between the cases. */
  function ToLower(c: char): int {
    if IsDigit(c) || IsLower(c) then c as int else c as int - 'A' as int + 'a' as int
  }

  predicate IsHex(c: char) {
    '0' as int <= ToLower(c) <= 'f' as int
  }

  /** atoi's loop: decimal digits count, everything else is skipped. */
  function AtoiFrom(s: string, acc: int): (r: int) {
    if s == "" then acc
    else AtoiFrom(s[1..], if IsDigit(s[0]) then acc * 10 + (s[0] as int - '0' as int) else acc)
  }

  function Atoi(s: string): (r: int) {
    var num := AtoiFrom(s, 0);
    if s != "" && s[0] == '-' then -num else num
  }

  function LassFrom(s: string, base: int, acc: int): (r: int) {
    if s == "" then acc
    else LassFrom(s[1..], base,
                  if IsDigit(s[0]) then acc * base + (s[0] as int - '0' as int)
                  else if IsHex(s[0]) then acc * base + (ToLower(s[0]) - 'a' as int) + 10
                  else acc)
  }

  /** First 'x' from position i on, or -1. */
  function FindX(s: string, i: nat): (r: int)
    requires i <= |s|
    ensures r == -1 || i <= r < |s|
    decreases |s| - i
  {
    if i == |s| then -1 else if s[i] == 'x' then i else FindX(s, i + 1)
  }

  /** lass_atoi: what follows an 'x' that is not the first character is hexadecimal. */
  function LassAtoi(s: string): (r: int) {
    var x := if s == "" then -1 else FindX(s, 1);
    var t := if x == -1 then s else s[x + 1..];
    var num := LassFrom(t, if x == -1 then 10 else 16, 0);
    if t != "" && t[0] == '-' then -num else num
  }

  // ----- value of a digit string, least significant first

  function DigitValue(c: char): int {
    if IsDigit(c) then c as int - '0' as int else ToLower(c) - 'a' as int + 10
  }

  function Value(s: string, base: nat): (r: int) {
    if s == "" then 0 else DigitValue(s[0]) + base * Value(s[1..], base)
  }

  ghost predicate AllDigits(s: string, base: nat) {
    forall i :: 0 <= i < |s| ==> exists d: nat :: d < base <= 16 && s[i] == DigitChar(d)
  }

  lemma DigitCharValue(d: nat)
    requires d < 16
    ensures DigitValue(DigitChar(d)) == d
    ensures d < 10 ==> IsDigit(DigitChar(d))
    ensures IsDigit(DigitChar(d)) || IsHex(DigitChar(d))
    ensures DigitChar(d) != '-' && DigitChar(d) != 'x'
  {
  }

  lemma Distribute(b: nat, p: nat, u: nat, v: nat)
    ensures b * (p * u + v) == (b * p) * u + b * v
  {
  }

  lemma DigitBound(b: nat, p: nat, v: nat, r: nat)
    requires v < p && r < b
    ensures b * v + r < b * p
  {
    assert b * v + b == b * (v + 1);
    assert b * (v + 1) <= b * p;
  }

  lemma UniqueRemainder(n: nat, m: nat, q: nat, r: nat)
    requires m > 0 && n == m * q + r && r < m
    ensures n % m == r
  {
    var k := n / m - q;
    assert m * k == m * (n / m) - m * q;
    MulAway(m, k);
  }

  lemma MulAway(m: int, k: int)
    requires m >= 0
    ensures k >= 1 ==> m * k >= m
    ensures k <= -1 ==> m * k <= -m
  {
  }

  lemma ModSplit(n: nat, b: nat, p: nat)
    requires b > 0 && p > 0
    ensures b * p > 0 && n % (b * p) == n % b + b * (n / b % p)
  {
    var q, r := n / b, n % b;
    var u, v := q / p, q % p;
    Distribute(b, p, u, v);
    DigitBound(b, p, v, r);
    var m := b * p;
    assert n == m * u + (b * v + r);
    UniqueRemainder(n, m, u, b * v + r);
  }

  /** The digit loop keeps the value, up to the digits it has room for. */
  lemma {:induction false} LowDigitsValue(num: nat, base: nat, k: nat)
    requires 2 <= base <= 16
    ensures Value(LowDigits(num, base, k), base) == num % Pow(base, k)
    ensures AllDigits(LowDigits(num, base, k), base)
    decreases k
  {
    if k == 0 {
    } else if num == 0 {
    } else {
      LowDigitsValue(num / base, base, k - 1);
      DigitCharValue(num % base);
      ModSplit(num, base, Pow(base, k - 1));
    }
  }

  lemma {:induction false} ZerosValue(s: string, k: nat, base: nat)
    ensures Value(s + Zeros(k), base) == Value(s, base)
    decreases |s| + k
  {
    if s == "" {
      assert "" + Zeros(k) == Zeros(k);
      if k > 0 {
        assert Zeros(k)[1..] == Zeros(k - 1);
        ZerosValue("", k - 1, base);
        assert "" + Zeros(k - 1) == Zeros(k - 1);
      }
    } else {
      assert (s + Zeros(k))[1..] == s[1..] + Zeros(k);
      ZerosValue(s[1..], k, base);
    }
  }

  // ----- parsing undoes reversing

  lemma {:induction false} AtoiFromAppend(s: string, c: char, acc: int)
    ensures AtoiFrom(s + [c], acc) == AtoiFrom([c], AtoiFrom(s, acc))
  {
    if s == "" {
      assert "" + [c] == [c];
    } else {
      assert (s + [c])[1..] == s[1..] + [c];
      AtoiFromAppend(s[1..], c, if IsDigit(s[0]) then acc * 10 + (s[0] as int - '0' as int) else acc);
    }
  }

  lemma {:induction false} AtoiOfReverse(s: string)
    requires AllDigits(s, 10)
    ensures AtoiFrom(Reverse(s), 0) == Value(s, 10)
  {
    if s != "" {
      var d: nat :| d < 10 && s[0] == DigitChar(d);
      DigitCharValue(d);
      AtoiOfReverse(s[1..]);
      AtoiFromAppend(Reverse(s[1..]), s[0], 0);
      var v := Value(s[1..], 10);
      assert [s[0]][1..] == "";
      assert AtoiFrom([s[0]], v) == v * 10 + d;
    }
  }

  lemma {:induction false} LassFromAppend(s: string, c: char, base: int, acc: int)
    ensures LassFrom(s + [c], base, acc) == LassFrom([c], base, LassFrom(s, base, acc))
  {
    if s == "" {
      assert "" + [c] == [c];
    } else {
      assert (s + [c])[1..] == s[1..] + [c];
      LassFromAppend(s[1..], c, base,
                     if IsDigit(s[0]) then acc * base + (s[0] as int - '0' as int)
                     else if IsHex(s[0]) then acc * base + (ToLower(s[0]) - 'a' as int) + 10
                     else acc);
    }
  }

  lemma {:induction false} LassOfReverse(s: string)
    requires AllDigits(s, 16)
    ensures LassFrom(Reverse(s), 16, 0) == Value(s, 16)
  {
    if s != "" {
      var d: nat :| d < 16 && s[0] == DigitChar(d);
      DigitCharValue(d);
      LassOfReverse(s[1..]);
      LassFromAppend(Reverse(s[1..]), s[0], 16, 0);
      var v := Value(s[1..], 16);
      assert [s[0]][1..] == "";
      assert LassFrom([s[0]], 16, v) == v * 16 + d;
    }
  }

  lemma Pow10Of8()
    ensures Pow(10, 8) == 100_000_000 && Pow(16, 8) == 0x1_0000_0000
  {
    assert Pow(10, 4) == 10_000;
    assert Pow(16, 4) == 0x1_0000;
  }

  // ----- round trips

  lemma FirstOfReverse(s: string)
    requires s != ""
    ensures Reverse(s)[0] == s[|s| - 1]
  {
  }

  lemma LowDigitsNonEmpty(num: nat, base: nat, k: nat)
    requires 2 <= base <= 16 && num > 0 && k > 0
    ensures LowDigits(num, base, k) != ""
  {
  }

  lemma NoMinusInFront(s: string, base: nat)
    requires s != "" && AllDigits(s, base)
    ensures Reverse(s)[0] != '-'
  {
    FirstOfReverse(s);
    var d: nat :| d < base <= 16 && s[|s| - 1] == DigitChar(d);
    DigitCharValue(d);
  }

  lemma EightDigits(v: nat)
    requires v > 0
    ensures var s := LowDigits(v, 10, 8);
            s != "" && Reverse(s)[0] != '-' && AtoiFrom(Reverse(s), 0) == v % 100_000_000
  {
    var s := LowDigits(v, 10, 8);
    LowDigitsValue(v, 10, 8);
    Pow10Of8();
    AtoiOfReverse(s);
    LowDigitsNonEmpty(v, 10, 8);
    NoMinusInFront(s, 10);
  }

  /** What atoi reads back from itoa is v modulo 10^8, for every v. */
  lemma AtoiOfItoa(v: nat)
    requires v > 0
    ensures Atoi(Itoa(v, 10)) == v % 100_000_000
  {
    EightDigits(v);
    assert ItoaDigits(v, 10) == LowDigits(v, 10, 8);
  }

  /** So atoi undoes itoa exactly for numbers of at most eight digits. */
  lemma AtoiUndoesItoa(v: nat)
    requires v > 0
    ensures Atoi(Itoa(v, 10)) == v <==> v < 100_000_000
  {
    AtoiOfItoa(v);
    FitsEightDigits(v);
  }

  lemma UnsignedDigits(x: int)
    requires x > 0
    ensures Atoi(Sitoa(x, 10)) == x % 100_000_000
  {
    EightDigits(x);
  }

  lemma ZeroDigit()
    ensures Atoi(Sitoa(0, 10)) == 0
  {
    assert "0"[1..] == "";
  }

  lemma SignedDigits(x: int)
    requires x < 0
    ensures Atoi(Sitoa(x, 10)) == -(-x % 100_000_000)
  {
    var s := LowDigits(-x, 10, 8);
    assert AtoiFrom(Reverse(s), 0) == -x % 100_000_000 by {
      EightDigits(-x);
    }
    assert Sitoa(x, 10) == Reverse(s + "-");
    SignedReading(s);
  }

  lemma SignedReading(s: string)
    ensures Atoi(Reverse(s + "-")) == -AtoiFrom(Reverse(s), 0)
  {
    ReverseSigned(s);
    var t := "-" + Reverse(s);
    assert t[1..] == Reverse(s);
    assert AtoiFrom(t, 0) == AtoiFrom(Reverse(s), 0);
  }

  lemma FitsEightDigits(v: nat)
    ensures v % 100_000_000 == v <==> v < 100_000_000
  {
  }

  /** atoi undoes sitoa exactly for numbers of at most eight digits. */
  lemma AtoiUndoesSitoa(x: int)
    ensures Atoi(Sitoa(x, 10)) == x <==> -100_000_000 < x < 100_000_000
  {
    if x > 0 {
      UnsignedDigits(x);
      FitsEightDigits(x);
    } else if x < 0 {
      SignedDigits(x);
      FitsEightDigits(-x);
    } else {
      ZeroDigit();
    }
  }

  lemma {:induction false} ReverseSigned(s: string)
    ensures Reverse(s + "-") == "-" + Reverse(s)
  {
    if s != "" {
      assert (s + "-")[1..] == s[1..] + "-";
      ReverseSigned(s[1..]);
    }
  }

  /** lass_atoi reads back every 32-bit number printed by itoa in hexadecimal. */
  lemma LassAtoiUndoesItoa(v: nat)
    requires v < 0x1_0000_0000
    ensures LassAtoi("0x" + Itoa(v, 16)) == v
  {
    HexDigits(v);
    LassAtoiOfHex(ItoaDigits(v, 16));
  }

  lemma HexDigits(v: nat)
    requires v < 0x1_0000_0000
    ensures var s := ItoaDigits(v, 16); s != "" && AllDigits(s, 16) && Value(s, 16) == v
  {
    Pow10Of8();
    PaddedHex(v, 8);
  }

  lemma PaddedHex(v: nat, len: nat)
    requires len > 0 && v < Pow(16, len)
    ensures var s := PaddedDigits(v, 16, len); s != "" && AllDigits(s, 16) && Value(s, 16) == v
  {
    var ds := LowDigits(v, 16, len);
    LowDigitsValue(v, 16, len);
    SmallRemainder(v, Pow(16, len));
    ZerosValue(ds, len - |ds|, 16);
    ZerosAreDigits(ds, len - |ds|);
  }

  lemma SmallRemainder(v: nat, p: nat)
    requires v < p
    ensures v % p == v
  {
  }

  lemma LassAtoiOfHex(s: string)
    requires s != "" && AllDigits(s, 16)
    ensures LassAtoi("0x" + Reverse(s)) == Value(s, 16)
  {
    LassOfReverse(s);
    var t := "0x" + Reverse(s);
    assert FindX(t, 1) == 1;
    assert t[2..] == Reverse(s);
    NoMinusInFront(s, 16);
  }

  predicate IsHexDigit(c: char) {
    IsDigit(c) || 'a' <= c <= 'f' || 'A' <= c <= 'F'
  }

  predicate DigitIn(c: char, base: nat) {
    if base == 10 then IsDigit(c) else IsHexDigit(c)
  }

  /** Digits are read with the first as the most significant, in either case. */
  lemma {:induction false} LassReads(s: string, base: nat)
    requires (base == 10 || base == 16) && forall i :: 0 <= i < |s| ==> DigitIn(s[i], base)
    ensures LassFrom(s, base, 0) == Value(Reverse(s), base)
    decreases |s|
  {
    if s != "" {
      var n := |s| - 1;
      var t, c := s[..n], s[n];
      assert s == t + [c];
      LassReads(t, base);
      LassFromAppend(t, c, base, 0);
      var v := LassFrom(t, base, 0);
      assert [c][1..] == "" && LassFrom([c], base, v) == v * base + DigitValue(c);
      assert Reverse(s) == [c] + Reverse(t) && Reverse(s)[1..] == Reverse(t);
    }
  }

  lemma {:induction false} NoXFrom(s: string, i: nat)
    requires i <= |s| && forall j :: i <= j < |s| ==> s[j] != 'x'
    ensures FindX(s, i) == -1
    decreases |s| - i
  {
    if i < |s| {
      NoXFrom(s, i + 1);
    }
  }

  /** A token of decimal digits has their value. */
  lemma LassReadsDecimal(s: string)
    requires s != "" && forall i :: 0 <= i < |s| ==> IsDigit(s[i])
    ensures LassAtoi(s) == Value(Reverse(s), 10)
  {
    NoXFrom(s, 1);
    LassReads(s, 10);
  }

  /** So has a token of hexadecimal digits behind 0x. */
  lemma LassReadsHex(s: string)
    requires s != "" && forall i :: 0 <= i < |s| ==> IsHexDigit(s[i])
    ensures LassAtoi("0x" + s) == Value(Reverse(s), 16)
  {
    var t := "0x" + s;
    assert FindX(t, 1) == 1 && t[2..] == s;
    LassReads(s, 16);
  }

  lemma {:induction false} ZerosAreDigits(s: string, k: nat)
    requires AllDigits(s, 16)
    ensures AllDigits(s + Zeros(k), 16)
    decreases k
  {
    if k == 0 {
      assert s + Zeros(0) == s;
    } else {
      assert DigitChar(0) == '0';
      assert s + Zeros(k) == (s + "0") + Zeros(k - 1);
      ZerosAreDigits(s + "0", k - 1);
    }
  }
}

/** The same on character buffers. */
module NumberImpl {
  import opened NumberSpec

  const NUL: char := '\0'

  /** The buffer starts with the C string s. */
  ghost predicate Holds(b: seq<char>, s: string) {
    && |s| < |b| && b[|s|] == NUL && b[..|s|] == s && NUL !in s
  }

  /** Nothing behind position m has changed. */
  ghost predicate KeptBehind(b0: seq<char>, b: seq<char>, m: nat) {
    |b| == |b0| && forall k :: m < k < |b| ==> b[k] == b0[k]
  }

  method Strlen(b: array<char>, ghost s: string) returns (n: nat)
    requires Holds(b[..], s)
    ensures n == |s|
  {
    n := 0;
    while b[n] != NUL
      invariant n <= |s|
      decreases |s| - n
    {
      assert b[n] == b[..][..|s|][n];
      n := n + 1;
    }
  }

  /** strrev, in place.  On the empty string it would swap the terminator with the byte before the buffer. */
  method Strrev(b: array<char>, ghost s: string)
    requires Holds(b[..], s) && s != ""
    modifies b
    ensures Holds(b[..], Reverse(s))
    ensures forall i :: |s| <= i < b.Length ==> b[i] == old(b[i])
  {
    var n := Strlen(b, s);
    var length := n - 1;
    var i := 0;
    assert forall k :: 0 <= k < |s| ==> b[k] == b[..][..|s|][k] == s[k];
    while i <= length / 2
      invariant 0 <= i <= length / 2 + 1
      invariant forall k :: 0 <= k < i ==> b[k] == s[length - k]
      invariant forall k :: length - i < k <= length ==> b[k] == s[length - k]
      invariant forall k :: i <= k <= length - i ==> b[k] == s[k]
      invariant forall k :: n <= k < b.Length ==> b[k] == old(b[k])
    {
      var temp := b[i];
      b[i] := b[length - i];
      b[length - i] := temp;
      i := i + 1;
    }
    assert b[..n] == Reverse(s);
  }

  /** The digit loop both printers share: counts `len` down and divides. */
  method WriteDigits(b: array<char>, num: nat, base: nat, len: nat) returns (i: nat, left: int, rest: nat)
    requires 2 <= base <= 16 && b.Length >= |LowDigits(num, base, len)|
    modifies b
    ensures i == |LowDigits(num, base, len)| && b[..i] == LowDigits(num, base, len)
    ensures forall k :: i <= k < b.Length ==> b[k] == old(b[k])
    ensures left == if rest != 0 then -1 else len - i
    ensures rest == 0 <==> num < Pow(base, len)
  {
    i, left, rest := 0, len, num;
    assert b[..0] == "";
    while true
      invariant 0 <= left <= len && i == len - left && i <= b.Length
      invariant Printed(b[..i], rest, left, num, base, len)
      invariant forall k :: i <= k < b.Length ==> b[k] == old(b[k])
      decreases left
    {
      if rest == 0 {
        break;
      }
      left := left - 1;
      if left == -1 {
        break;
      }
      rest := WriteDigit(b, i, rest, base, left + 1, num, len);
      i := i + 1;
    }
    PrintedAll(b[..i], rest, if left == -1 then 0 else left, num, base, len);
  }

  /** One digit, and what is left of the number. */
  method WriteDigit(b: array<char>, i: nat, rest: nat, base: nat, ghost left: nat, ghost num: nat, ghost len: nat)
    returns (next: nat)
    requires 2 <= base <= 16 && rest > 0 && left > 0 && i <= b.Length
    requires Printed(b[..i], rest, left, num, base, len) && b.Length >= |LowDigits(num, base, len)|
    modifies b
    ensures i < b.Length && Printed(b[..i + 1], next, left - 1, num, base, len)
    ensures forall k :: 0 <= k < b.Length && k != i ==> b[k] == old(b[k])
  {
    ghost var before := b[..i];
    PrintedFits(before, rest, left, num, base, len);
    var c;
    c, next := NextDigit(before, rest, base, left, num, len);
    b[i] := c;
    assert b[..i + 1] == before + [c];
  }

  method NextDigit(ghost done: string, rest: nat, base: nat, ghost left: nat, ghost num: nat, ghost len: nat)
    returns (c: char, next: nat)
    requires 2 <= base <= 16 && rest > 0 && left > 0 && Printed(done, rest, left, num, base, len)
    ensures c == DigitChar(rest % base) && Printed(done + [c], next, left - 1, num, base, len)
  {
    var remainder := rest % base;
    c := if remainder > 9 then ((remainder - 10) + 'A' as int) as char else (remainder + '0' as int) as char;
    next := rest / base;
    PrintedMore(done, rest, left, num, base, len);
  }

  ghost predicate PrintedBody(done: string, rest: nat, left: nat, num: nat, base: nat, len: nat, key: nat)
    requires 2 <= base <= 16
  {
    && done + LowDigits(rest, base, left) == LowDigits(num, base, len)
    && (rest < Pow(base, left) <==> num < Pow(base, len))
  }

  /** The digits in done are printed, those of rest are to come; opened by an instance. */
  ghost predicate Printed(done: string, rest: nat, left: nat, num: nat, base: nat, len: nat)
    requires 2 <= base <= 16
  {
    forall key: nat :: PrintedBody(done, rest, left, num, base, len, key)
  }

  /** While something is left, not all digits are printed. */
  lemma PrintedFits(done: string, rest: nat, left: nat, num: nat, base: nat, len: nat)
    requires 2 <= base <= 16 && rest > 0 && left > 0 && Printed(done, rest, left, num, base, len)
    ensures |done| < |LowDigits(num, base, len)|
  {
    assert PrintedBody(done, rest, left, num, base, len, 0);
  }

  lemma PrintedMore(done: string, rest: nat, left: nat, num: nat, base: nat, len: nat)
    requires 2 <= base <= 16 && rest > 0 && left > 0 && Printed(done, rest, left, num, base, len)
    ensures Printed(done + [DigitChar(rest % base)], rest / base, left - 1, num, base, len)
  {
    assert PrintedBody(done, rest, left, num, base, len, 0);
    DigitStep(done, rest, base, left);
    DivideBound(rest, base, Pow(base, left - 1));
  }

  lemma PrintedAll(done: string, rest: nat, left: nat, num: nat, base: nat, len: nat)
    requires 2 <= base <= 16 && (rest == 0 || left == 0) && Printed(done, rest, left, num, base, len)
    ensures done == LowDigits(num, base, len) && (rest == 0 <==> num < Pow(base, len))
  {
    assert PrintedBody(done, rest, left, num, base, len, 0);
    assert LowDigits(rest, base, left) == "" && done + "" == done;
  }

  lemma DigitStep(before: string, rest: nat, base: nat, left: nat)
    requires 2 <= base <= 16 && rest > 0 && left > 0
    ensures before + LowDigits(rest, base, left) ==
            (before + [DigitChar(rest % base)]) + LowDigits(rest / base, base, left - 1)
  {
  }

  lemma DivideBound(n: nat, b: nat, p: nat)
    requires b > 0
    ensures n / b < p <==> n < b * p
  {
    var q, r := n / b, n % b;
    if q < p {
      DigitBound(b, p, q, r);
    } else {
      assert b * q >= b * p;
    }
  }

  lemma {:induction false} NoNulInDigits(num: nat, base: nat, k: nat)
    requires 2 <= base <= 16
    ensures NUL !in LowDigits(num, base, k)
    decreases k
  {
    if num != 0 && k != 0 {
      NoNulInDigits(num / base, base, k - 1);
    }
  }

  lemma ReverseKeepsNul(s: string)
    ensures NUL in Reverse(s) <==> NUL in s
  {
    if NUL in s {
      var i :| 0 <= i < |s| && s[i] == NUL;
      assert Reverse(s)[|s| - 1 - i] == NUL;
    }
  }

  /**
   itoa.  Decimal zero leaves an empty string to reverse, and a number with more digits
   than `len` sends the padding loop past zero in any other base, so neither is allowed here.
   */
  method ItoaCall(num: nat, b: array<char>, base: nat)
    requires base in {2, 8, 10, 16} && b.Length > |Itoa(num, base)|
    requires base == 10 ==> num != 0
    requires base != 10 ==> num < Pow(base, Width(base))
    modifies b
    ensures Holds(b[..], Itoa(num, base)) && KeptBehind(old(b[..]), b[..], |Itoa(num, base)|)
  {
    var len := 8;
    if base == 2 {
      len := 32;
    }
    if num == 0 && base == 2 {
      FillZeros(b);
      return;
    }
    PrintPadded(num, b, base, len);
  }

  method PrintPadded(num: nat, b: array<char>, base: nat, len: nat)
    requires 2 <= base <= 16 && len > 0 && b.Length > |PaddedDigits(num, base, len)|
    requires if base == 10 then num != 0 else num < Pow(base, len)
    modifies b
    ensures Holds(b[..], Reverse(PaddedDigits(num, base, len)))
    ensures KeptBehind(old(b[..]), b[..], |Reverse(PaddedDigits(num, base, len))|)
  {
    var i, left, _ := WriteDigits(b, num, base, len);
    ghost var s := LowDigits(num, base, len);
    NoNulInDigits(num, base, len);
    i := PadZeros(b, i, left, base, s);
    if base == 10 {
      LowDigitsNonEmpty(num, base, len);
    }
    Finish(b, i, PaddedDigits(num, base, len));
  }

  /** The end of both printers: terminate, then reverse in place. */
  method Finish(b: array<char>, i: nat, ghost s: string)
    requires i < b.Length && b[..i] == s && NUL !in s && s != ""
    modifies b
    ensures Holds(b[..], Reverse(s)) && KeptBehind(old(b[..]), b[..], |Reverse(s)|)
  {
    b[i] := NUL;
    assert b[..i] == s;
    ReverseKeepsNul(s);
    Strrev(b, s);
  }

  /** itoa's second loop. */
  method PadZeros(b: array<char>, start: nat, len: int, base: nat, ghost ds: string) returns (i: nat)
    requires b.Length > start && b[..start] == ds && NUL !in ds
    requires base != 10 ==> len >= 0 && b.Length > start + len
    modifies b
    ensures i < b.Length && i == if base == 10 then start else start + len
    ensures b[..i] == if base == 10 then ds else ds + Zeros(len)
    ensures NUL !in b[..i] && forall k :: i <= k < b.Length ==> b[k] == old(b[k])
  {
    i := start;
    var left := len;
    while true
      invariant base == 10 ==> i == start
      invariant base != 10 ==> start <= i <= start + len && left == len - (i - start)
      invariant b[..start] == ds && (forall k :: start <= k < i ==> b[k] == '0')
      invariant forall k :: i <= k < b.Length ==> b[k] == old(b[k])
      decreases if base == 10 then 0 else left
    {
      var more := left != 0;
      left := left - 1;
      if !(more && base != 10) {
        break;
      }
      b[i] := '0';
      i := i + 1;
    }
    if base != 10 {
      assert b[..i] == b[..start] + b[start..i];
      assert b[start..i] == Zeros(len);
    }
  }

  /** The special case of a binary zero, which is not reversed. */
  method FillZeros(b: array<char>)
    requires b.Length > 32
    modifies b
    ensures Holds(b[..], Itoa(0, 2)) && KeptBehind(old(b[..]), b[..], |Itoa(0, 2)|)
  {
    var i := 0;
    while i < 32
      invariant 0 <= i <= 32
      invariant forall k :: 0 <= k < i ==> b[k] == '0'
      invariant forall k :: i <= k < b.Length ==> b[k] == old(b[k])
    {
      b[i] := '0';
      i := i + 1;
    }
    b[i] := NUL;
    assert ItoaDigits(0, 2) == "" + Zeros(32);
    assert b[..32] == Itoa(0, 2);
  }

  method SitoaCall(num: int, b: array<char>, base: nat)
    requires base in {0, 2, 8, 10, 16} && b.Length > |Sitoa(num, base)|
    modifies b
    ensures Holds(b[..], Sitoa(num, base)) && KeptBehind(old(b[..]), b[..], |Sitoa(num, base)|)
  {
    if num == 0 || base == 0 {
      b[0] := '0';
      b[1] := NUL;
      assert b[..1] == "0";
      return;
    }
    if num < 0 {
      var n := -num;
      SignedDigits(n, true, b, base, 8, LowDigits(n, base, 8) + "-");
    } else {
      SignedDigits(num, false, b, base, 8, LowDigits(num, base, 8));
    }
  }

  method SignedDigits(n: nat, negative: bool, b: array<char>, base: nat, len: nat, ghost s: string)
    requires 2 <= base <= 16 && n > 0 && len > 0 && b.Length > |s|
    requires s == if negative then LowDigits(n, base, len) + "-" else LowDigits(n, base, len)
    modifies b
    ensures Holds(b[..], Reverse(s)) && KeptBehind(old(b[..]), b[..], |Reverse(s)|)
  {
    var i, _, _ := WriteDigits(b, n, base, len);
    NoNulInDigits(n, base, len);
    LowDigitsNonEmpty(n, base, len);
    if negative {
      b[i] := '-';
      i := i + 1;
      assert b[..i] == s;
    }
    Finish(b, i, s);
  }

  /** atoi. */
  method AtoiCall(s: string) returns (r: int)
    ensures r == Atoi(s)
  {
    var num, sign := 0, 1;
    if s != "" && s[0] == '-' {
      sign := -1;
    }
    var i := 0;
    while i < |s|
      invariant 0 <= i <= |s|
      invariant AtoiFrom(s[i..], num) == AtoiFrom(s, 0)
    {
      assert s[i..][1..] == s[i + 1..];
      if IsDigit(s[i]) {
        num := num * 10 + (s[i] as int - '0' as int);
      }
      i := i + 1;
    }
    r := sign * num;
  }

  /** lass_atoi. */
  method LassAtoiCall(line: string) returns (r: int)
    ensures r == LassAtoi(line)
  {
    var sign, base, s := 1, 10, line;
    var d := 1;
    while d < |line| && line[d] != 'x'
      invariant line != "" ==> 1 <= d <= |line| && FindX(line, d) == FindX(line, 1)
    {
      d := d + 1;
    }
    if d < |line| {
      base := 16;
      s := line[d + 1..];
    }
    if s != "" && s[0] == '-' {
      sign := -1;
    }
    var num := LassDigits(s, base);
    r := sign * num;
  }

  /** The loop over the digits. */
  method LassDigits(s: string, base: nat) returns (num: int)
    ensures num == LassFrom(s, base, 0)
  {
    num := 0;
    var i := 0;
    while i < |s|
      invariant 0 <= i <= |s|
      invariant LassFrom(s[i..], base, num) == LassFrom(s, base, 0)
    {
      assert s[i..][1..] == s[i + 1..];
      if IsDigit(s[i]) {
        num := num * base + (s[i] as int - '0' as int);
      } else if IsHex(s[i]) {
        num := num * base + (ToLower(s[i]) - 'a' as int) + 10;
      }
      i := i + 1;
    }
  }
}
