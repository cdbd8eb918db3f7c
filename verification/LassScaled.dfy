/**
 Memory operands with a scaled register: what address the processor makes of
 [first+second*scale].
 */
module LassScaled {
  import opened Common
  import opened NumberSpec
  import opened StrtokSpec
  import opened TwoPass
  import opened LassSpec
  import opened LassProofs
  import opened LassReading
  import opened LassMemory

  /** The address of an operand, for given contents of the eight registers. */
  function Address(o: Operand, regs: seq<int>): (r: int)
    requires o.Memory? && |regs| == 8 && (o.base.Some? ==> o.base.value < 8) && (o.index.Some? ==> o.index.value < 8)
  {
    var base := if o.base.Some? then regs[o.base.value] else 0;
    var index := if o.index.Some? then regs[o.index.value] * o.scale else 0;
    (base + index + o.disp) % 0x1_0000_0000
  }

  predicate Decoded(bs: seq<byte>, reg: nat) {
    var o := Decode(bs);
    o.Memory? && o.length == |bs| && o.reg == reg && (o.base.Some? ==> o.base.value < 8) && (o.index.Some? ==> o.index.value < 8)
  }

  /** The bytes are exactly an operand with register reg and, whatever the registers hold, the address first + second * scale. */
  ghost predicate ReachesScaled(bs: seq<byte>, reg: nat, first: nat, second: nat, scale: nat)
    requires first < 8 && second < 8
  {
    && Decoded(bs, reg)
    && forall regs: seq<int> :: |regs| == 8 ==>
         Address(Decode(bs), regs) == (regs[first] + regs[second] * scale) % 0x1_0000_0000
  }

  predicate IsScale(v: int) {
    v == 1 || v == 2 || v == 4 || v == 8
  }

  function ScaleBits(v: int): (r: nat)
    requires IsScale(v)
    ensures r < 4 && PowerOfTwo(r) == v
  {
    if v == 1 then 0 else if v == 2 then 1 else if v == 4 then 2 else 3
  }

  /** The SIB byte is left out when it is zero. */
  function ScaledBytes(reg: nat, first: nat, second: nat, v: int): (r: seq<byte>)
    requires reg < 8 && first < 8 && second < 8 && IsScale(v)
  {
    var sib := 64 * ScaleBits(v) + 8 * first + second;
    [0x80 + 8 * reg + 4] + (if sib != 0 then [sib] else []) + [0, 0, 0, 0]
  }

  lemma Zeros4()
    ensures SignedValue([0, 0, 0, 0]) == 0
  {
    Little4(0, 0, 0, 0);
  }

  lemma SibParts(k: nat, first: nat, second: nat)
    requires k < 4 && first < 8 && second < 8
    ensures var b := 64 * k + 8 * first + second; b < 0x100 && b / 64 == k && b / 8 % 8 == first && b % 8 == second
  {
  }

  /** The registers have changed places: the first is scaled, and the second is the base. */
  lemma ScaledDecodes(reg: nat, first: nat, second: nat, v: int)
    requires reg < 8 && first < 8 && second < 8 && IsScale(v) && 64 * ScaleBits(v) + 8 * first + second != 0
    ensures Decode(ScaledBytes(reg, first, second, v)) ==
            Memory(reg, Some(second), if first == 4 then None else Some(first), v, 0, 6)
  {
    var m, sib := 0x80 + 8 * reg + 4, 64 * ScaleBits(v) + 8 * first + second;
    var bs := [m, sib, 0, 0, 0, 0];
    assert ScaledBytes(reg, first, second, v) == bs;
    ModRMParts(2, reg, 4);
    SibParts(ScaleBits(v), first, second);
    DecodeWithSib(bs, m, sib);
  }

  lemma DecodeWithSib(bs: seq<byte>, m: byte, sib: byte)
    requires bs == [m, sib, 0, 0, 0, 0] && m < 0xC0 && m / 64 == 2 && m % 8 == 4
    ensures Decode(bs) ==
            Memory(m / 8 % 8, Some(sib % 8), if sib / 8 % 8 == 4 then None else Some(sib / 8 % 8), PowerOfTwo(sib / 64), 0, 6)
  {
    Zeros4();
    assert bs[2..6] == [0, 0, 0, 0];
  }

  lemma ZeroSib(reg: nat)
    requires reg < 8
    ensures Decode(ScaledBytes(reg, 0, 0, 1)) == NoMemory
  {
    var m := 0x80 + 8 * reg + 4;
    assert ScaledBytes(reg, 0, 0, 1) == [m, 0, 0, 0, 0];
    ModRMParts(2, reg, 4);
    TooShort([m, 0, 0, 0, 0], m);
  }

  lemma TooShort(bs: seq<byte>, m: byte)
    requires |bs| == 5 && bs[0] == m < 0xC0 && m / 64 == 2 && m % 8 == 4
    ensures Decode(bs) == NoMemory
  {
  }

  /** Registers that hold 1 in one place and 0 elsewhere. */
  function OneAt(k: nat): (r: seq<int>)
    requires k < 8
    ensures |r| == 8 && forall i :: 0 <= i < 8 ==> r[i] == if i == k then 1 else 0
  {
    seq(8, i => if i == k then 1 else 0)
  }

  /** When the exchange does no harm. */
  predicate Exchangeable(first: nat, second: nat, v: int) {
    first != 4 && (first == second || v == 1) && !(first == 0 && second == 0 && v == 1)
  }

  lemma SameSum(o: Operand, first: nat, second: nat, v: int, regs: seq<int>)
    requires first < 8 && second < 8 && |regs| == 8 && first != 4 && (first == second || v == 1) && v >= 0
    requires o.Memory? && o == Memory(o.reg, Some(second), Some(first), v, 0, 6)
    ensures Address(o, regs) == (regs[first] + regs[second] * v) % 0x1_0000_0000
  {
  }

  lemma ScaledReaches(reg: nat, first: nat, second: nat, v: int)
    requires reg < 8 && first < 8 && second < 8 && IsScale(v)
    ensures ReachesScaled(ScaledBytes(reg, first, second, v), reg, first, second, v) <==> Exchangeable(first, second, v)
  {
    var bs := ScaledBytes(reg, first, second, v);
    if 64 * ScaleBits(v) + 8 * first + second == 0 {
      ZeroSib(reg);
    } else {
      ScaledDecodes(reg, first, second, v);
      var o := Decode(bs);
      if Exchangeable(first, second, v) {
        forall regs: seq<int> | |regs| == 8 ensures Address(o, regs) == (regs[first] + regs[second] * v) % 0x1_0000_0000 {
          SameSum(o, first, second, v, regs);
        }
      } else if first == 4 {
        EspIsLost(o, second, v);
      } else {
        TellsApart(o, first, second, v);
      }
    }
  }

  lemma EspIsLost(o: Operand, second: nat, v: int)
    requires second < 8 && IsScale(v) && o.Memory? && o == Memory(o.reg, Some(second), None, v, 0, 6)
    ensures exists regs: seq<int> :: |regs| == 8 && Address(o, regs) != (regs[4] + regs[second] * v) % 0x1_0000_0000
  {
    var regs := OneAt(4);
    assert Address(o, regs) != (regs[4] + regs[second] * v) % 0x1_0000_0000;
  }

  lemma TellsApart(o: Operand, first: nat, second: nat, v: int)
    requires first < 8 && second < 8 && first != second && IsScale(v) && v != 1
    requires o.Memory? && o == Memory(o.reg, Some(second), Some(first), v, 0, 6)
    ensures exists regs: seq<int> :: |regs| == 8 && Address(o, regs) != (regs[first] + regs[second] * v) % 0x1_0000_0000
  {
    var regs := OneAt(first);
    assert Address(o, regs) == v && regs[first] + regs[second] * v == 1;
  }

  // ----- the assembler's side

  /** [first+second*scale] */
  function ScaledText(a: string, b: string, n: string): (r: string) {
    "[" + a + "+" + b + "*" + n + "]"
  }

  /** No character of w is a delimiter of calc_sib. */
  predicate IsWord(w: string) {
    w != "" && forall i :: 0 <= i < |w| ==> w[i] !in " [+],*"
  }

  lemma ScaledPlaces(a: string, b: string, n: string)
    requires IsWord(a) && IsWord(b) && IsWord(n)
    ensures var s, p, q := ScaledText(a, b, n), 1 + |a|, 2 + |a| + |b|;
            && |s| == q + |n| + 2 && s[0] == '[' && s[p] == '+' && s[q] == '*' && s[q + |n| + 1] == ']'
            && s[1..p] == a && s[p + 1..q] == b && s[q + 1..q + 1 + |n|] == n
            && (forall i :: 1 <= i < p ==> s[i] !in " [+],*") && (forall i :: p + 1 <= i < q ==> s[i] !in " [+],*")
            && (forall i :: q + 1 <= i < q + 1 + |n| ==> s[i] !in " [+],*")
  {
    var s, p, q := ScaledText(a, b, n), 1 + |a|, 2 + |a| + |b|;
    forall i | 1 <= i < p ensures s[i] == a[i - 1] {
    }
    forall i | p + 1 <= i < q ensures s[i] == b[i - p - 1] {
    }
    forall i | q + 1 <= i < q + 1 + |n| ensures s[i] == n[i - q - 1] {
    }
  }

  lemma ScaledTokensAt(a: string, b: string, n: string)
    requires IsWord(a) && IsWord(b) && IsWord(n)
    ensures var s, p, q, d := ScaledText(a, b, n), 1 + |a|, 2 + |a| + |b|, " [+],*";
            && NextToken(s, 0, d) == Token(1, p, p + 1) && NextToken(s, p + 1, d) == Token(p + 1, q, q + 1)
            && NextToken(s, q + 1, d) == Token(q + 1, q + 1 + |n|, |s|) && NextToken(s, |s|, d) == Token(|s|, |s|, -1)
            && |s| == q + |n| + 2
  {
    var s, p, q, d := ScaledText(a, b, n), 1 + |a|, 2 + |a| + |b|, " [+],*";
    ScaledPlaces(a, b, n);
    Delimiters();
    TokenAt(s, 0, d, 1, p);
    TokenAt(s, p + 1, d, p + 1, q);
    TokenAt(s, q + 1, d, q + 1, q + 1 + |n|);
  }

  lemma Delimiters()
    ensures '[' in " [+],*" && '+' in " [+],*" && '*' in " [+],*" && ']' in " [+],*"
  {
    var d := " [+],*";
    assert d[1] == '[' && d[2] == '+' && d[3] == ']' && d[5] == '*';
  }

  lemma NoMark(c: char)
    requires c !in " [+],*"
    ensures c != '+' && c != '*'
  {
    Delimiters();
  }

  lemma ScaledMarks(a: string, b: string, n: string)
    requires IsWord(a) && IsWord(b) && IsWord(n)
    ensures var s := ScaledText(a, b, n); StrChr(s, '+', 0) == 1 + |a| && StrChr(s, '*', 0) == 2 + |a| + |b|
  {
    var s, p, q := ScaledText(a, b, n), 1 + |a|, 2 + |a| + |b|;
    ScaledPlaces(a, b, n);
    forall i | 0 <= i < p ensures s[i] != '+' && s[i] != '*' {
      if i > 0 {
        NoMark(s[i]);
      }
    }
    forall i | p + 1 <= i < q ensures s[i] != '*' {
      NoMark(s[i]);
    }
    FirstAt(s, '+', 0, p);
    FirstAt(s, '*', 0, q);
  }

  // ----- what is gathered

  ghost predicate LeadsToBody(s: string, pos: nat, g: Gather, plus: int, star: int, r: Gather, key: nat) {
    pos <= |s| && ScaledTokens(s, pos, g, plus, star) == r
  }

  /** The loop at pos ends with r; opened by an instance. */
  ghost predicate LeadsTo(s: string, pos: nat, g: Gather, plus: int, star: int, r: Gather) {
    forall key: nat :: LeadsToBody(s, pos, g, plus, star, r, key)
  }

  ghost predicate NamesBody(w: string, c: bv32, key: nat) {
    !StartsWithDigit(w) && Classify(w) == c
  }

  /** The word is a name of class c; opened by an instance. */
  ghost predicate Names(w: string, c: bv32) {
    forall key: nat :: NamesBody(w, c, key)
  }

  function WithName(g: Gather, c: bv32): Gather {
    Gather(g.c + 1, if g.c == 0 then c else g.index, if g.c == 1 then c else g.base, g.disp, g.scale)
  }

  lemma NameStep(s: string, pos: nat, t: Token, w: string, c: bv32, g: Gather, plus: int, star: int, r: Gather)
    requires pos <= |s| && NextToken(s, pos, " [+],*") == t && s[t.start..t.end] == w && Names(w, c)
    requires if t.next == -1 then r == WithName(g, c) else LeadsTo(s, t.next, WithName(g, c), plus, star, r)
    ensures LeadsTo(s, pos, g, plus, star, r)
  {
    assert NamesBody(w, c, 0);
    if t.next != -1 {
      assert LeadsToBody(s, t.next, WithName(g, c), plus, star, r, 0);
    }
  }

  lemma ScaleStep(s: string, pos: nat, t: Token, w: string, v: int, g: Gather, plus: int, star: int, r: Gather)
    requires pos <= |s| && NextToken(s, pos, " [+],*") == t && s[t.start..t.end] == w && StartsWithDigit(w) && v == ToInt(LassAtoi(w))
    requires plus < star && t.start > plus && t.next != -1 && LeadsTo(s, t.next, g.(scale := v), plus, star, r)
    ensures LeadsTo(s, pos, g, plus, star, r)
  {
    assert LeadsToBody(s, t.next, g.(scale := v), plus, star, r, 0);
  }

  ghost predicate PlacedBody(s: string, a: string, b: string, n: string, p: nat, q: nat, e: nat, key: nat) {
    && 1 <= p < q < e < |s|
    && NextToken(s, 0, " [+],*") == Token(1, p, p + 1) && NextToken(s, p + 1, " [+],*") == Token(p + 1, q, q + 1)
    && NextToken(s, q + 1, " [+],*") == Token(q + 1, e, |s|) && NextToken(s, |s|, " [+],*") == Token(|s|, |s|, -1)
    && s[1..p] == a && s[p + 1..q] == b && s[q + 1..e] == n
  }

  /** a, b and n are the tokens of s, and end at p, q and e; opened by an instance. */
  ghost predicate Placed(s: string, a: string, b: string, n: string, p: nat, q: nat, e: nat) {
    forall key: nat :: PlacedBody(s, a, b, n, p, q, e, key)
  }

  lemma TextIsPlaced(a: string, b: string, n: string)
    requires IsWord(a) && IsWord(b) && IsWord(n)
    ensures Placed(ScaledText(a, b, n), a, b, n, 1 + |a|, 2 + |a| + |b|, 3 + |a| + |b| + |n|)
  {
    var s, p, q := ScaledText(a, b, n), 1 + |a|, 2 + |a| + |b|;
    ScaledTokensAt(a, b, n);
    assert s[1..p] == a && s[p + 1..q] == b && s[q + 1..q + 1 + |n|] == n by {
      ScaledPlaces(a, b, n);
    }
  }

  lemma ScaledGathers(s: string, a: string, b: string, n: string, ca: bv32, cb: bv32, v: int, p: nat, q: nat, e: nat)
    requires Placed(s, a, b, n, p, q, e) && Names(a, ca) && Names(b, cb) && StartsWithDigit(n) && v == ToInt(LassAtoi(n))
    ensures LeadsTo(s, 0, Gather(0, MINUS_ONE, MINUS_ONE, 0, -1), p, q, Gather(3, ca, cb, 0, v))
  {
    assert PlacedBody(s, a, b, n, p, q, e, 0);
    var r := Gather(3, ca, cb, 0, v);
    assert s[|s|..|s|] == "";
    var c := EmptyIsName();
    NameStep(s, |s|, Token(|s|, |s|, -1), "", c, Gather(2, ca, cb, 0, v), p, q, r);
    ScaleStep(s, q + 1, Token(q + 1, e, |s|), n, v, Gather(2, ca, cb, 0, -1), p, q, r);
    NameStep(s, p + 1, Token(p + 1, q, q + 1), b, cb, Gather(1, ca, MINUS_ONE, 0, -1), p, q, r);
    NameStep(s, 0, Token(1, p, p + 1), a, ca, Gather(0, MINUS_ONE, MINUS_ONE, 0, -1), p, q, r);
  }

  lemma EmptyIsName() returns (c: bv32)
    ensures Names("", c)
  {
    c := Classify("");
  }

  predicate IsWide(c: bv32) {
    c == (c & 0x7) | R32
  }

  lemma ScaledIs(op1: bv32, ca: bv32, cb: bv32, v: int)
    requires IsGeneral(op1) && IsWide(ca) && IsWide(cb) && IsScale(v)
    ensures var r := ScaledSib(op1, Gather(3, ca, cb, 0, v));
            && r.disp == 0 && r.modrm == ModRM(2, op1, 4) && r.sib == ModRM(ScaleBits(v) as bv32, ca, cb)
  {
    WideBits(ca);
    WideBits(cb);
    LogOfScale(v);
    ScaledModRM(ScaleBits(v) as bv32, ca, cb);
  }

  lemma WideBits(c: bv32)
    requires IsWide(c)
    ensures c != 0 && c & R32 != 0 && c & !(R8 | R32) == c & 0x7 && c & 0x7 != MINUS_ONE
  {
  }

  lemma ScaledModRM(k: bv32, ca: bv32, cb: bv32)
    ensures ModRM(k, ca & 0x7, cb & 0x7) == ModRM(k, ca, cb)
  {
  }

  lemma LogOfScale(v: int)
    requires IsScale(v)
    ensures Log2(v) == ScaleBits(v)
  {
    assert Log2(1) == 0 && Log2(2) == 1 && Log2(4) == 2 && Log2(8) == 3;
  }

  /** The bracket, as calc_sib sees it. */
  lemma CalcIsScaled(a: string, b: string, n: string, op: bv32, ca: bv32, cb: bv32, v: int)
    requires IsWord(a) && IsWord(b) && IsWord(n) && Names(a, ca) && Names(b, cb) && StartsWithDigit(n) && v == ToInt(LassAtoi(n))
    requires op != 0
    ensures CalcSib(ScaledText(a, b, n), op) == ScaledSib(op, Gather(3, ca, cb, 0, v))
  {
    var s := ScaledText(a, b, n);
    TextIsPlaced(a, b, n);
    ScaledGathers(s, a, b, n, ca, cb, v, 1 + |a|, 2 + |a| + |b|, 3 + |a| + |b| + |n|);
    ScaledMarks(a, b, n);
    CalcFrom(s, op, 1 + |a|, 2 + |a| + |b|, Gather(3, ca, cb, 0, v));
  }

  lemma CalcFrom(s: string, op: bv32, plus: int, star: int, g: Gather)
    requires op != 0 && StrChr(s, '+', 0) == plus && StrChr(s, '*', 0) == star != -1
    requires LeadsTo(s, 0, Gather(0, MINUS_ONE, MINUS_ONE, 0, -1), plus, star, g)
    ensures CalcSib(s, op) == ScaledSib(op, g)
  {
    assert LeadsToBody(s, 0, Gather(0, MINUS_ONE, MINUS_ONE, 0, -1), plus, star, g, 0);
    assert OtherOperand(s, op) == None;
  }

  // ----- bytes

  lemma SibByte(k: nat, ca: bv32, cb: bv32)
    requires k < 4
    ensures var m := ModRM(k as bv32, ca, cb); Low(m) == 64 * k + 8 * Bits3(ca) + Bits3(cb) && (m == 0 <==> Low(m) == 0)
  {
    SibBits(k as bv32, ca, cb);
  }

  lemma SibBits(k: bv32, ca: bv32, cb: bv32)
    requires k < 4
    ensures Low(ModRM(k, ca, cb)) == 64 * (k as int) + 8 * Bits3(ca) + Bits3(cb) && ModRM(k, ca, cb) < 0x100
    ensures ModRM(k, ca, cb) == 0 <==> Low(ModRM(k, ca, cb)) == 0
  {
  }

  lemma ModeTwo(op1: bv32)
    ensures Low(ModRM(2, op1, 4)) == 0x80 + 8 * Bits3(op1) + 4 && ModRM(2, op1, 4) < 0x100 && ModRM(2, op1, 4) >> 6 == 2
  {
  }

  lemma HeadWithSib(row: Row, o: Shape)
    requires o.m < 0x100 && TakesModRM(row) && o.syn0 & REGISTER != 0 && o.syn0 & ANY_IMM == 0 && o.syn1 == R32
    ensures HeadBytes(row, o) ==
            Prefixes(row) + [OpcodeFor(row, o.rev), Low(o.m)] + (if o.sib != 0 then [Low(o.sib)] else [])
  {
    var op := if o.rev then row.primary ^ 0x2 else row.primary;
    assert op < 0x100;
    MemoryForm(row, o);
    OpcodeThenModRM(o.m, op);
    PartAndSib(row, o, [OpcodeFor(row, o.rev), Low(o.m)]);
  }

  lemma PartAndSib(row: Row, o: Shape, part: seq<byte>)
    requires o.syn1 != 0 && part == TwoOperandBytes(row, o)
    ensures HeadBytes(row, o) == Prefixes(row) + part + (if o.sib != 0 then [Low(o.sib)] else [])
  {
  }

  lemma ZeroWord()
    ensures Bytes4(0) == [0, 0, 0, 0]
  {
  }

  lemma ScaledCode(table: seq<Row>, row: Row, s: Shape, text: string, reg: bv32, ca: bv32, cb: bv32, v: int, p: nat, elf: int)
    requires TakesModRM(row) && s.syn0 == reg && IsGeneral(reg) && s.syn1 == 0 && !s.rev && IsWide(ca) && IsWide(cb) && IsScale(v)
    requires CalcSib(text, reg) == ScaledSib(reg, Gather(3, ca, cb, 0, v))
    ensures CodeBytes(Lass(table), row, MemoryOperand(Lass(table), s, text), p, elf) ==
            Prefixes(row) + [OpcodeFor(row, false)] + ScaledBytes(Bits3(reg), Bits3(ca), Bits3(cb), v)
  {
    var sib := ModRM(ScaleBits(v) as bv32, ca, cb);
    ScaledIs(reg, ca, cb, v);
    ModeTwo(reg);
    GeneralBits(reg);
    SlotIsGeneral(0);
    ScaledShape(table, row, s, text, reg, p, elf, sib);
    SibByte(ScaleBits(v), ca, cb);
    ScaledJoined(row, Low(ModRM(2, reg, 4)), sib, Bits3(reg), Bits3(ca), Bits3(cb), v);
  }

  lemma ScaledJoined(row: Row, m: byte, sib: bv32, reg: nat, first: nat, second: nat, v: int)
    requires reg < 8 && first < 8 && second < 8 && IsScale(v) && m == 0x80 + 8 * reg + 4
    requires Low(sib) == 64 * ScaleBits(v) + 8 * first + second && (sib == 0 <==> Low(sib) == 0)
    ensures Prefixes(row) + [OpcodeFor(row, false), m] + (if sib != 0 then [Low(sib)] else []) + [0, 0, 0, 0] ==
            Prefixes(row) + [OpcodeFor(row, false)] + ScaledBytes(reg, first, second, v)
  {
    var sibs := SibChoice(m, sib, reg, first, second, v);
    Rejoin(Prefixes(row), OpcodeFor(row, false), m, sibs);
  }

  lemma SibChoice(m: byte, sib: bv32, reg: nat, first: nat, second: nat, v: int) returns (sibs: seq<byte>)
    requires reg < 8 && first < 8 && second < 8 && IsScale(v) && m == 0x80 + 8 * reg + 4
    requires Low(sib) == 64 * ScaleBits(v) + 8 * first + second && (sib == 0 <==> Low(sib) == 0)
    ensures sibs == if sib != 0 then [Low(sib)] else []
    ensures ScaledBytes(reg, first, second, v) == [m] + sibs + [0, 0, 0, 0]
  {
    sibs := if Low(sib) != 0 then [Low(sib)] else [];
    ScaledBytesAre(reg, first, second, v, m, Low(sib));
  }

  lemma ScaledBytesAre(reg: nat, first: nat, second: nat, v: int, m: byte, b: byte)
    requires reg < 8 && first < 8 && second < 8 && IsScale(v) && m == 0x80 + 8 * reg + 4 && b == 64 * ScaleBits(v) + 8 * first + second
    ensures ScaledBytes(reg, first, second, v) == [m] + (if b != 0 then [b] else []) + [0, 0, 0, 0]
  {
  }

  lemma Rejoin(ps: seq<byte>, op: byte, m: byte, sib: seq<byte>)
    ensures ps + [op, m] + sib + [0, 0, 0, 0] == ps + [op] + ([m] + sib + [0, 0, 0, 0])
  {
  }

  lemma ScaledShape(table: seq<Row>, row: Row, s: Shape, text: string, reg: bv32, p: nat, elf: int, sib: bv32)
    requires TakesModRM(row) && s.syn0 == reg && s.syn1 == 0 && !s.rev && 0 | R32 == R32
    requires reg != 0 && reg & REGISTER != 0 && reg & ANY_IMM == 0
    requires var a := CalcSib(text, reg); a.disp == 0 && a.modrm == ModRM(2, reg, 4) && a.sib == sib
    requires ModRM(2, reg, 4) < 0x100 && ModRM(2, reg, 4) >> 6 == 2
    ensures CodeBytes(Lass(table), row, MemoryOperand(Lass(table), s, text), p, elf) ==
            Prefixes(row) + [OpcodeFor(row, false), Low(ModRM(2, reg, 4))] + (if sib != 0 then [Low(sib)] else []) + [0, 0, 0, 0]
  {
    var o := MemoryOperand(Lass(table), s, text);
    HeadWithSib(row, o.shape);
    MemoryImmediate(row, o, p, p + |HeadBytes(row, o.shape)|, elf);
    ZeroWord();
  }

  /**
   Main result for scaled registers: in the output of any text, a line of a mnemonic, a register
   and [first+second*scale] takes the first register as the scaled one and the second as the base.
   So it reaches the address that was written exactly if the two are the same or the scale is 1,
   the first is not esp, and it is not eax twice with scale 1, whose SIB byte is left out.
   */
  lemma ScaledInProgram(table: seq<Row>, row: Row, elf: int, texts: seq<string>, j: nat, mnemonic: string, register: string,
                        a: string, b: string, n: string, ca: bv32, cb: bv32, v: int)
    requires j < |texts| && LineOf(texts[j]) == Code(texts[j]) && LoadLine(texts[j], mnemonic, register, ScaledText(a, b, n))
    requires IsGeneral(Classify(register)) && FindInstruction(table, mnemonic, Classify(register), R32) == Some(row) && TakesModRM(row)
    requires IsWord(a) && IsWord(b) && IsWord(n) && Names(a, ca) && Names(b, cb) && IsWide(ca) && IsWide(cb)
    requires StartsWithDigit(n) && v == ToInt(LassAtoi(n)) && IsScale(v)
    ensures var bytes, head := LineSlice(EmitterOf(Lass(table)), elf, LinesOf(texts), j), Prefixes(row) + [OpcodeFor(row, false)];
            && head <= bytes
            && (ReachesScaled(bytes[|head|..], RegisterNumber(register), Bits3(ca), Bits3(cb), v) <==>
                Exchangeable(Bits3(ca), Bits3(cb), v))
  {
    var c, text := Classify(register), ScaledText(a, b, n);
    GeneralIsNoNumber(c);
    var s, p := LoadIsCode(table, row, elf, texts, j, mnemonic, register, text);
    CalcIsScaled(a, b, n, c, ca, cb, v);
    ScaledCode(table, row, s, text, c, ca, cb, v, p, elf);
    ScaledReaches(Bits3(c), Bits3(ca), Bits3(cb), v);
    var head, rest := Prefixes(row) + [OpcodeFor(row, false)], ScaledBytes(Bits3(c), Bits3(ca), Bits3(cb), v);
    assert (head + rest)[|head|..] == rest;
  }

  /** A failing input: the bytes for eax and [ebx+ecx*4] have the address ecx + ebx * 4. */
  lemma RegistersExchanged()
    ensures !ReachesScaled(ScaledBytes(0, 3, 1, 4), 0, 3, 1, 4) && ReachesScaled(ScaledBytes(0, 3, 1, 4), 0, 1, 3, 4)
  {
    ScaledReaches(0, 3, 1, 4);
    ScaledDecodes(0, 3, 1, 4);
  }
}
