/**
 Memory operands: what address the processor makes of the ModR/M byte, the SIB byte and the
 displacement that the assembler writes for a bracket.
 */
module LassMemory {
  import opened Common
  import opened NumberSpec
  import opened StrtokSpec
  import opened TwoPass
  import opened LassSpec
  import opened LassProofs
  import opened LassReading

  // ----- the processor's side

  /** A displacement of no, one or four bytes, read as signed. */
  function SignedValue(bs: seq<byte>): (r: int) {
    var u := Little(bs);
    if |bs| == 1 then (if u < 0x80 then u else u - 0x100)
    else if u < 0x8000_0000 then u else u - 0x1_0000_0000
  }

  datatype Operand = Memory(reg: nat, base: Option<nat>, index: Option<nat>, scale: nat, disp: int, length: nat) | NoMemory

  function PowerOfTwo(k: nat): (r: nat) {
    if k == 0 then 1 else if k == 1 then 2 else if k == 2 then 4 else 8
  }

  /** The operand that starts with this ModR/M byte (Intel SDM Volume 2A, tables 2-2 and 2-3). */
  function Decode(bs: seq<byte>): (r: Operand) {
    if bs == [] || bs[0] >= 0xC0 then NoMemory else
    var mod, reg, rm := bs[0] / 64, bs[0] / 8 % 8, bs[0] % 8;
    var sib := rm == 4;
    if sib && |bs| < 2 then NoMemory else
    var base := if sib then bs[1] % 8 else rm;
    var at := if sib then 2 else 1;
    var absent := mod == 0 && base == 5;
    var wide := if mod == 1 then 1 else if mod == 2 || absent then 4 else 0;
    if |bs| < at + wide then NoMemory else
    Memory(reg, if absent then None else Some(base),
           if sib && bs[1] / 8 % 8 != 4 then Some(bs[1] / 8 % 8) else None,
           if sib then PowerOfTwo(bs[1] / 64) else 1,
           SignedValue(bs[at..at + wide]), at + wide)
  }

  /** The bytes are exactly an operand with register `reg` and the address of register `base` plus d. */
  predicate Reaches(bs: seq<byte>, reg: nat, base: nat, d: int) {
    var o := Decode(bs);
    o.Memory? && o.length == |bs| && o.reg == reg && o.base == Some(base) && o.index == None && (o.disp - d) % 0x1_0000_0000 == 0
  }

  // ----- the assembler's side

  /** What is left of calc_sib's result without a '*': a register, a displacement and the other operand's number. */
  function PlainModRM(reg: nat, base: nat, d: int): (r: byte)
    requires reg < 8 && base < 8
  {
    64 * (if d > 255 then 2 else if d != 0 || base == 5 then 1 else 0) + 8 * reg + base
  }

  /** One byte behind mode 1, else four: also behind mode 0, which has none. */
  function PlainBytes(reg: nat, base: nat, d: int): (r: seq<byte>)
    requires reg < 8 && base < 8
  {
    [PlainModRM(reg, base, d)] + if d > 255 || (d == 0 && base != 5) then Bytes4(d) else [LowInt(d)]
  }

  lemma SignedByte(d: int)
    requires -0x8000_0000 <= d <= 0x8000_0000
    ensures (SignedValue([LowInt(d)]) - d) % 0x1_0000_0000 == 0 <==> -128 <= d < 128
  {
    Little1(LowInt(d));
    var v := SignedValue([LowInt(d)]);
    assert -128 <= v < 128;
    SmallMultiple(v - d);
  }

  lemma SmallMultiple(x: int)
    requires -0x1_0000_0000 < x < 0x1_0000_0000
    ensures x % 0x1_0000_0000 == 0 <==> x == 0
  {
  }

  lemma SignedWord(d: int)
    requires -0x8000_0000 <= d <= 0x8000_0000
    ensures (SignedValue(Bytes4(d)) - d) % 0x1_0000_0000 == 0
  {
    Bytes4Reads(d);
  }

  lemma ModRMParts(mod: nat, reg: nat, rm: nat)
    requires mod < 3 && reg < 8 && rm < 8
    ensures var b := 64 * mod + 8 * reg + rm; b < 0xC0 && b / 64 == mod && b / 8 % 8 == reg && b % 8 == rm
  {
  }

  /** With mode 1 and a byte. */
  lemma ByteReaches(reg: nat, base: nat, d: int)
    requires reg < 8 && base < 8 && -0x8000_0000 <= d <= 0x8000_0000
    ensures Reaches([64 + 8 * reg + base, LowInt(d)], reg, base, d) <==> base != 4 && -128 <= d < 128
  {
    var bs := [64 + 8 * reg + base, LowInt(d)];
    ModRMParts(1, reg, base);
    SignedByte(d);
    if base != 4 {
      assert bs[1..2] == [LowInt(d)];
    }
  }

  /** With mode 2 and four bytes. */
  lemma WordReaches(reg: nat, base: nat, d: int)
    requires reg < 8 && base < 8 && -0x8000_0000 <= d <= 0x8000_0000
    ensures Reaches([128 + 8 * reg + base] + Bytes4(d), reg, base, d) <==> base != 4
  {
    var bs := [128 + 8 * reg + base] + Bytes4(d);
    ModRMParts(2, reg, base);
    SignedWord(d);
    if base != 4 {
      assert bs[1..5] == Bytes4(d);
    }
  }

  /** With mode 0 and four bytes that do not belong to the instruction. */
  lemma ZeroReaches(reg: nat, base: nat)
    requires reg < 8 && base < 8 && base != 5
    ensures !Reaches([8 * reg + base] + Bytes4(0), reg, base, 0)
  {
    ModRMParts(0, reg, base);
  }

  /** The displacements that are written so that the processor reads them back. */
  predicate Encodable(base: nat, d: int) {
    base != 4 && if d == 0 then base == 5 else -128 <= d < 128 || d > 255
  }

  lemma PlainReaches(reg: nat, base: nat, d: int)
    requires reg < 8 && base < 8 && -0x8000_0000 <= d <= 0x8000_0000
    ensures Reaches(PlainBytes(reg, base, d), reg, base, d) <==> Encodable(base, d)
  {
    if d > 255 {
      WordReaches(reg, base, d);
    } else if d == 0 && base != 5 {
      ZeroReaches(reg, base);
    } else {
      ByteReaches(reg, base, d);
      assert PlainBytes(reg, base, d) == [64 + 8 * reg + base, LowInt(d)];
    }
  }

  // ----- what calc_sib gathers from the words of a bracket

  const MARKS := " [+-],"

  /** A word of a bracket: a number with its value, or a name with its class. */
  datatype Word = NumberWord(v: int) | NameWord(c: bv32)

  function WordOf(w: string): (r: Word) {
    if StartsWithDigit(w) then NumberWord(ToInt(LassAtoi(w))) else NameWord(Classify(w))
  }

  function Digest(ws: seq<string>): (r: seq<Word>)
    ensures |r| == |ws|
  {
    seq(|ws|, i requires 0 <= i < |ws| => WordOf(ws[i]))
  }

  /** The class of the first name. */
  function FirstName(ws: seq<Word>): (r: Option<bv32>) {
    if ws == [] then None else if ws[0].NameWord? then Some(ws[0].c) else FirstName(ws[1..])
  }

  function NumberOr(w: Word, d: int): (r: int) {
    if w.NumberWord? then w.v else d
  }

  /** The value of the last number. */
  function LastNumber(ws: seq<Word>, d: int): (r: int)
    decreases |ws|
  {
    if ws == [] then d else LastNumber(ws[1..], NumberOr(ws[0], d))
  }

  /** A class without the bits for the width. */
  function NoWidth(c: bv32): (r: bv32) {
    c & !(R32 | R8)
  }

  function GatherOne(g: Gather, w: Word): (r: Gather) {
    match w
    case NumberWord(v) => g.(disp := v)
    case NameWord(c) => Gather(g.c + 1, if g.c == 0 then NoWidth(c) else g.index, if g.c == 1 then c else g.base, g.disp, g.scale)
  }

  function GatherAll(g: Gather, ws: seq<Word>): (r: Gather)
    decreases |ws|
  {
    if ws == [] then g else GatherAll(GatherOne(g, ws[0]), ws[1..])
  }

  lemma GatherWord(g: Gather, w: string)
    ensures PlainToken(g, w) == GatherOne(g, WordOf(w))
  {
  }

  lemma {:induction false} GatheredDisp(g: Gather, ws: seq<Word>)
    ensures GatherAll(g, ws).disp == LastNumber(ws, g.disp)
    ensures g.c > 0 ==> GatherAll(g, ws).index == g.index
    decreases |ws|
  {
    if ws != [] {
      GatheredDisp(GatherOne(g, ws[0]), ws[1..]);
    }
  }

  lemma {:induction false} GatheredIndex(g: Gather, ws: seq<Word>)
    requires g.c == 0 && FirstName(ws).Some?
    ensures GatherAll(g, ws).index == NoWidth(FirstName(ws).value)
    decreases |ws|
  {
    var g' := GatherOne(g, ws[0]);
    if ws[0].NumberWord? {
      assert g'.c == 0;
      GatheredIndex(g', ws[1..]);
    } else {
      assert g'.c == 1 && g'.index == NoWidth(ws[0].c);
      GatheredDisp(g', ws[1..]);
    }
  }

  lemma {:induction false} SpanWithoutStar(s: string, pos: nat)
    requires pos <= |s| && '*' !in s
    ensures Span(s, pos, " [+-],*") == Span(s, pos, MARKS) && Break(s, pos, " [+-],*") == Break(s, pos, MARKS)
    decreases |s| - pos
  {
    if pos < |s| {
      SameDelimiter(s[pos]);
      SpanWithoutStar(s, pos + 1);
    }
  }

  lemma SameDelimiter(c: char)
    requires c != '*'
    ensures c in " [+-],*" <==> c in MARKS
  {
    assert " [+-],*" == MARKS + "*";
  }

  lemma TokenWithoutStar(s: string, pos: nat)
    requires pos <= |s| && '*' !in s
    ensures NextToken(s, pos, " [+-],*") == NextToken(s, pos, MARKS)
  {
    SpanWithoutStar(s, pos);
    var start := Span(s, pos, MARKS);
    if start < |s| {
      SpanWithoutStar(s, start + 1);
    }
  }

  lemma {:induction false} GatherTokens(s: string, pos: nat, d: string, g: Gather)
    requires pos <= |s| && '*' !in s && (d == MARKS || d == " [+-],*")
    ensures PlainTokens(s, pos, d, g) == GatherAll(g, Digest(Tokens(s, pos, MARKS)))
    decreases |s| - pos
  {
    TokenWithoutStar(s, pos);
    var t := NextToken(s, pos, MARKS);
    var w := s[t.start..t.end];
    var rest := if t.next == -1 then [] else Tokens(s, t.next, MARKS);
    GatherWord(g, w);
    GatherMore(g, w, rest);
    if t.next != -1 {
      GatherTokens(s, t.next, " [+-],*", PlainToken(g, w));
    }
  }

  lemma GatherMore(g: Gather, w: string, rest: seq<string>)
    ensures GatherAll(g, Digest([w] + rest)) == GatherAll(GatherOne(g, WordOf(w)), Digest(rest))
  {
    DigestAppend([w], rest);
    assert Digest([w]) == [WordOf(w)];
    assert ([WordOf(w)] + Digest(rest))[1..] == Digest(rest);
  }

  lemma DigestAppend(vs: seq<string>, ws: seq<string>)
    ensures Digest(vs + ws) == Digest(vs) + Digest(ws)
  {
    var ps, qs := Digest(vs + ws), Digest(vs) + Digest(ws);
    forall i | 0 <= i < |ps| ensures ps[i] == qs[i] {
      assert (vs + ws)[i] == if i < |vs| then vs[i] else ws[i - |vs|];
    }
  }

  lemma {:induction false} NameFirst(ws: seq<Word>, tail: seq<Word>)
    requires FirstName(ws).Some?
    ensures FirstName(ws + tail) == FirstName(ws)
    decreases |ws|
  {
    assert (ws + tail)[0] == ws[0] && (ws + tail)[1..] == ws[1..] + tail;
    if ws[0].NumberWord? {
      NameFirst(ws[1..], tail);
    }
  }

  lemma {:induction false} NameIsNoNumber(ws: seq<Word>, w: Word, d: int)
    requires w.NameWord?
    ensures LastNumber(ws + [w], d) == LastNumber(ws, d)
    decreases |ws|
  {
    if ws == [] {
      assert ws + [w] == [w] && [w][1..] == [];
    } else {
      assert (ws + [w])[0] == ws[0] && (ws + [w])[1..] == ws[1..] + [w];
      NameIsNoNumber(ws[1..], w, NumberOr(ws[0], d));
    }
  }

  /** The words of a bracket. */
  function BracketWords(text: string): (r: seq<Word>) {
    Digest(Words(text, 0, MARKS))
  }

  lemma TokensDigested(text: string) returns (tail: seq<Word>)
    ensures Digest(Tokens(text, 0, MARKS)) == BracketWords(text) + tail
    ensures tail == [] || (|tail| == 1 && tail[0].NameWord?)
  {
    TokensAreTheWords(text, 0, MARKS);
    DigestAppend(Words(text, 0, MARKS), Tail(text, 0, MARKS));
    tail := Digest(Tail(text, 0, MARKS));
  }

  /** So what is gathered is the first name and the last number of the bracket. */
  lemma Gathered(text: string, g: Gather)
    requires '*' !in text && g.c == 0 && FirstName(BracketWords(text)).Some?
    ensures var r, ws := PlainTokens(text, 0, MARKS, g), BracketWords(text);
            r.index == NoWidth(FirstName(ws).value) && r.disp == LastNumber(ws, g.disp)
  {
    GatherTokens(text, 0, MARKS, g);
    var tail := TokensDigested(text);
    GatheredWords(g, BracketWords(text), tail);
  }

  lemma GatheredWords(g: Gather, ws: seq<Word>, tail: seq<Word>)
    requires g.c == 0 && FirstName(ws).Some? && (tail == [] || (|tail| == 1 && tail[0].NameWord?))
    ensures var r := GatherAll(g, ws + tail);
            r.index == NoWidth(FirstName(ws).value) && r.disp == LastNumber(ws, g.disp)
  {
    NameFirst(ws, tail);
    GatheredIndex(g, ws + tail);
    GatheredDisp(g, ws + tail);
    if tail == [] {
      assert ws + tail == ws;
    } else {
      assert tail == [tail[0]];
      NameIsNoNumber(ws, tail[0], g.disp);
    }
  }

  // ----- the result of calc_sib

  /** The displacement a bracket asks for: its last number, negative if there is a minus sign. */
  function Displacement(text: string, d: int): (r: int) {
    var n := LastNumber(BracketWords(text), d);
    if '-' in text then -n else n
  }

  lemma {:induction false} StrChrExact(s: string, c: char, i: nat)
    requires i <= |s|
    ensures StrChr(s, c, i) == -1 <==> c !in s[i..]
    decreases |s| - i
  {
    if i < |s| {
      assert s[i..] == [s[i]] + s[i + 1..];
      if s[i] != c {
        StrChrExact(s, c, i + 1);
      }
    }
  }

  lemma Occurs(s: string, c: char)
    ensures StrChr(s, c, 0) == -1 <==> c !in s
  {
    StrChrExact(s, c, 0);
    assert s[0..] == s;
  }

  /** The class of the bracket's first name. */
  function BaseClass(text: string): (r: bv32)
    requires FirstName(BracketWords(text)).Some?
  {
    FirstName(BracketWords(text)).value
  }

  lemma CalcIsPlain(text: string, op: bv32) returns (g: Gather)
    requires '*' !in text && FirstName(BracketWords(text)).Some?
    ensures CalcSib(text, op) == PlainSib(OtherClass(text, op), g, '-' in text)
    ensures g.index == NoWidth(BaseClass(text)) && g.disp == LastNumber(BracketWords(text), OtherNumber(text, op))
  {
    Occurs(text, '*');
    Occurs(text, '-');
    var g0 := Gather(0, MINUS_ONE, MINUS_ONE, OtherNumber(text, op), 0);
    Gathered(text, g0);
    g := PlainTokens(text, 0, MARKS, g0);
  }

  /** The bytes of a bracket with a register. */
  lemma SibByte(op1: bv32, g: Gather, minus: bool, base: bv32)
    requires IsGeneral(op1) && IsGeneral(base) && g.index == NoWidth(base)
    ensures var a, d := PlainSib(op1, g, minus), if minus then -g.disp else g.disp;
            && a.sib == 0 && a.disp == d && Low(a.modrm) == PlainModRM(Bits3(op1), Bits3(base), d)
            && a.modrm >> 6 == (if d > 255 then 2 else if d != 0 || Bits3(base) == 5 then 1 else 0)
            && (a.modrm >> 3) & 0x7 == op1 & 0x7 && a.modrm < 0x100
  {
    GeneralBits(op1);
    GeneralBits(base);
    FiveIsFive(base);
    var d := if minus then -g.disp else g.disp;
    var mod: bv32 := if d > 255 then 2 else if d != 0 || base & 0x7 == 5 then 1 else 0;
    PlainIs(op1, g, minus, mod);
    ModeByte(mod, op1, base, Bits3(op1), Bits3(base), d);
  }

  lemma ModeByte(mod: bv32, op1: bv32, base: bv32, reg: nat, rm: nat, d: int)
    requires reg == Bits3(op1) && rm == Bits3(base)
    requires mod == if d > 255 then 2 else if d != 0 || rm == 5 then 1 else 0
    ensures var m := ModRM(mod, op1 & 0x7, base & 0x7);
            Low(m) == PlainModRM(reg, rm, d) && m >> 6 == mod && (m >> 3) & 0x7 == op1 & 0x7 && m < 0x100
  {
    ThreeBits(op1);
    ThreeBits(base);
    ModRMIs(mod, op1 & 0x7, base & 0x7);
  }

  lemma ThreeBits(c: bv32)
    ensures c & 0x7 < 8
  {
  }

  lemma PlainIs(op1: bv32, g: Gather, minus: bool, mod: bv32)
    requires var d := if minus then -g.disp else g.disp; mod == if d > 255 then 2 else if d != 0 || g.index == 5 then 1 else 0
    ensures PlainSib(op1, g, minus) == Sib(ModRM(mod, op1 & !(R8 | R32), g.index), 0, if minus then -g.disp else g.disp)
  {
  }

  lemma FiveIsFive(c: bv32)
    ensures c & 0x7 == 5 <==> Bits3(c) == 5
  {
  }

  lemma ModRMIs(mod: bv32, reg: bv32, rm: bv32)
    requires mod < 3 && reg < 8 && rm < 8
    ensures Low(ModRM(mod, reg, rm)) == 64 * (mod as int) + 8 * (reg as int) + rm as int
    ensures ModRM(mod, reg, rm) >> 6 == mod && (ModRM(mod, reg, rm) >> 3) & 0x7 == reg && ModRM(mod, reg, rm) < 0x100
  {
  }

  // ----- lines with a bracket

  /** A line of a mnemonic, a register, and a bracket up to its end. */
  ghost predicate LoadLine(line: string, mnemonic: string, register: string, text: string) {
    var t := NextToken(line, 0, " ,\t");
    && line[t.start..t.end] == mnemonic && DataWidth(mnemonic) == 0 && mnemonic[0] != ';' && t.start != Bracket(line) && t.next != -1
    && var u := NextToken(line, t.next, " ,\t");
       && line[u.start..u.end] == register && register != "" && register[0] != ';' && u.start != Bracket(line) && u.next != -1
       && var v := NextToken(line, u.next, " ,\t");
          v.start == Bracket(line) && v.start < v.end && line[v.start] != ';' && line[v.start..] == text
  }

  /** A line of a mnemonic and a bracket, which text and the other operand follow. */
  ghost predicate StoreLine(line: string, mnemonic: string, text: string) {
    var t := NextToken(line, 0, " ,\t");
    && line[t.start..t.end] == mnemonic && DataWidth(mnemonic) == 0 && mnemonic[0] != ';' && t.start != Bracket(line) && t.next != -1
    && var v := NextToken(line, t.next, " ,\t");
       v.start == Bracket(line) && v.start < v.end && line[v.start] != ';' && line[v.start..] == text
  }

  lemma ParseBracket(x: Syntax, line: string, pos: nat, o: Operands, text: string, env: Env, p: nat)
    requires pos <= |line| && o.shape.count > 0
    requires var v := NextToken(line, pos, " ,\t");
             v.start == Bracket(line) && v.start < v.end && line[v.start] != ';' && line[v.start..] == text
    ensures ParseTokens(x, line, pos, o, env, p) == Parsed(MemoryOperand(x, o.shape, text))
  {
  }

  lemma ParseStore(x: Syntax, line: string, mnemonic: string, text: string, env: Env, p: nat)
    requires StoreLine(line, mnemonic, text)
    ensures ParseTokens(x, line, 0, NO_OPERANDS, env, p) == Parsed(MemoryOperand(x, FirstOperands(mnemonic).shape, text))
  {
    var t := NextToken(line, 0, " ,\t");
    ParseBracket(x, line, t.next, FirstOperands(mnemonic), text, env, p);
  }

  lemma ParseLoad(x: Syntax, line: string, mnemonic: string, register: string, text: string, env: Env, p: nat)
    requires LoadLine(line, mnemonic, register, text)
    ensures ParseTokens(x, line, 0, NO_OPERANDS, env, p) ==
            Parsed(MemoryOperand(x, PlainOperand(x, FirstOperands(mnemonic), register, env, p).shape, text))
  {
    var t := NextToken(line, 0, " ,\t");
    var u := NextToken(line, t.next, " ,\t");
    var o := PlainOperand(x, FirstOperands(mnemonic), register, env, p);
    assert ParseTokens(x, line, 0, NO_OPERANDS, env, p) == ParseTokens(x, line, t.next, FirstOperands(mnemonic), env, p);
    assert ParseTokens(x, line, t.next, FirstOperands(mnemonic), env, p) == ParseTokens(x, line, u.next, o, env, p);
    ParseBracket(x, line, u.next, o, text, env, p);
  }

  // ----- their bytes

  /** A row whose bytes are an opcode and a ModR/M byte, and that takes no immediate. */
  predicate TakesModRM(row: Row) {
    && row.primary < 0x100 && row.extension != ALTERNATE
    && Form(row) != IMM8 && Form(row) != IMM32 && Form(row) != REL8 && Form(row) != REL32
  }

  /** The opcode, with the direction turned round for a store. */
  function OpcodeFor(row: Row, store: bool): (r: byte) {
    Low(if store then row.primary ^ 0x2 else row.primary)
  }

  lemma MemoryForm(row: Row, o: Shape)
    requires o.m != MINUS_ONE && row.extension != ALTERNATE && o.syn0 & REGISTER != 0 && o.syn0 & ANY_IMM == 0 && o.syn1 == R32
    ensures TwoOperandBytes(row, o) == Bytes2((o.m << 8) | (if o.rev then row.primary ^ 0x2 else row.primary))
  {
    assert R32 & REGISTER != 0;
  }

  lemma MemoryHead(row: Row, o: Shape)
    requires o.m < 0x100 && TakesModRM(row) && o.syn0 & REGISTER != 0 && o.syn0 & ANY_IMM == 0 && o.syn1 == R32 && o.sib == 0
    ensures HeadBytes(row, o) == Prefixes(row) + [OpcodeFor(row, o.rev), Low(o.m)]
  {
    var op := if o.rev then row.primary ^ 0x2 else row.primary;
    assert op < 0x100;
    MemoryForm(row, o);
    OpcodeThenModRM(o.m, op);
    HeadWith(row, o, [OpcodeFor(row, o.rev), Low(o.m)]);
  }

  lemma MemoryImmediate(row: Row, o: Operands, start: nat, here: nat, elf: int)
    requires TakesModRM(row)
    ensures ImmediateBytes(row, o, start, here, elf) == if o.shape.mode == 1 then [LowInt(o.immediate)] else Bytes4(o.immediate)
  {
  }

  /** A bracket whose first name is a register, and the other operand is a register. */
  predicate RegisterBracket(text: string, op: bv32) {
    && '*' !in text && FirstName(BracketWords(text)).Some? && IsGeneral(BaseClass(text))
    && IsGeneral(OtherClass(text, op))
  }

  ghost predicate BracketShapeBody(o: Operands, reg: bv32, base: bv32, d: int, store: bool, key: nat) {
    var s := o.shape;
    && s.m < 0x100 && s.sib == 0 && s.imm && s.rev == store && s.syn1 == R32 && IsGeneral(s.syn0) && o.immediate == d
    && Low(s.m) == PlainModRM(Bits3(reg), Bits3(base), d)
    && s.mode == if d > 255 then 2 else if d != 0 || Bits3(base) == 5 then 1 else 0
  }

  /** What a bracket with register `base` and displacement d, and register `reg`, parses to; opened by an instance. */
  ghost predicate BracketShape(o: Operands, reg: bv32, base: bv32, d: int, store: bool) {
    forall key: nat :: BracketShapeBody(o, reg, base, d, store, key)
  }

  lemma BracketParses(table: seq<Row>, s: Shape, text: string) returns (d: int)
    requires RegisterBracket(text, s.syn0) && s.syn1 == 0 && !s.rev && (s.syn0 == 0 || IsGeneral(s.syn0))
    ensures d == Displacement(text, OtherNumber(text, s.syn0))
    ensures BracketShape(MemoryOperand(Lass(table), s, text), OtherClass(text, s.syn0), BaseClass(text), d, s.syn0 == 0)
  {
    var op1, base := OtherClass(text, s.syn0), BaseClass(text);
    var g := CalcIsPlain(text, s.syn0);
    d := Displacement(text, OtherNumber(text, s.syn0));
    SibByte(op1, g, '-' in text, base);
    ShapeOfBracket(table, s, text, CalcSib(text, s.syn0), op1, base, d);
  }

  lemma ShapeOfBracket(table: seq<Row>, s: Shape, text: string, a: Sib, op1: bv32, base: bv32, d: int)
    requires a == CalcSib(text, s.syn0) && s.syn1 == 0 && !s.rev && (s.syn0 == 0 || IsGeneral(s.syn0))
    requires a.sib == 0 && a.disp == d && Low(a.modrm) == PlainModRM(Bits3(op1), Bits3(base), d)
    requires a.modrm >> 6 == (if d > 255 then 2 else if d != 0 || Bits3(base) == 5 then 1 else 0)
    requires (a.modrm >> 3) & 0x7 == op1 & 0x7 && a.modrm < 0x100
    ensures BracketShape(MemoryOperand(Lass(table), s, text), op1, base, d, s.syn0 == 0)
  {
    SlotIsGeneral(a.modrm);
  }

  lemma SlotIsGeneral(m: bv32)
    ensures IsGeneral(((m >> 3) & 0x7) | R32) && 0 | R32 == R32
  {
  }

  lemma BracketBytes(table: seq<Row>, row: Row, o: Operands, reg: bv32, base: bv32, d: int, store: bool, p: nat, elf: int)
    requires TakesModRM(row) && BracketShape(o, reg, base, d, store)
    ensures CodeBytes(Lass(table), row, o, p, elf) ==
            Prefixes(row) + [OpcodeFor(row, store)] + PlainBytes(Bits3(reg), Bits3(base), d)
  {
    assert BracketShapeBody(o, reg, base, d, store, 0);
    GeneralBits(o.shape.syn0);
    MemoryHead(row, o.shape);
    var head := Prefixes(row) + [OpcodeFor(row, store), Low(o.shape.m)];
    MemoryImmediate(row, o, p, p + |head|, elf);
    var tail := if o.shape.mode == 1 then [LowInt(d)] else Bytes4(d);
    OneMode(o.shape.mode, d, base);
    assert PlainBytes(Bits3(reg), Bits3(base), d) == [Low(o.shape.m)] + tail;
    Regroup(Prefixes(row), OpcodeFor(row, store), Low(o.shape.m), tail);
  }

  lemma OneMode(mode: bv32, d: int, base: bv32)
    requires mode == if d > 255 then 2 else if d != 0 || Bits3(base) == 5 then 1 else 0
    ensures mode == 1 <==> !(d > 255 || (d == 0 && Bits3(base) != 5))
  {
  }

  lemma Regroup(ps: seq<byte>, op: byte, m: byte, tail: seq<byte>)
    ensures ps + [op, m] + tail == ps + [op] + ([m] + tail)
  {
  }

  // ----- in the output of any text

  predicate IsInt(d: int) {
    -0x8000_0000 <= d < 0x8000_0000
  }

  lemma {:induction false} NumbersAreInts(ws: seq<string>, d: int)
    requires IsInt(d)
    ensures IsInt(LastNumber(Digest(ws), d))
    decreases |ws|
  {
    if ws != [] {
      var n := NumberOr(WordOf(ws[0]), d);
      assert IsInt(n);
      assert Digest(ws)[0] == WordOf(ws[0]);
      DigestAppend(ws[..1], ws[1..]);
      assert ws == ws[..1] + ws[1..] && Digest(ws)[1..] == Digest(ws[1..]);
      NumbersAreInts(ws[1..], n);
    }
  }

  lemma GeneralIsNoNumber(c: bv32)
    requires IsGeneral(c)
    ensures c & (IMM8 | IMM32) == 0 && c != 0 && c != MINUS_ONE && !IsConstant(c)
  {
  }

  /** The bytes are the opcode and an operand that reaches register base plus d exactly if that can be encoded. */
  ghost predicate ReachesExactly(bytes: seq<byte>, row: Row, store: bool, reg: nat, base: nat, d: int) {
    var head := Prefixes(row) + [OpcodeFor(row, store)];
    head <= bytes && (Reaches(bytes[|head|..], reg, base, d) <==> Encodable(base, d))
  }

  lemma BracketReaches(table: seq<Row>, row: Row, o: Operands, reg: bv32, base: bv32, d: int, store: bool, p: nat, elf: int)
    requires TakesModRM(row) && BracketShape(o, reg, base, d, store) && -0x8000_0000 <= d <= 0x8000_0000
    ensures ReachesExactly(CodeBytes(Lass(table), row, o, p, elf), row, store, Bits3(reg), Bits3(base), d)
  {
    BracketBytes(table, row, o, reg, base, d, store, p, elf);
    PlainReaches(Bits3(reg), Bits3(base), d);
    var head := Prefixes(row) + [OpcodeFor(row, store)];
    assert (head + PlainBytes(Bits3(reg), Bits3(base), d))[|head|..] == PlainBytes(Bits3(reg), Bits3(base), d);
  }

  /**
   Main result for loads: in the output of any text, a line of a mnemonic, a register and a bracket
   without a '*' reaches the address that the bracket's register and displacement make, exactly if
   the register is not esp and the displacement is a signed byte other than 0 or above 255; a
   displacement of 0 needs ebp.
   */
  lemma LoadInProgram(table: seq<Row>, row: Row, elf: int, texts: seq<string>, j: nat, mnemonic: string, register: string, text: string)
    requires j < |texts| && LineOf(texts[j]) == Code(texts[j]) && LoadLine(texts[j], mnemonic, register, text)
    requires IsGeneral(Classify(register)) && RegisterBracket(text, Classify(register))
    requires FindInstruction(table, mnemonic, Classify(register), R32) == Some(row) && TakesModRM(row)
    ensures ReachesExactly(LineSlice(EmitterOf(Lass(table)), elf, LinesOf(texts), j), row, false,
                           RegisterNumber(register), Bits3(BaseClass(text)), Displacement(text, 0))
  {
    var c := Classify(register);
    GeneralIsNoNumber(c);
    var s, p := LoadIsCode(table, row, elf, texts, j, mnemonic, register, text);
    var d := BracketParses(table, s, text);
    NumbersAreInts(Words(text, 0, MARKS), 0);
    BracketReaches(table, row, MemoryOperand(Lass(table), s, text), c, BaseClass(text), d, false, p, elf);
  }

  lemma LoadIsCode(table: seq<Row>, row: Row, elf: int, texts: seq<string>, j: nat, mnemonic: string, register: string, text: string)
    returns (s: Shape, p: nat)
    requires j < |texts| && LineOf(texts[j]) == Code(texts[j]) && LoadLine(texts[j], mnemonic, register, text)
    requires IsGeneral(Classify(register)) && FindInstruction(table, mnemonic, Classify(register), R32) == Some(row)
    ensures s.syn0 == Classify(register) && s.syn1 == 0 && !s.rev
    ensures LineSlice(EmitterOf(Lass(table)), elf, LinesOf(texts), j) ==
            CodeBytes(Lass(table), row, MemoryOperand(Lass(table), s, text), p, elf)
  {
    var emit, lines, x := EmitterOf(Lass(table)), LinesOf(texts), Lass(table);
    var env := FinalEnv(emit, elf, lines);
    p := Start(emit, lines, j);
    GeneralIsNoNumber(Classify(register));
    LineIsEmitted(table, elf, texts, j);
    ParseLoad(x, texts[j], mnemonic, register, text, env, p);
    OperandIs(table, FirstOperands(mnemonic), register, env, p);
    s := PlainOperand(x, FirstOperands(mnemonic), register, env, p).shape;
    EmitParsed(x, env, p, texts[j], mnemonic, MemoryOperand(x, s, text));
    SlotIsGeneral(0);
  }

  /**
   The same for stores, a bracket and then a register.  The row is looked up for a 32-bit register
   whatever the width of the one that was written.
   */
  lemma StoreInProgram(table: seq<Row>, row: Row, elf: int, texts: seq<string>, j: nat, mnemonic: string, text: string)
    requires j < |texts| && LineOf(texts[j]) == Code(texts[j]) && StoreLine(texts[j], mnemonic, text)
    requires RegisterBracket(text, 0)
    requires FindInstruction(table, mnemonic, (OtherClass(text, 0) & 0x7) | R32, R32) == Some(row) && TakesModRM(row)
    ensures ReachesExactly(LineSlice(EmitterOf(Lass(table)), elf, LinesOf(texts), j), row, true,
                           Bits3(OtherClass(text, 0)), Bits3(BaseClass(text)), Displacement(text, 0))
  {
    var s, p := FirstOperands(mnemonic).shape, Start(EmitterOf(Lass(table)), LinesOf(texts), j);
    StoreIsCode(table, row, elf, texts, j, mnemonic, text);
    StoreSlot(table, s, text);
    var d := BracketParses(table, s, text);
    NumbersAreInts(Words(text, 0, MARKS), 0);
    BracketReaches(table, row, MemoryOperand(Lass(table), s, text), OtherClass(text, 0), BaseClass(text), d, true, p, elf);
  }

  lemma StoreIsCode(table: seq<Row>, row: Row, elf: int, texts: seq<string>, j: nat, mnemonic: string, text: string)
    requires j < |texts| && LineOf(texts[j]) == Code(texts[j]) && StoreLine(texts[j], mnemonic, text) && RegisterBracket(text, 0)
    requires FindInstruction(table, mnemonic, (OtherClass(text, 0) & 0x7) | R32, R32) == Some(row)
    ensures LineSlice(EmitterOf(Lass(table)), elf, LinesOf(texts), j) ==
            CodeBytes(Lass(table), row, MemoryOperand(Lass(table), FirstOperands(mnemonic).shape, text),
                      Start(EmitterOf(Lass(table)), LinesOf(texts), j), elf)
  {
    var emit, lines, x := EmitterOf(Lass(table)), LinesOf(texts), Lass(table);
    var env, p, s := FinalEnv(emit, elf, lines), Start(emit, lines, j), FirstOperands(mnemonic).shape;
    LineIsEmitted(table, elf, texts, j);
    ParseStore(x, texts[j], mnemonic, text, env, p);
    StoreSlot(table, s, text);
    EmitParsed(x, env, p, texts[j], mnemonic, MemoryOperand(x, s, text));
  }

  lemma StoreSlot(table: seq<Row>, s: Shape, text: string)
    requires RegisterBracket(text, 0) && s.syn0 == 0 && s.syn1 == 0
    ensures var r := MemoryOperand(Lass(table), s, text).shape;
            r.syn0 == (OtherClass(text, 0) & 0x7) | R32 && r.syn1 == R32 && r.inst == s.inst
    ensures OtherNumber(text, 0) == 0
  {
    var g := CalcIsPlain(text, 0);
    SibByte(OtherClass(text, 0), g, '-' in text, BaseClass(text));
    GeneralIsNoNumber(OtherClass(text, 0));
    SlotIsGeneral(CalcSib(text, 0).modrm);
  }

  // ----- a failing input

  const MOV := Row("mov", R32, R32, 0x8B, 0, 0, 0)
  const LOAD := "mov eax, [ebx]"

  lemma {:induction false} BreakAt(s: string, pos: nat, d: string, k: nat)
    requires pos <= k <= |s| && (k < |s| ==> s[k] in d) && forall i :: pos <= i < k ==> s[i] !in d
    ensures Break(s, pos, d) == k
    decreases k - pos
  {
    if pos < k {
      BreakAt(s, pos + 1, d, k);
    }
  }

  lemma TokenAt(s: string, pos: nat, d: string, start: nat, end: nat)
    requires pos <= start < end <= |s| && (start == pos || (start == pos + 1 && s[pos] in d)) && (end < |s| ==> s[end] in d)
    requires forall i :: start <= i < end ==> s[i] !in d
    ensures NextToken(s, pos, d) == Token(start, end, if end < |s| then end + 1 else -1)
  {
    assert Span(s, start, d) == start;
    assert Span(s, pos, d) == start;
    BreakAt(s, start + 1, d, end);
  }

  lemma LoadTokens()
    ensures var s := LOAD;
            && |s| == 14 && NextToken(s, 0, " ,\t") == Token(0, 3, 4) && NextToken(s, 4, " ,\t") == Token(4, 7, 8)
            && NextToken(s, 8, " ,\t") == Token(9, 14, -1)
  {
    TokenAt(LOAD, 0, " ,\t", 0, 3);
    TokenAt(LOAD, 4, " ,\t", 4, 7);
    TokenAt(LOAD, 8, " ,\t", 9, 14);
  }

  lemma LoadIsLine()
    ensures LoadLine(LOAD, "mov", "eax", "[ebx]") && LineOf(LOAD) == Code(LOAD)
  {
    LoadTokens();
    assert LOAD[0..3] == "mov" && LOAD[4..7] == "eax" && LOAD[9..] == "[ebx]" && LOAD[9] == '[';
    BracketAt(LOAD, 9);
    LoadIsCodeLine();
  }

  lemma LoadIsCodeLine()
    ensures LineOf(LOAD) == Code(LOAD)
  {
    Occurs(LOAD, ':');
  }

  lemma BracketAt(s: string, k: nat)
    requires 1 <= k < |s| && s[k] == '[' && forall i :: 1 <= i < k ==> s[i] != '['
    ensures Bracket(s) == k
  {
    FirstAt(s, '[', 1, k);
  }

  lemma {:induction false} FirstAt(s: string, c: char, i: nat, k: nat)
    requires i <= k < |s| && s[k] == c && forall j :: i <= j < k ==> s[j] != c
    ensures StrChr(s, c, i) == k
    decreases k - i
  {
    if i < k {
      FirstAt(s, c, i + 1, k);
    }
  }

  lemma BracketHasEbx()
    ensures Words("[ebx]", 0, MARKS) == ["ebx"]
  {
    var s := "[ebx]";
    BreakAt(s, 0, MARKS, 0);
    BreakAt(s, 1, MARKS, 4);
    BreakAt(s, 5, MARKS, 5);
    assert Fields(s, 5, MARKS) == [""] by {
      assert s[5..5] == "";
    }
    assert Fields(s, 1, MARKS) == ["ebx"] + [""] by {
      assert s[1..4] == "ebx";
    }
    assert Fields(s, 0, MARKS) == [""] + ["ebx", ""] by {
      assert s[0..0] == "";
    }
    NonEmptyCons("", ["ebx", ""]);
    NonEmptyCons("ebx", [""]);
    NonEmptyCons("", []);
  }

  lemma EaxAndEbx()
    ensures Classify("eax") == R32 && IsGeneral(Classify("ebx")) && Bits3(Classify("ebx")) == 3
  {
    RegisterNames(0);
    RegisterNames(3);
    assert REGISTERS[0].name == "eax" && REGISTERS[3].name == "ebx";
    ZeroBits(Classify("eax"));
  }

  lemma ZeroBits(c: bv32)
    requires c == (c & 0x7) | R32 && Bits3(c) == 0
    ensures c == R32
  {
  }

  lemma EbxBracket()
    ensures RegisterBracket("[ebx]", R32) && Bits3(BaseClass("[ebx]")) == 3 && Displacement("[ebx]", 0) == 0
  {
    BracketHasEbx();
    EaxAndEbx();
    assert !StartsWithDigit("ebx");
    assert Digest(["ebx"]) == [NameWord(Classify("ebx"))];
    assert [NameWord(Classify("ebx"))][1..] == [];
    assert OtherOperand("[ebx]", R32) == None;
  }

  lemma MovFound()
    ensures FindInstruction([MOV], "mov", R32, R32) == Some(MOV) && TakesModRM(MOV)
  {
    FirstRowAt([MOV], "mov", R32, R32, 0, 0);
  }

  /** A failing input: mov eax, [ebx] does not become a load from ebx: four bytes too many follow it. */
  lemma LoadMissesItsAddress()
    ensures var bytes := LineSlice(EmitterOf(Lass([MOV])), 0, LinesOf([LOAD]), 0);
            |bytes| >= 1 && !Reaches(bytes[1..], 0, 3, 0)
  {
    LoadIsLine();
    EaxAndEbx();
    EbxBracket();
    MovFound();
    LoadInProgram([MOV], MOV, 0, [LOAD], 0, "mov", "eax", "[ebx]");
  }
}
