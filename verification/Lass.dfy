/**
 The two-pass assembler: what one source line emits.

 C's `int` operand classes and ModR/M values are 32-bit words (`bv32`), -1 being all
 ones; immediates and positions are integers, reduced to bytes only when written.
 strcmp compares as many characters as its first argument has, so every lookup matches
 a table name against the front of the token.
 */
module LassSpec {
  import opened Common
  import opened NumberSpec
  import opened StrtokSpec
  import opened TwoPass

  const R32: bv32 := 0x10
  const R8: bv32 := 0x20
  const IMM8: bv32 := 0x40
  const IMM32: bv32 := 0x80
  const REL8: bv32 := 0x200
  const REL32: bv32 := 0x400
  const SREG: bv32 := 0x1000
  const ANY_IMM: bv32 := 0x6C0  // imm8 | imm32 | rel8 | rel32
  const NONE: bv32 := 0
  const MINUS_ONE: bv32 := 0xFFFF_FFFF
  const ALTERNATE: bv32 := 0xDEAD

  /** A row of the instruction table. */
  datatype Row = Row(name: string, op1: bv32, op2: bv32, primary: bv32, extension: bv32, secondary: bv32, prefix: bv32)

  function Low(x: bv32): (b: byte) {
    ((x & 0xFF) as bv8) as int
  }

  function LowInt(x: int): (b: byte) {
    x % 256
  }

  function Bytes2(x: bv32): (r: seq<byte>)
    ensures |r| == 2
  {
    [Low(x), Low(x >> 8)]
  }

  function Bytes4(x: int): (r: seq<byte>)
    ensures |r| == 4
  {
    [LowInt(x), LowInt(x / 0x100), LowInt(x / 0x1_0000), LowInt(x / 0x100_0000)]
  }

  /** A `long long` stored in an `int`. */
  function ToInt(x: int): (r: int)
    ensures -0x8000_0000 <= r < 0x8000_0000
  {
    var u := x % 0x1_0000_0000;
    if u < 0x8000_0000 then u else u - 0x1_0000_0000
  }

  function ModRM(mod: bv32, reg: bv32, rm: bv32): bv32 {
    ((mod & 0x3) << 6) | ((reg & 0x7) << 3) | (rm & 0x7)
  }

  // ----- classify

  datatype Named = Named(name: string, code: bv32)

  const REGISTERS: seq<Named> := [
    Named("eax", 0), Named("ecx", 1), Named("edx", 2), Named("ebx", 3),
    Named("esp", 4), Named("ebp", 5), Named("esi", 6), Named("edi", 7),
    Named("ax", 0), Named("cx", 1), Named("dx", 2), Named("bx", 3),
    Named("sp", 4), Named("bp", 5), Named("si", 6), Named("di", 7)]

  const HALF: seq<Named> := [
    Named("al", 0), Named("cl", 1), Named("dl", 2), Named("bl", 3),
    Named("ah", 0), Named("ch", 1), Named("dh", 2), Named("bh", 3)]

  const SEGMENTS: seq<Named> := [
    Named("ss", 2), Named("cs", 1), Named("es", 0), Named("fs", 4), Named("gs", 5), Named("ds", 3)]

  function FindName(names: seq<Named>, s: string, i: nat): (r: Option<bv32>)
    requires i <= |names|
    decreases |names| - i, s
  {
    if i == |names| then None
    else if names[i].name <= s then Some(names[i].code)
    else FindName(names, s, i + 1)
  }

  predicate StartsWithDigit(s: string) {
    s != "" && IsDigit(s[0])
  }

  /** classify with these three tables of names. */
  function ClassifyIn(registers: seq<Named>, half: seq<Named>, segments: seq<Named>, s: string): (r: bv32) {
    if StartsWithDigit(s) then
      var n := ToInt(LassAtoi(s));
      if n > 255 || n < -255 then IMM32 else IMM8
    else match FindName(registers, s, 0)
    case Some(c) => c | R32
    case None =>
      match FindName(half, s, 0)
      case Some(c) => c | R8
      case None =>
        match FindName(segments, s, 0)
        case Some(c) => c | SREG
        case None => MINUS_ONE
  }

  function Classify(s: string): (r: bv32) {
    ClassifyIn(REGISTERS, HALF, SEGMENTS, s)
  }

  // ----- calc_sib

  /** First position of c from i on, or -1. */
  function StrChr(s: string, c: char, i: nat): (r: int)
    requires i <= |s|
    ensures r == -1 || i <= r < |s|
    decreases |s| - i
  {
    if i == |s| then -1 else if s[i] == c then i else StrChr(s, c, i + 1)
  }

  datatype Sib = Sib(modrm: bv32, sib: bv32, disp: int)

  /** What the token loop of calc_sib has gathered; `c` counts the tokens that are not numbers. */
  datatype Gather = Gather(c: nat, index: bv32, base: bv32, disp: int, scale: int)

  /** One token of calc_sib's loop without a '*'. */
  function PlainToken(g: Gather, tok: string): Gather {
    if StartsWithDigit(tok) then g.(disp := ToInt(LassAtoi(tok)))
    else Gather(g.c + 1,
                if g.c == 0 then Classify(tok) & !(R32 | R8) else g.index,
                if g.c == 1 then Classify(tok) else g.base, g.disp, g.scale)
  }

  function PlainTokens(s: string, pos: nat, d: string, g: Gather): (r: Gather)
    requires pos <= |s|
    decreases |s| - pos
  {
    var t := NextToken(s, pos, d);
    var g' := PlainToken(g, s[t.start..t.end]);
    if t.next == -1 then g' else PlainTokens(s, t.next, " [+-],*", g')
  }

  /** One token of calc_sib's loop with a '*' at `star` and a '+' at `plus` (-1 if there is none). */
  function ScaledToken(g: Gather, tok: string, start: int, plus: int, star: int): Gather {
    if StartsWithDigit(tok) then
      var n := ToInt(LassAtoi(tok));
      var g' := if plus < star && start < plus then g.(disp := n) else g;
      if plus < star && start > plus then g'.(scale := n) else g'
    else Gather(g.c + 1,
                if g.c == 0 then Classify(tok) else g.index,
                if g.c == 1 then Classify(tok) else g.base, g.disp, g.scale)
  }

  function ScaledTokens(s: string, pos: nat, g: Gather, plus: int, star: int): (r: Gather)
    requires pos <= |s|
    decreases |s| - pos
  {
    var t := NextToken(s, pos, " [+],*");
    var g' := ScaledToken(g, s[t.start..t.end], t.start, plus, star);
    if t.next == -1 then g' else ScaledTokens(s, t.next, g', plus, star)
  }

  /** Number of halvings, truncating, until zero; minus one is zero at once. */
  function Log2(s: int): nat
    decreases if s < 0 then -s else s
  {
    if -2 < s < 2 then 0 else 1 + Log2(if s < 0 then -(-s / 2) else s / 2)
  }

  /** The second operand of a line whose first is in memory: what follows the comma. */
  function AfterComma(s: string, i: nat): (r: string)
    requires i <= |s|
    decreases |s| - i
  {
    if i < |s| && (s[i] == ' ' || s[i] == ',') then AfterComma(s, i + 1) else s[i..]
  }

  /** calc_sib's other operand, when it was not given. */
  function OtherOperand(line: string, op: bv32): (r: Option<string>) {
    var comma := StrChr(line, ',', 0);
    if op == 0 && comma != -1 then Some(AfterComma(line, comma)) else None
  }

  function OtherClass(line: string, op: bv32): (r: bv32) {
    match OtherOperand(line, op)
    case Some(w) => Classify(w)
    case None => op
  }

  function OtherNumber(line: string, op: bv32): (r: int) {
    match OtherOperand(line, op)
    case Some(w) => if Classify(w) & (IMM8 | IMM32) != 0 then ToInt(LassAtoi(w)) else 0
    case None => 0
  }

  /** Without a '*': no SIB byte. */
  function PlainSib(op1: bv32, g: Gather, minus: bool): (r: Sib) {
    if g.disp != 0 then
      var disp := if minus then -g.disp else g.disp;
      Sib(ModRM(if disp > 255 then 2 else 1, op1 & !(R8 | R32), g.index), 0, disp)
    else
      Sib(ModRM(if g.index == 5 then 1 else 0, op1 & !(R8 | R32), g.index), 0, 0)
  }

  function ScaledSib(op1: bv32, g: Gather): (r: Sib) {
    var both := g.index != 0 && g.base != 0;
    var mod: bv32 := if both then (if g.index & R32 != 0 then 2 else 1) else 0;
    var index := if both then g.index & !(R8 | R32) else g.index;
    var base := if both then g.base & !(R8 | R32) else g.base;
    var noBase := base == MINUS_ONE;
    Sib(ModRM(if noBase then 0 else mod, op1, 4),
        ModRM((Log2(g.scale) % 4) as bv32, index, if noBase then 5 else base), g.disp)
  }

  function CalcSib(line: string, op: bv32): (r: Sib) {
    var op1, disp0 := OtherClass(line, op), OtherNumber(line, op);
    var plus, minus, star := StrChr(line, '+', 0), StrChr(line, '-', 0), StrChr(line, '*', 0);
    if star == -1 then
      PlainSib(op1, PlainTokens(line, 0, " [+-],", Gather(0, MINUS_ONE, MINUS_ONE, disp0, 0)), minus != -1)
    else
      ScaledSib(op1, ScaledTokens(line, 0, Gather(0, MINUS_ONE, MINUS_ONE, disp0, -1), plus, star))
  }

  // ----- find_symbol

  function FindSymbol(env: Env, position: nat, name: string): (r: int) {
    match Lookup(env.symbols, name, 0)
    case Some(p) => p + env.elf
    case None =>
      if "$$" <= name then 0
      else if name <= "$" then position + env.elf
      else position
  }

  /** find_symbol records the label for later patching. */
  predicate Unresolved(env: Env, name: string) {
    Lookup(env.symbols, name, 0).None? && !("$$" <= name) && !(name <= "$")
  }

  // ----- find_instruction

  predicate FirstMatch(row: Row, s: string, op1: bv32, op2: bv32) {
    && row.name <= s
    && if op1 & SREG != 0 then row.op1 == op1 && (row.op2 == op2 || row.op2 == NONE)
       else ((row.op1 & op1) == row.op1 && (row.op2 == op2 || row.op2 == NONE)) || (row.op1 == NONE && row.op2 == NONE)
  }

  predicate SecondMatch(row: Row, s: string, op1: bv32, op2: bv32) {
    && row.name <= s
    && (row.op1 & op1) == row.op1
    && ((row.op2 & (if op2 & (IMM8 | REL8) != 0 then ANY_IMM else op2)) != 0 || row.op2 == NONE)
  }

  function FirstRow(table: seq<Row>, s: string, op1: bv32, op2: bv32, i: nat): (r: Option<Row>)
    requires i <= |table|
    decreases |table| - i
  {
    if i == |table| then None
    else if FirstMatch(table[i], s, op1, op2) then Some(table[i])
    else FirstRow(table, s, op1, op2, i + 1)
  }

  function SecondRow(table: seq<Row>, s: string, op1: bv32, op2: bv32, i: nat): (r: Option<Row>)
    requires i <= |table|
    decreases |table| - i
  {
    if i == |table| then None
    else if SecondMatch(table[i], s, op1, op2) then Some(table[i])
    else SecondRow(table, s, op1, op2, i + 1)
  }

  function FindInstruction(table: seq<Row>, s: string, op1: bv32, op2: bv32): (r: Option<Row>) {
    var r := FirstRow(table, s, op1, op2, 0);
    if r.Some? then r else SecondRow(table, s, op1, op2, 0)
  }

  // ----- opcode and ModR/M

  /** parse_line's variables, except for the value of the immediate. */
  datatype Shape = Shape(inst: string, count: nat, syn0: bv32, syn1: bv32, imm: bool,
                         m: bv32, mode: bv32, sib: bv32, rev: bool)

  const REGISTER: bv32 := 0x1030  // r32 | r8 | sreg

  /** Opcode and ModR/M of a line with two operands. */
  function TwoOperandBytes(row: Row, o: Shape): (r: seq<byte>) {
    var regs := o.syn0 & REGISTER != 0 && o.syn1 & REGISTER != 0;
    var regImm := !regs && o.syn0 & (R32 | R8) != 0 && o.syn1 & ANY_IMM != 0;
    var m1 := if o.m != MINUS_ONE then o.m
              else if regs then ModRM(o.mode, o.syn0, o.syn1)
              else if regImm then ModRM(o.mode, row.extension, o.syn0)
              else o.m;
    // The macro applies `&= 7` to the operand it takes as a register.
    var syn0 := if o.m == MINUS_ONE && (regs || regImm) then o.syn0 & 0x7 else o.syn0;
    var m2 := if syn0 & ANY_IMM != 0 then ModRM(o.mode, row.extension, 0) else m1;
    var op := if o.rev then row.primary ^ 0x2 else row.primary;
    if row.extension == ALTERNATE then [Low((op & !0x7) | (syn0 & !(R32 | R8)))]
    else Bytes2((m2 << 8) | op)
  }

  /** Opcode, and ModR/M for a register, of a line with at most one operand. */
  function OneOperandBytes(row: Row, o: Shape): (r: seq<byte>) {
    if row.extension == ALTERNATE && o.m == MINUS_ONE then [Low((row.primary & !0x7) | (o.syn0 & !REGISTER))]
    else if o.syn0 == 0 || o.syn0 & ANY_IMM != 0 || o.syn0 & SREG != 0 then [Low(row.primary)]
    else
      var m := if o.m == MINUS_ONE then ModRM(o.mode, row.extension, o.syn0 & !REGISTER) else o.m;
      Bytes2((m << 8) | row.primary)
  }

  function HeadBytes(row: Row, o: Shape): (r: seq<byte>) {
    (if row.secondary != 0 then [Low(row.secondary)] else [])
    + (if row.prefix != 0 then [0x0F] else [])
    + (if o.syn1 != 0 then TwoOperandBytes(row, o) else OneOperandBytes(row, o))
    + (if o.sib != 0 then [Low(o.sib)] else [])
  }

  // ----- data

  function TextBytes(s: string): (r: seq<byte>) {
    if s == "" then [] else [LowInt(s[0] as int)] + TextBytes(s[1..])
  }

  function DataToken(width: nat, tok: string): (r: seq<byte>) {
    var n := ToInt(LassAtoi(tok));
    if StartsWithDigit(tok) then
      (if width == 1 then [LowInt(n)] else if width == 2 then [LowInt(n), LowInt(n / 0x100)] else Bytes4(n))
    else if width == 1 then TextBytes(tok)
    else []
  }

  // ----- the leaves of parse_line, gathered

  /**
   How tokens are classified and read, what a memory operand turns into, which row an
   instruction takes, its opcode bytes, and what a token of a data line emits.
   */
  datatype Syntax = Syntax(classify: string -> bv32,
                           number: string -> int,
                           memory: (string, bv32) -> Sib,
                           find: (string, bv32, bv32) -> Option<Row>,
                           head: (Row, Shape) -> seq<byte>,
                           data: (nat, string) -> seq<byte>)

  /** The assembler's own, for an instruction table. */
  function Lass(table: seq<Row>): Syntax {
    Syntax(s => Classify(s), s => ToInt(LassAtoi(s)), (s, op) => CalcSib(s, op),
           (s, op1, op2) => FindInstruction(table, s, op1, op2),
           (row, o) => HeadBytes(row, o), (width, s) => DataToken(width, s))
  }

  // ----- the operand loop of parse_line

  datatype Operands = Operands(shape: Shape, immediate: int)

  const NO_OPERANDS := Operands(Shape("", 0, 0, 0, false, MINUS_ONE, 3, 0, false), 0)

  /** The loop ends normally, or writes past the two operand slots, or never sets the mnemonic. */
  datatype Parsed = Parsed(ops: Operands) | Undefined

  /** A memory operand, read from the bracket to the end of the line. */
  function MemoryOperand(x: Syntax, s: Shape, displacement: string): Operands {
    var a := x.memory(displacement, s.syn0);
    var first := s.syn0 == 0;
    Operands(s.(m := a.modrm, sib := a.sib, mode := a.modrm >> 6, imm := true,
                syn1 := s.syn1 | R32,
                syn0 := if first then ((a.modrm >> 3) & 0x7) | R32 else s.syn0,
                rev := s.rev || first),
             a.disp)
  }

  predicate IsLabel(n: bv32) {
    n == MINUS_ONE
  }

  predicate IsNumber(n: bv32) {
    n & (IMM8 | IMM32) != 0
  }

  /** An operand of class n in the next free slot. */
  function WithOperand(s: Shape, n: bv32): Shape {
    var operand := if IsLabel(n) then REL8 else n;
    var s' := s.(imm := s.imm || IsLabel(n) || IsNumber(n), count := s.count + 1);
    if s.count == 1 then s'.(syn0 := operand) else s'.(syn1 := operand)
  }

  /** The immediate after an operand of class n: the label's address, the number, or what it was. */
  function NextImmediate(immediate: int, n: bv32, number: int, address: int): int {
    if IsLabel(n) then address else if IsNumber(n) then number else immediate
  }

  /** A register, number or label; anything that is none of the first two is a label. */
  function PlainOperand(x: Syntax, o: Operands, tok: string, env: Env, position: nat): Operands {
    var n := x.classify(tok);
    Operands(WithOperand(o.shape, n),
             NextImmediate(o.immediate, n, x.number(tok), ToInt(FindSymbol(env, position, tok))))
  }

  /** Position of the first '[' after the first character, or -1. */
  function Bracket(line: string): (r: int) {
    if line == "" then -1 else StrChr(line, '[', 1)
  }

  function Finished(o: Operands): Parsed {
    if o.shape.count == 0 then Undefined else Parsed(o)
  }

  function ParseTokens(x: Syntax, line: string, pos: int, o: Operands, env: Env, position: nat): (r: Parsed)
    requires pos <= |line|
    decreases if pos < 0 then 0 else |line| - pos + 1
  {
    if pos < 0 then Finished(o) else
    var t := NextToken(line, pos, " ,\t");
    var tok := line[t.start..t.end];
    if tok != "" && tok[0] == ';' then Finished(o)
    else if t.start == Bracket(line) then
      (if o.shape.count == 0 then Undefined else Parsed(MemoryOperand(x, o.shape, line[t.start..])))
    else if o.shape.count == 0 then
      ParseTokens(x, line, t.next, o.(shape := o.shape.(inst := tok, count := 1)), env, position)
    else if o.shape.count >= 3 then Undefined
    else ParseTokens(x, line, t.next, PlainOperand(x, o, tok, env, position), env, position)
  }

  // ----- encoding

  /** The immediate, written at position `here` of a line that started at `start`. */
  function ImmediateBytes(row: Row, o: Operands, start: nat, here: nat, elf: int): (r: seq<byte>) {
    var form := if row.op2 == NONE then row.op1 else row.op2;
    var relative := o.immediate - here - (here - start) - elf;
    if form == IMM8 then [LowInt(o.immediate)]
    else if form == IMM32 then Bytes4(o.immediate)
    else if form == REL8 then [LowInt(relative)]
    else if form == REL32 then Bytes4(relative)
    else if o.shape.mode == 1 then [LowInt(o.immediate)]
    else Bytes4(o.immediate)
  }

  function CodeBytes(x: Syntax, row: Row, o: Operands, start: nat, elf: int): (r: seq<byte>) {
    var head := x.head(row, o.shape);
    head + if o.shape.imm then ImmediateBytes(row, o, start, start + |head|, elf) else []
  }

  // ----- db, dw, dd

  function DataBytes(x: Syntax, width: nat, line: string, pos: int): (r: seq<byte>)
    requires pos <= |line|
    decreases if pos < 0 then 0 else |line| - pos + 1
  {
    if pos < 0 then [] else
    var t := NextToken(line, pos, ", '\"");
    x.data(width, line[t.start..t.end]) + DataBytes(x, width, line, t.next)
  }

  /** 1, 2 or 4 for a line that starts with (a front part of) db, dw or dd; 0 for code. */
  function DataWidth(tok: string): (r: nat) {
    if tok <= "db" then 1 else if tok <= "dw" then 2 else if tok <= "dd" then 4 else 0
  }

  /** What a parsed code line emits: nothing when the instruction is not recognised. */
  function Encode(x: Syntax, o: Operands, position: nat, elf: int): (r: seq<byte>) {
    match x.find(o.shape.inst, o.shape.syn0, o.shape.syn1)
    case None => []
    case Some(row) => CodeBytes(x, row, o, position, elf)
  }

  /** Everything parse_line emits for a line that starts at `position`; None when its behaviour is undefined. */
  function LineBytes(x: Syntax, env: Env, position: nat, line: string): (r: Option<seq<byte>>) {
    var t := NextToken(line, 0, " ,\t");
    var width := DataWidth(line[t.start..t.end]);
    if width != 0 then Some(DataBytes(x, width, line, t.next)) else
    match ParseTokens(x, line, 0, NO_OPERANDS, env, position)
    case Undefined => None
    case Parsed(o) => Some(Encode(x, o, position, env.elf))
  }
}
