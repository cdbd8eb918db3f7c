/**
 The assembler's central law: what a line emits never depends in length on what its
 labels resolve to, so positions recorded in pass 1 are right in pass 2.
 */
module LassProofs {
  import opened Common
  import opened NumberSpec
  import opened StrtokSpec
  import opened TwoPass
  import opened LassSpec

  // ----- one line

  /** The operand loop reaches the same shape with any symbols, at any position. */
  lemma {:induction false} ParseShape(x: Syntax, line: string, pos: int, a: Operands, b: Operands, env: Env, p: nat, env': Env, p': nat)
    requires pos <= |line| && a.shape == b.shape
    ensures var r, r' := ParseTokens(x, line, pos, a, env, p), ParseTokens(x, line, pos, b, env', p');
            (r.Undefined? <==> r'.Undefined?) && (r.Parsed? ==> r.ops.shape == r'.ops.shape)
    decreases if pos < 0 then 0 else |line| - pos + 1
  {
    if pos >= 0 {
      var t := NextToken(line, pos, " ,\t");
      var tok := line[t.start..t.end];
      if tok != "" && tok[0] == ';' {
      } else if t.start == Bracket(line) {
      } else if a.shape.count == 0 {
        var s := a.shape.(inst := tok, count := 1);
        ParseShape(x, line, t.next, a.(shape := s), b.(shape := s), env, p, env', p');
      } else if a.shape.count < 3 {
        ParseShape(x, line, t.next, PlainOperand(x, a, tok, env, p), PlainOperand(x, b, tok, env', p'), env, p, env', p');
      }
    }
  }

  lemma ImmediateLength(row: Row, a: Operands, b: Operands, start: nat, here: nat, elf: int, start': nat, here': nat, elf': int)
    requires a.shape == b.shape
    ensures |ImmediateBytes(row, a, start, here, elf)| == |ImmediateBytes(row, b, start', here', elf')|
  {
  }

  lemma CodeLength(x: Syntax, row: Row, a: Operands, b: Operands, start: nat, elf: int, start': nat, elf': int)
    requires a.shape == b.shape
    ensures |CodeBytes(x, row, a, start, elf)| == |CodeBytes(x, row, b, start', elf')|
  {
    var n := |x.head(row, a.shape)|;
    ImmediateLength(row, a, b, start, start + n, elf, start', start' + n, elf');
  }

  lemma EncodeLength(x: Syntax, a: Operands, b: Operands, start: nat, elf: int, start': nat, elf': int)
    requires a.shape == b.shape
    ensures |Encode(x, a, start, elf)| == |Encode(x, b, start', elf')|
  {
    var f := x.find(a.shape.inst, a.shape.syn0, a.shape.syn1);
    if f.Some? {
      CodeLength(x, f.value, a, b, start, elf, start', elf');
    }
  }

  /** Whatever the labels resolve to and wherever the line lies, it emits the same number of bytes. */
  lemma LineLength(x: Syntax, line: string, env: Env, p: nat, env': Env, p': nat)
    ensures var r, r' := LineBytes(x, env, p, line), LineBytes(x, env', p', line);
            (r.None? <==> r'.None?) && (r.Some? ==> |r.value| == |r'.value|)
  {
    ParseShape(x, line, 0, NO_OPERANDS, NO_OPERANDS, env, p, env', p');
    var r, r' := ParseTokens(x, line, 0, NO_OPERANDS, env, p), ParseTokens(x, line, 0, NO_OPERANDS, env', p');
    if r.Parsed? {
      EncodeLength(x, r.ops, r'.ops, p, env.elf, p', env'.elf);
    }
  }

  // ----- all lines

  function Emit(x: Syntax, env: Env, p: nat, text: string): (r: seq<byte>) {
    match LineBytes(x, env, p, text)
    case None => []
    case Some(bytes) => bytes
  }

  function EmitterOf(x: Syntax): Emitter {
    (env, p, text) => Emit(x, env, p, text)
  }

  lemma EmitterIsStable(x: Syntax)
    ensures Stable(EmitterOf(x))
  {
    forall env, p, env', p', text
      ensures |EmitterOf(x)(env, p, text)| == |EmitterOf(x)(env', p', text)|
    {
      LineLength(x, text, env, p, env', p');
    }
  }

  // ----- the source text

  /** The pieces of the text between newlines, from position pos on. */
  function Segments(text: string, pos: nat): (r: seq<string>)
    requires pos <= |text|
    ensures |r| >= 1
    decreases |text| - pos
  {
    var i := StrChr(text, '\n', pos);
    if i == -1 then [text[pos..]] else [text[pos..i]] + Segments(text, i + 1)
  }

  /** The lines of the text; a final newline does not start another one. */
  function TextLines(text: string): (r: seq<string>)
    ensures |r| >= 1
  {
    var all := Segments(text, 0);
    if |all| > 1 && all[|all| - 1] == "" then all[..|all| - 1] else all
  }

  /**
   The lines `pass` works on.  Its list starts out with the first line, but the first
   newline that is followed by anything overwrites that entry instead of appending.
   */
  function SourceLines(text: string): (r: seq<string>)
    ensures |r| >= 1
  {
    var all := TextLines(text);
    if |all| == 1 then all else all[1..]
  }

  /** So the whole text is assembled exactly when it is a single line; otherwise the first line is lost. */
  lemma FirstLineLost(text: string)
    ensures SourceLines(text) == TextLines(text) <==> |TextLines(text)| == 1
    ensures |TextLines(text)| > 1 ==> TextLines(text) == [TextLines(text)[0]] + SourceLines(text)
  {
  }

  /** symtab keeps 32 characters of a name. */
  function Stored(name: string): string {
    if |name| <= 32 then name else name[..32]
  }

  /** A comment or empty line, a label (anything with a colon), or code. */
  function LineOf(text: string): (k: Line) {
    if text == "" || text[0] == ';' then Nothing
    else if StrChr(text, ':', 0) != -1 then Label(Stored(text[..StrChr(text, ':', 0)]))
    else Code(text)
  }

  function LinesOf(texts: seq<string>): (r: seq<Line>)
    ensures |r| == |texts| && forall i :: 0 <= i < |texts| ==> r[i] == LineOf(texts[i])
  {
    if texts == [] then [] else [LineOf(texts[0])] + LinesOf(texts[1..])
  }

  /**
   Main result: for every instruction table, offset and source text, pass 1 and pass 2 are
   at the same position at every line, so every position recorded for a label in pass 1
   is where that line's code lies in the final output.
   */
  lemma AssemblerPassesAgree(table: seq<Row>, elf: int, text: string, k: nat)
    requires k <= |SourceLines(text)|
    ensures var emit, lines := EmitterOf(Lass(table)), LinesOf(SourceLines(text));
            var env := FinalEnv(emit, elf, lines);
            && FirstPass(emit, elf, lines, k).position == |SecondPass(emit, env, lines, k)|
            && env.symbols == Labels(emit, lines, |lines|)
            && FirstPass(emit, elf, lines, |lines|).position == |Assemble(emit, elf, lines)|
            && (k < |lines| ==> Placed(emit, elf, lines, k))
  {
    var emit, lines := EmitterOf(Lass(table)), LinesOf(SourceLines(text));
    EmitterIsStable(Lass(table));
    PassesAgree(emit, elf, lines, k);
    FirstPassPositions(emit, elf, lines, |lines|);
    if k < |lines| {
      LineIsPlaced(emit, elf, lines, k);
    }
  }

  // ----- which names are read as labels

  predicate AnyBegins(names: seq<Named>, s: string) {
    exists i :: 0 <= i < |names| && names[i].name <= s
  }

  /** The name starts with no digit, and no register or segment name begins it. */
  predicate ReadAsLabel(s: string) {
    !StartsWithDigit(s) && !AnyBegins(REGISTERS, s) && !AnyBegins(HALF, s) && !AnyBegins(SEGMENTS, s)
  }

  predicate SmallCodes(names: seq<Named>) {
    forall i :: 0 <= i < |names| ==> names[i].code < 8
  }

  lemma {:induction false} FindNameExact(names: seq<Named>, s: string, k: nat)
    requires k <= |names| && SmallCodes(names)
    ensures FindName(names, s, k).Some? <==> exists i :: k <= i < |names| && names[i].name <= s
    ensures FindName(names, s, k).Some? ==> FindName(names, s, k).value < 8
    decreases |names| - k
  {
    if k < |names| && !(names[k].name <= s) {
      FindNameExact(names, s, k + 1);
    }
  }

  /** Classes other than the label's: none of them is -1, and none has the bit of a relative operand. */
  lemma ClassBits(c: bv32)
    requires c < 8
    ensures c | R32 != MINUS_ONE && c | R8 != MINUS_ONE && c | SREG != MINUS_ONE
    ensures (c | R32) & REL8 == 0 && (c | R8) & REL8 == 0 && (c | SREG) & REL8 == 0
  {
  }

  lemma ClassifyInExact(registers: seq<Named>, half: seq<Named>, segments: seq<Named>, s: string)
    requires SmallCodes(registers) && SmallCodes(half) && SmallCodes(segments)
    ensures ClassifyIn(registers, half, segments, s) == MINUS_ONE <==>
            !StartsWithDigit(s) && !AnyBegins(registers, s) && !AnyBegins(half, s) && !AnyBegins(segments, s)
    ensures var n := ClassifyIn(registers, half, segments, s); n != MINUS_ONE ==> n & REL8 == 0
  {
    FindNameExact(registers, s, 0);
    FindNameExact(half, s, 0);
    FindNameExact(segments, s, 0);
    if FindName(registers, s, 0).Some? {
      ClassBits(FindName(registers, s, 0).value);
    } else if FindName(half, s, 0).Some? {
      ClassBits(FindName(half, s, 0).value);
    } else if FindName(segments, s, 0).Some? {
      ClassBits(FindName(segments, s, 0).value);
    }
  }

  /** A token is taken for a label exactly when it is no number and no register name begins it. */
  lemma ClassifyExact(s: string)
    ensures Classify(s) == MINUS_ONE <==> ReadAsLabel(s)
    ensures Classify(s) != MINUS_ONE ==> Classify(s) & REL8 == 0
  {
    CodesAreSmall();
    ClassifyInExact(REGISTERS, HALF, SEGMENTS, s);
  }

  lemma CodesAreSmall()
    ensures SmallCodes(REGISTERS) && SmallCodes(HALF) && SmallCodes(SEGMENTS)
  {
    RegisterCodes();
    HalfCodes();
  }

  lemma RegisterCodes()
    ensures SmallCodes(REGISTERS)
  {
    assert SmallCodes(REGISTERS[..8]) && SmallCodes(REGISTERS[8..]);
    assert REGISTERS == REGISTERS[..8] + REGISTERS[8..];
  }

  lemma HalfCodes()
    ensures SmallCodes(HALF)
  {
  }

  // ----- which row an instruction takes

  /** A row whose name begins the mnemonic, and whose first operand is part of the class asked for. */
  predicate Candidate(table: seq<Row>, s: string, op1: bv32, row: Row) {
    row in table && row.name <= s && (row.op1 & op1) == row.op1
  }

  lemma FirstMatchIsCandidate(row: Row, s: string, op1: bv32, op2: bv32)
    requires FirstMatch(row, s, op1, op2)
    ensures row.name <= s && (row.op1 & op1) == row.op1
  {
  }

  lemma {:induction false} FirstRowMatches(table: seq<Row>, s: string, op1: bv32, op2: bv32, i: nat)
    requires i <= |table|
    ensures var r := FirstRow(table, s, op1, op2, i); r.Some? ==> Candidate(table, s, op1, r.value)
    decreases |table| - i
  {
    if i < |table| {
      if FirstMatch(table[i], s, op1, op2) {
        FirstMatchIsCandidate(table[i], s, op1, op2);
      } else {
        FirstRowMatches(table, s, op1, op2, i + 1);
      }
    }
  }

  lemma {:induction false} SecondRowMatches(table: seq<Row>, s: string, op1: bv32, op2: bv32, i: nat)
    requires i <= |table|
    ensures var r := SecondRow(table, s, op1, op2, i); r.Some? ==> Candidate(table, s, op1, r.value)
    decreases |table| - i
  {
    if i < |table| && !SecondMatch(table[i], s, op1, op2) {
      SecondRowMatches(table, s, op1, op2, i + 1);
    }
  }

  lemma FoundIsCandidate(table: seq<Row>, s: string, op1: bv32, op2: bv32)
    ensures var r := FindInstruction(table, s, op1, op2); r.Some? ==> Candidate(table, s, op1, r.value)
  {
    FirstRowMatches(table, s, op1, op2, 0);
    SecondRowMatches(table, s, op1, op2, 0);
  }

  /** A row named exactly s matches before any row that is named by a shorter front of s. */
  ghost predicate OwnFirst(rows: seq<Row>, s: string, matches: Row -> bool) {
    exists k :: 0 <= k < |rows| && matches(rows[k]) && rows[k].name == s &&
                forall j :: 0 <= j < k && matches(rows[j]) ==> rows[j].name == s
  }

  ghost predicate NoneMatches(rows: seq<Row>, matches: Row -> bool) {
    forall k :: 0 <= k < |rows| ==> !matches(rows[k])
  }

  /** r is the first row that matches, or none does. */
  ghost predicate FirstOf(rows: seq<Row>, matches: Row -> bool, r: Option<Row>) {
    match r
    case None => NoneMatches(rows, matches)
    case Some(row) =>
      exists k :: 0 <= k < |rows| && rows[k] == row && matches(rows[k]) && forall j :: 0 <= j < k ==> !matches(rows[j])
  }

  lemma FirstOfName(rows: seq<Row>, s: string, matches: Row -> bool, r: Option<Row>)
    requires FirstOf(rows, matches, r)
    ensures r.Some? && r.value.name == s <==> OwnFirst(rows, s, matches)
  {
    if r.Some? {
      var k :| 0 <= k < |rows| && rows[k] == r.value && matches(rows[k]) && forall j :: 0 <= j < k ==> !matches(rows[j]);
      if OwnFirst(rows, s, matches) {
        var i :| 0 <= i < |rows| && matches(rows[i]) && rows[i].name == s &&
                 forall j :: 0 <= j < i && matches(rows[j]) ==> rows[j].name == s;
        assert k <= i;
      }
    }
  }

  lemma {:induction false} FirstRowIsFirst(table: seq<Row>, s: string, op1: bv32, op2: bv32, i: nat)
    requires i <= |table| && forall j :: 0 <= j < i ==> !FirstMatch(table[j], s, op1, op2)
    ensures FirstOf(table, row => FirstMatch(row, s, op1, op2), FirstRow(table, s, op1, op2, i))
    decreases |table| - i
  {
    if i < |table| && !FirstMatch(table[i], s, op1, op2) {
      FirstRowIsFirst(table, s, op1, op2, i + 1);
    }
  }

  lemma {:induction false} SecondRowIsFirst(table: seq<Row>, s: string, op1: bv32, op2: bv32, i: nat)
    requires i <= |table| && forall j :: 0 <= j < i ==> !SecondMatch(table[j], s, op1, op2)
    ensures FirstOf(table, row => SecondMatch(row, s, op1, op2), SecondRow(table, s, op1, op2, i))
    decreases |table| - i
  {
    if i < |table| && !SecondMatch(table[i], s, op1, op2) {
      SecondRowIsFirst(table, s, op1, op2, i + 1);
    }
  }

  /**
   The row found is the mnemonic's own exactly when one of its rows matches before any row
   named by a shorter front of it: in the first search, or in the second when nothing matches there.
   */
  lemma OwnRowExact(table: seq<Row>, s: string, op1: bv32, op2: bv32)
    ensures var r := FindInstruction(table, s, op1, op2);
            var first, second := (row: Row) => FirstMatch(row, s, op1, op2), (row: Row) => SecondMatch(row, s, op1, op2);
            r.Some? && r.value.name == s <==>
            OwnFirst(table, s, first) || (NoneMatches(table, first) && OwnFirst(table, s, second))
  {
    FirstRowIsFirst(table, s, op1, op2, 0);
    SecondRowIsFirst(table, s, op1, op2, 0);
    FirstOfName(table, s, row => FirstMatch(row, s, op1, op2), FirstRow(table, s, op1, op2, 0));
    FirstOfName(table, s, row => SecondMatch(row, s, op1, op2), SecondRow(table, s, op1, op2, 0));
  }

  const JL := Row("jl", REL8, NONE, 0x7C, 0, 0, 0)
  const JLE := Row("jle", REL8, NONE, 0x7E, 0, 0, 0)

  /** A failing input: jl is listed before jle, so jle is assembled as jl. */
  lemma JleIsTakenForJl(before: seq<Row>, between: seq<Row>, after: seq<Row>)
    requires forall row :: row in before ==> !(row.name <= "jle")
    ensures FindInstruction(before + [JL] + between + [JLE] + after, "jle", REL8, NONE) == Some(JL)
  {
    var table := before + [JL] + between + [JLE] + after;
    assert table[|before|] == JL && FirstMatch(JL, "jle", REL8, NONE);
    FirstRowAt(table, "jle", REL8, NONE, 0, |before|);
  }

  lemma {:induction false} FirstRowAt(table: seq<Row>, s: string, op1: bv32, op2: bv32, i: nat, k: nat)
    requires i <= k < |table| && FirstMatch(table[k], s, op1, op2)
    requires forall j :: i <= j < k ==> !FirstMatch(table[j], s, op1, op2)
    ensures FirstRow(table, s, op1, op2, i) == Some(table[k])
    decreases k - i
  {
    if i < k {
      FirstRowAt(table, s, op1, op2, i + 1, k);
    }
  }

  lemma NoRow(table: seq<Row>, s: string, op1: bv32, op2: bv32)
    requires forall j :: 0 <= j < |table| ==> !FirstMatch(table[j], s, op1, op2) && !SecondMatch(table[j], s, op1, op2)
    ensures FindInstruction(table, s, op1, op2) == None
  {
    FirstRowIsFirst(table, s, op1, op2, 0);
    SecondRowIsFirst(table, s, op1, op2, 0);
  }

  // ----- relative jumps

  /** A code line of a mnemonic and one operand, and perhaps a comment. */
  ghost predicate JumpLine(line: string, mnemonic: string, name: string) {
    var t := NextToken(line, 0, " ,\t");
    && line[t.start..t.end] == mnemonic && DataWidth(mnemonic) == 0 && mnemonic[0] != ';'
    && t.start != Bracket(line) && t.next != -1
    && var u := NextToken(line, t.next, " ,\t");
       && line[u.start..u.end] == name && name != "" && name[0] != ';'
       && u.start != Bracket(line)
       && (u.next != -1 ==>
             var v := NextToken(line, u.next, " ,\t"); v.start < v.end && line[v.start] == ';')
  }

  /** What a line with one operand of class n parses to. */
  function OperandShape(mnemonic: string, n: bv32): Shape {
    WithOperand(NO_OPERANDS.shape.(inst := mnemonic, count := 1), n)
  }

  /** What a line with one label parses to. */
  function JumpShape(mnemonic: string): Shape {
    NO_OPERANDS.shape.(inst := mnemonic, count := 2, syn0 := REL8, imm := true)
  }

  lemma ParseOperand(x: Syntax, line: string, mnemonic: string, name: string, env: Env, p: nat)
    requires JumpLine(line, mnemonic, name)
    ensures var n := x.classify(name);
            ParseTokens(x, line, 0, NO_OPERANDS, env, p) ==
            Parsed(Operands(OperandShape(mnemonic, n),
                            NextImmediate(0, n, x.number(name), ToInt(FindSymbol(env, p, name)))))
  {
    var t := NextToken(line, 0, " ,\t");
    var u := NextToken(line, t.next, " ,\t");
    var o := NO_OPERANDS.(shape := NO_OPERANDS.shape.(inst := mnemonic, count := 1));
    assert ParseTokens(x, line, 0, NO_OPERANDS, env, p) == ParseTokens(x, line, t.next, o, env, p);
    var o' := PlainOperand(x, o, name, env, p);
    assert ParseTokens(x, line, t.next, o, env, p) == ParseTokens(x, line, u.next, o', env, p);
    CommentEnds(x, line, u.next, o', env, p);
  }

  lemma CommentEnds(x: Syntax, line: string, pos: int, o: Operands, env: Env, p: nat)
    requires pos <= |line| && o.shape.count > 0
    requires pos >= 0 ==> var v := NextToken(line, pos, " ,\t"); v.start < v.end && line[v.start] == ';'
    ensures ParseTokens(x, line, pos, o, env, p) == Parsed(o)
  {
  }

  lemma ParseJump(x: Syntax, line: string, mnemonic: string, name: string, env: Env, p: nat)
    requires JumpLine(line, mnemonic, name) && x.classify(name) == MINUS_ONE
    ensures ParseTokens(x, line, 0, NO_OPERANDS, env, p) ==
            Parsed(Operands(JumpShape(mnemonic), ToInt(FindSymbol(env, p, name))))
  {
    ParseOperand(x, line, mnemonic, name, env, p);
  }

  /** A byte read as a signed displacement. */
  function SignExtend(b: byte): (r: int) {
    if b < 128 then b else b - 256
  }

  lemma SignExtendExact(x: int, y: int)
    requires -3 < y - x < 3
    ensures SignExtend(LowInt(x)) == y <==> x == y && -128 <= y < 128
  {
  }

  lemma ToIntLow(x: int, d: int)
    ensures LowInt(ToInt(x) - d) == LowInt(x - d)
  {
    var k := x / 0x1_0000_0000;
    assert ToInt(x) == x - k * 0x1_0000_0000 || ToInt(x) == x - (k + 1) * 0x1_0000_0000;
    LowShift(x - d, k);
    LowShift(x - d, k + 1);
  }

  lemma LowShift(x: int, k: int)
    ensures LowInt(x - k * 0x1_0000_0000) == LowInt(x)
  {
    var j := k * 0x100_0000;
    assert x - k * 0x1_0000_0000 == x - 256 * j;
    assert (x - 256 * j) % 256 == x % 256;
  }

  /** A parsed jump emits its opcode bytes and one byte of displacement. */
  lemma EncodeJump(x: Syntax, row: Row, o: Operands, p: nat, elf: int)
    requires o.shape == JumpShape(o.shape.inst)
    requires x.find(o.shape.inst, REL8, NONE) == Some(row) && row.op1 == REL8 && row.op2 == NONE
    ensures var head := x.head(row, o.shape);
            Encode(x, o, p, elf) == head + [LowInt(o.immediate - (p + |head|) - |head| - elf)]
  {
    var head := x.head(row, o.shape);
    assert ImmediateBytes(row, o, p, p + |head|, elf) == [LowInt(o.immediate - (p + |head|) - |head| - elf)];
  }

  /**
   The arithmetic of a relative jump with `head` opcode bytes at p, for any offset elf
   added to symbols: the byte, read as signed, leads from the end of the instruction to
   the target exactly when the opcode is one byte and the distance fits.
   */
  lemma DisplacementExact(target: nat, elf: int, p: nat, head: nat)
    requires 1 <= head <= 3
    ensures var b := LowInt(ToInt(target + elf) - (p + head) - head - elf);
            var end := p + head + 1;
            end + SignExtend(b) == target <==> head == 1 && -128 <= target - end < 128
  {
    ToIntLow(target + elf, p + head + head + elf);
    SignExtendExact(target - p - 2 * head, target - (p + head + 1));
  }

  /**
   The instruction with these bytes at p jumps to the target exactly when it is two bytes
   long, one of them opcode, and the distance fits in a signed byte.
   */
  ghost predicate LandsExactly(bytes: seq<byte>, p: nat, target: nat) {
    && |bytes| >= 2
    && (p + |bytes| + SignExtend(bytes[|bytes| - 1]) == target <==>
        |bytes| == 2 && -128 <= target - (p + |bytes|) < 128)
  }

  /** What a jump to `target` is encoded as. */
  function JumpCode(x: Syntax, mnemonic: string, p: nat, elf: int, target: nat): seq<byte> {
    Encode(x, Operands(JumpShape(mnemonic), ToInt(target + elf)), p, elf)
  }

  lemma JumpCodeLands(x: Syntax, row: Row, mnemonic: string, p: nat, elf: int, target: nat)
    requires x.find(mnemonic, REL8, NONE) == Some(row) && row.op1 == REL8 && row.op2 == NONE
    requires 1 <= |x.head(row, JumpShape(mnemonic))| <= 3
    ensures LandsExactly(JumpCode(x, mnemonic, p, elf, target), p, target)
  {
    EncodeJump(x, row, Operands(JumpShape(mnemonic), ToInt(target + elf)), p, elf);
    DisplacementExact(target, elf, p, |x.head(row, JumpShape(mnemonic))|);
  }

  lemma JumpEmits(x: Syntax, env: Env, p: nat, line: string, mnemonic: string, name: string, target: nat)
    requires JumpLine(line, mnemonic, name) && x.classify(name) == MINUS_ONE
    requires Lookup(env.symbols, name, 0) == Some(target)
    ensures Emit(x, env, p, line) == JumpCode(x, mnemonic, p, env.elf, target)
  {
    ParseJump(x, line, mnemonic, name, env, p);
    var o := Operands(JumpShape(mnemonic), ToInt(FindSymbol(env, p, name)));
    assert FindSymbol(env, p, name) == target + env.elf;
    EmitJump(x, env, p, line, mnemonic, target, o);
  }

  lemma EmitJump(x: Syntax, env: Env, p: nat, line: string, mnemonic: string, target: nat, o: Operands)
    requires var t := NextToken(line, 0, " ,\t"); line[t.start..t.end] == mnemonic && DataWidth(mnemonic) == 0
    requires ParseTokens(x, line, 0, NO_OPERANDS, env, p) == Parsed(o)
    requires o == Operands(JumpShape(mnemonic), ToInt(target + env.elf))
    ensures Emit(x, env, p, line) == JumpCode(x, mnemonic, p, env.elf, target)
  {
    EmitParsed(x, env, p, line, mnemonic, o);
    SameCode(x, mnemonic, p, env.elf, target, o);
  }

  lemma SameCode(x: Syntax, mnemonic: string, p: nat, elf: int, target: nat, o: Operands)
    requires o == Operands(JumpShape(mnemonic), ToInt(target + elf))
    ensures Encode(x, o, p, elf) == JumpCode(x, mnemonic, p, elf, target)
  {
  }

  lemma EmitParsed(x: Syntax, env: Env, p: nat, line: string, mnemonic: string, o: Operands)
    requires var t := NextToken(line, 0, " ,\t"); line[t.start..t.end] == mnemonic && DataWidth(mnemonic) == 0
    requires ParseTokens(x, line, 0, NO_OPERANDS, env, p) == Parsed(o)
    ensures Emit(x, env, p, line) == Encode(x, o, p, env.elf)
  {
  }

  /** A rel8 jump to a symbol at `target`, for any offset added to symbols. */
  lemma JumpLands(x: Syntax, row: Row, env: Env, p: nat, line: string, mnemonic: string, name: string, target: nat)
    requires JumpLine(line, mnemonic, name) && x.classify(name) == MINUS_ONE
    requires Lookup(env.symbols, name, 0) == Some(target)
    requires x.find(mnemonic, REL8, NONE) == Some(row) && row.op1 == REL8 && row.op2 == NONE
    requires 1 <= |x.head(row, JumpShape(mnemonic))| <= 3
    ensures LandsExactly(Emit(x, env, p, line), p, target)
    ensures x.head(row, JumpShape(mnemonic)) <= Emit(x, env, p, line)
    ensures |Emit(x, env, p, line)| == |x.head(row, JumpShape(mnemonic))| + 1
  {
    JumpEmits(x, env, p, line, mnemonic, name, target);
    JumpCodeLands(x, row, mnemonic, p, env.elf, target);
    EncodeJump(x, row, Operands(JumpShape(mnemonic), ToInt(target + env.elf)), p, env.elf);
  }

  /** Opcode bytes of a jump: one, plus one for each prefix the row has. */
  lemma JumpHead(row: Row, mnemonic: string)
    ensures var head := HeadBytes(row, JumpShape(mnemonic));
            && |head| == 1 + (if row.secondary != 0 then 1 else 0) + (if row.prefix != 0 then 1 else 0)
            && (row.secondary == 0 && row.prefix == 0 && row.extension != ALTERNATE ==> head == [Low(row.primary)])
  {
    assert JumpShape(mnemonic).syn0 & ANY_IMM != 0;
  }

  // ----- what the processor does with the bytes

  /** The first byte of a two-byte relative jump (Intel SDM Volume 2A, Jcc, JMP, LOOP, JCXZ). */
  predicate ShortJumpOpcode(b: byte) {
    0x70 <= b <= 0x7F || b == 0xEB || 0xE0 <= b <= 0xE3
  }

  /** The bytes at p are a two-byte relative jump to `target`. */
  predicate JumpsTo(bytes: seq<byte>, p: nat, target: nat) {
    |bytes| == 2 && ShortJumpOpcode(bytes[0]) && p + 2 + SignExtend(bytes[1]) == target
  }

  /** Among the rows this mnemonic can take, only those with a rel8 operand are two-byte relative jumps. */
  ghost predicate OnlyRel8Jumps(table: seq<Row>, mnemonic: string) {
    forall row, n :: row in table && row.name <= mnemonic && row.op1 != REL8 ==>
                       var head := HeadBytes(row, OperandShape(mnemonic, n));
                       head != [] && !ShortJumpOpcode(head[0])
  }

  lemma NotRel8(op: bv32, n: bv32)
    requires (op & n) == op && n & REL8 == 0
    ensures op != REL8
  {
  }

  /** A name that is not read as a label never gives a relative jump. */
  lemma MisreadNeverJumps(table: seq<Row>, env: Env, p: nat, line: string, mnemonic: string, name: string, target: nat)
    requires JumpLine(line, mnemonic, name) && !ReadAsLabel(name) && OnlyRel8Jumps(table, mnemonic)
    ensures !JumpsTo(Emit(Lass(table), env, p, line), p, target)
  {
    var n := Classify(name);
    ClassifyExact(name);
    ParseOperand(Lass(table), line, mnemonic, name, env, p);
    FoundIsCandidate(table, mnemonic, n, NONE);
    var r := FindInstruction(table, mnemonic, n, NONE);
    if r.Some? {
      NotRel8(r.value.op1, n);
      var head := HeadBytes(r.value, OperandShape(mnemonic, n));
      assert head != [] && !ShortJumpOpcode(head[0]);
      assert head <= Emit(Lass(table), env, p, line);
    }
  }

  lemma LineIsEmitted(table: seq<Row>, elf: int, texts: seq<string>, j: nat)
    requires j < |texts| && LineOf(texts[j]) == Code(texts[j])
    ensures var emit, lines := EmitterOf(Lass(table)), LinesOf(texts);
            LineSlice(emit, elf, lines, j) ==
            Emit(Lass(table), FinalEnv(emit, elf, lines), Start(emit, lines, j), texts[j])
  {
    EmitterIsStable(Lass(table));
    SliceIsLine(EmitterOf(Lass(table)), elf, LinesOf(texts), j);
  }

  /** The jump is encoded in two bytes, and its target lies within a signed byte of its end. */
  predicate InReach(row: Row, p: nat, target: nat) {
    row.secondary == 0 && row.prefix == 0 && -128 <= target - (p + 2) < 128
  }

  /**
   Main result for jumps: in the assembled output of any text, a line that names the label of
   line i is a relative jump to where line i starts, exactly when the name is read as a label,
   the row has no prefix, the label is in reach, and the first label that begins the name is
   that one, or at least starts at a place with the same low byte.
   */
  lemma JumpInProgram(table: seq<Row>, row: Row, elf: int, texts: seq<string>, i: nat, j: nat, mnemonic: string, name: string)
    requires i < |texts| && j < |texts|
    requires LineOf(texts[i]) == Label(name)
    requires LineOf(texts[j]) == Code(texts[j]) && JumpLine(texts[j], mnemonic, name)
    requires FindInstruction(table, mnemonic, REL8, NONE) == Some(row) && row.op1 == REL8 && row.op2 == NONE
    requires row.extension != ALTERNATE && ShortJumpOpcode(Low(row.primary)) && OnlyRel8Jumps(table, mnemonic)
    ensures 0 <= FirstLabel(LinesOf(texts), name, 0) <= i
    ensures var emit, lines := EmitterOf(Lass(table)), LinesOf(texts);
            var p, target, found := Start(emit, lines, j), Start(emit, lines, i), Start(emit, lines, FirstLabel(lines, name, 0));
            JumpsTo(LineSlice(emit, elf, lines, j), p, target) <==>
            ReadAsLabel(name) && InReach(row, p, target) && LowInt(found) == LowInt(target)
  {
    var emit, lines := EmitterOf(Lass(table)), LinesOf(texts);
    LabelFoundExact(lines, i);
    JumpAnywhere(table, row, elf, texts, j, mnemonic, name, Start(emit, lines, i));
  }

  /** The same for any place in the output as the target, and any name that some label begins. */
  lemma JumpAnywhere(table: seq<Row>, row: Row, elf: int, texts: seq<string>, j: nat, mnemonic: string, name: string, target: nat)
    requires j < |texts| && FirstLabel(LinesOf(texts), name, 0) != -1
    requires LineOf(texts[j]) == Code(texts[j]) && JumpLine(texts[j], mnemonic, name)
    requires FindInstruction(table, mnemonic, REL8, NONE) == Some(row) && row.op1 == REL8 && row.op2 == NONE
    requires row.extension != ALTERNATE && ShortJumpOpcode(Low(row.primary)) && OnlyRel8Jumps(table, mnemonic)
    ensures var emit, lines := EmitterOf(Lass(table)), LinesOf(texts);
            var p, found := Start(emit, lines, j), Start(emit, lines, FirstLabel(lines, name, 0));
            JumpsTo(LineSlice(emit, elf, lines, j), p, target) <==>
            ReadAsLabel(name) && InReach(row, p, target) && LowInt(found) == LowInt(target)
  {
    var emit, lines := EmitterOf(Lass(table)), LinesOf(texts);
    var env, p := FinalEnv(emit, elf, lines), Start(emit, lines, j);
    LineIsEmitted(table, elf, texts, j);
    if ReadAsLabel(name) {
      var found := Start(emit, lines, FirstLabel(lines, name, 0));
      assert Lookup(env.symbols, name, 0) == Some(found) by {
        EmitterIsStable(Lass(table));
        NameResolved(emit, elf, lines, name);
      }
      LabelJumps(table, row, env, p, texts[j], mnemonic, name, found, target);
    } else {
      MisreadNeverJumps(table, env, p, texts[j], mnemonic, name, target);
    }
  }

  /** A jump resolved to `found` is a jump to `target` exactly when that is in reach and has the same low byte. */
  lemma LabelJumps(table: seq<Row>, row: Row, env: Env, p: nat, line: string, mnemonic: string, name: string, found: nat, target: nat)
    requires JumpLine(line, mnemonic, name) && ReadAsLabel(name) && Lookup(env.symbols, name, 0) == Some(found)
    requires FindInstruction(table, mnemonic, REL8, NONE) == Some(row) && row.op1 == REL8 && row.op2 == NONE
    requires row.extension != ALTERNATE && ShortJumpOpcode(Low(row.primary))
    ensures JumpsTo(Emit(Lass(table), env, p, line), p, target) <==> InReach(row, p, target) && LowInt(found) == LowInt(target)
  {
    ClassifyExact(name);
    JumpEmits(Lass(table), env, p, line, mnemonic, name, found);
    CodeJumps(table, row, mnemonic, p, env.elf, found, target);
  }

  lemma CodeJumps(table: seq<Row>, row: Row, mnemonic: string, p: nat, elf: int, found: nat, target: nat)
    requires FindInstruction(table, mnemonic, REL8, NONE) == Some(row) && row.op1 == REL8 && row.op2 == NONE
    requires row.extension != ALTERNATE && ShortJumpOpcode(Low(row.primary))
    ensures JumpsTo(JumpCode(Lass(table), mnemonic, p, elf, found), p, target) <==>
            InReach(row, p, target) && LowInt(found) == LowInt(target)
  {
    var head, b := CodeIsJump(table, row, mnemonic, p, elf, found);
    BytesJump(row, head, b, p, found, target);
  }

  lemma CodeIsJump(table: seq<Row>, row: Row, mnemonic: string, p: nat, elf: int, found: nat)
    returns (head: seq<byte>, b: byte)
    requires FindInstruction(table, mnemonic, REL8, NONE) == Some(row) && row.op1 == REL8 && row.op2 == NONE
    requires row.extension != ALTERNATE
    ensures JumpCode(Lass(table), mnemonic, p, elf, found) == head + [b] && b == LowInt(found - p - |head| - |head|)
    ensures |head| >= 1 && (|head| == 1 <==> row.secondary == 0 && row.prefix == 0)
    ensures |head| == 1 ==> head == [Low(row.primary)]
  {
    head := HeadBytes(row, JumpShape(mnemonic));
    JumpHead(row, mnemonic);
    EncodeJump(Lass(table), row, Operands(JumpShape(mnemonic), ToInt(found + elf)), p, elf);
    b := LowInt(ToInt(found + elf) - (p + |head|) - |head| - elf);
    DisplacementLow(found, elf, p, |head|);
  }

  lemma DisplacementLow(found: nat, elf: int, p: nat, head: nat)
    ensures LowInt(ToInt(found + elf) - (p + head) - head - elf) == LowInt(found - p - head - head)
  {
    ToIntLow(found + elf, p + head + head + elf);
    assert ToInt(found + elf) - (p + head) - head - elf == ToInt(found + elf) - (p + head + head + elf);
  }

  /** Opcode bytes and the displacement of a jump resolved to `found`. */
  lemma BytesJump(row: Row, head: seq<byte>, b: byte, p: nat, found: nat, target: nat)
    requires ShortJumpOpcode(Low(row.primary)) && b == LowInt(found - p - |head| - |head|) && |head| >= 1
    requires |head| == 1 <==> row.secondary == 0 && row.prefix == 0
    requires |head| == 1 ==> head == [Low(row.primary)]
    ensures JumpsTo(head + [b], p, target) <==> InReach(row, p, target) && LowInt(found) == LowInt(target)
  {
    if |head| == 1 {
      SameLowByte(found - p - 2, target - (p + 2));
      SameLow(found, target, p + 2);
    }
  }

  lemma SameLow(a: int, b: int, d: int)
    ensures LowInt(a - d) == LowInt(b - d) <==> LowInt(a) == LowInt(b)
  {
  }

  lemma SameLowByte(x: int, y: int)
    ensures SignExtend(LowInt(x)) == y <==> -128 <= y < 128 && LowInt(x) == LowInt(y)
  {
  }

  // ----- jmp and a label that begins like a register

  /** The rows of jmp. */
  const JMP_ROWS: seq<Row> := [
    Row("jmp", REL32, NONE, 0xE9, 0, 0, 0), Row("jmp", REL8, NONE, 0xEB, 0, 0, 0), Row("jmp", R32, NONE, 0xFF, 4, 0, 0)]

  lemma JmpRows()
    ensures FindInstruction(JMP_ROWS, "jmp", REL8, NONE) == Some(JMP_ROWS[1])
    ensures ShortJumpOpcode(Low(JMP_ROWS[1].primary)) && OnlyRel8Jumps(JMP_ROWS, "jmp")
  {
    FirstRowAt(JMP_ROWS, "jmp", REL8, NONE, 0, 1);
    forall row, n | row in JMP_ROWS && row.name <= "jmp" && row.op1 != REL8
      ensures var head := HeadBytes(row, OperandShape("jmp", n)); head != [] && !ShortJumpOpcode(head[0])
    {
      JmpHead(row, n);
    }
  }

  lemma JmpHead(row: Row, n: bv32)
    requires row == JMP_ROWS[0] || row == JMP_ROWS[2]
    ensures var head := HeadBytes(row, OperandShape("jmp", n)); head != [] && !ShortJumpOpcode(head[0])
  {
    OpcodeLeads(row, OperandShape("jmp", n));
    assert Low(0xE9) == 0xE9 && Low(0xFF) == 0xFF;
  }

  lemma OpcodeLeads(row: Row, o: Shape)
    requires row.extension != ALTERNATE && row.primary < 0x100 && row.secondary == 0 && row.prefix == 0
    requires o.syn1 == 0 && o.sib == 0
    ensures HeadBytes(row, o) != [] && HeadBytes(row, o)[0] == Low(row.primary)
  {
    assert HeadBytes(row, o) == OneOperandBytes(row, o);
    OpcodeFirst(if o.m == MINUS_ONE then ModRM(o.mode, row.extension, o.syn0 & !REGISTER) else o.m, row.primary);
  }

  lemma OpcodeFirst(m: bv32, op: bv32)
    requires op < 0x100
    ensures Low((m << 8) | op) == Low(op)
  {
    assert ((m << 8) | op) & 0xFF == op & 0xFF;
  }

  lemma {:induction false} FindNameAt(names: seq<Named>, s: string, i: nat, k: nat)
    requires i <= k < |names| && names[k].name <= s && forall j :: i <= j < k ==> !(names[j].name <= s)
    ensures FindName(names, s, i) == Some(names[k].code)
    decreases k - i
  {
    if i < k {
      FindNameAt(names, s, i + 1, k);
    }
  }

  /** Failing inputs: such a label is read as the register, so no jump to it is relative. */
  lemma LabelTakenForRegister()
    ensures Classify("sign") == R32 | 6 && Classify("close") == R8 | 1
    ensures FindInstruction(JMP_ROWS, "jmp", R32 | 6, NONE) == Some(JMP_ROWS[2])
    ensures FindInstruction(JMP_ROWS, "jmp", R8 | 1, NONE) == None
    ensures HeadBytes(JMP_ROWS[2], OperandShape("jmp", R32 | 6)) == [0xFF, 0xE6]
  {
    SignIsSi();
    CloseIsCl();
    JmpSi();
    JmpSiRow();
    JmpClRow();
  }

  lemma JmpSiRow()
    ensures FindInstruction(JMP_ROWS, "jmp", R32 | 6, NONE) == Some(JMP_ROWS[2])
  {
    FirstRowAt(JMP_ROWS, "jmp", R32 | 6, NONE, 0, 2);
  }

  lemma JmpClRow()
    ensures FindInstruction(JMP_ROWS, "jmp", R8 | 1, NONE) == None
  {
    NoRow(JMP_ROWS, "jmp", R8 | 1, NONE);
  }

  lemma JmpSi()
    ensures HeadBytes(JMP_ROWS[2], OperandShape("jmp", R32 | 6)) == [0xFF, 0xE6]
  {
    var o := OperandShape("jmp", R32 | 6);
    assert o.syn0 == R32 | 6 && o.m == MINUS_ONE && o.syn1 == 0 && o.sib == 0 && o.mode == 3;
    assert HeadBytes(JMP_ROWS[2], o) == OneOperandBytes(JMP_ROWS[2], o) == Bytes2((0xE6 << 8) | 0xFF);
    OpcodeThenModRM(0xE6, 0xFF);
    assert Low(0xE6) == 0xE6 && Low(0xFF) == 0xFF;
  }

  /** The second letters of the register names. */
  lemma SecondLetters(j: nat)
    requires j < |REGISTERS|
    ensures |REGISTERS[j].name| >= 2 && REGISTERS[j].name[1] == "acdbsbsdxxxxppii"[j]
  {
  }

  lemma Differs(name: string, s: string)
    requires |name| >= 2 && |s| >= 2 && name[1] != s[1]
    ensures !(name <= s)
  {
  }

  lemma SignIsSi()
    ensures Classify("sign") == R32 | 6
  {
    var s := "sign";
    forall j | 0 <= j < 14 ensures !(REGISTERS[j].name <= s) {
      SecondLetters(j);
      Differs(REGISTERS[j].name, s);
    }
    FindNameAt(REGISTERS, s, 0, 14);
  }

  lemma CloseIsCl()
    ensures Classify("close") == R8 | 1
  {
    CloseIsNoRegister("close");
    assert HALF[0].name[0] != "close"[0];
    FindNameAt(HALF, "close", 0, 1);
  }

  lemma CloseIsNoRegister(s: string)
    requires |s| >= 2 && s[1] == 'l'
    ensures FindName(REGISTERS, s, 0) == None
  {
    forall j | 0 <= j < |REGISTERS| ensures !(REGISTERS[j].name <= s) {
      SecondLetters(j);
      Differs(REGISTERS[j].name, s);
    }
    NoNameFound(REGISTERS, s, 0);
  }

  lemma {:induction false} NoNameFound(names: seq<Named>, s: string, k: nat)
    requires k <= |names| && forall j :: 0 <= j < |names| ==> !(names[j].name <= s)
    ensures FindName(names, s, k) == None
    decreases |names| - k
  {
    if k < |names| {
      NoNameFound(names, s, k + 1);
    }
  }

  // ----- a label that begins another label

  const LOOPS: seq<string> := ["loop:", "jmp loop", "loop2:", "jmp loop2"]

  lemma LoopLine(line: string, name: string)
    requires line == "jmp " + name && (name == "loop" || name == "loop2")
    ensures LineOf(line) == Code(line) && JumpLine(line, "jmp", name)
  {
    LoopLetters(line, name);
    NoneFrom(line, ':', 0);
    NoneFrom(line, '[', 1);
    assert Span(line, 0, " ,\t") == 0;
    NoBreakBefore(line, 1, 3);
    assert NextToken(line, 0, " ,\t") == Token(0, 3, 4) && line[0..3] == "jmp";
    assert Span(line, 4, " ,\t") == 4;
    NoBreakBefore(line, 5, |line|);
    assert NextToken(line, 4, " ,\t") == Token(4, |line|, -1) && line[4..|line|] == name;
  }

  lemma LoopLetters(line: string, name: string)
    requires line == "jmp " + name && (name == "loop" || name == "loop2")
    ensures line[0] == 'j' && line[1] == 'm' && line[2] == 'p' && line[3] == ' ' && line[4] == 'l'
    ensures forall i :: 0 <= i < |line| ==> line[i] != ':' && line[i] != '[' && line[i] != ',' && line[i] != '\t'
    ensures forall i :: 4 <= i < |line| ==> line[i] != ' '
  {
    assert forall i :: 4 <= i < |line| ==> line[i] == name[i - 4];
    assert forall i :: 0 <= i < |name| ==> name[i] == 'l' || name[i] == 'o' || name[i] == 'p' || name[i] == '2';
  }

  lemma {:induction false} NoneFrom(s: string, c: char, i: nat)
    requires i <= |s| && forall k :: i <= k < |s| ==> s[k] != c
    ensures StrChr(s, c, i) == -1
    decreases |s| - i
  {
    if i < |s| {
      NoneFrom(s, c, i + 1);
    }
  }

  lemma {:induction false} NoBreakBefore(s: string, i: nat, k: nat)
    requires i <= k <= |s| && (k < |s| ==> s[k] == ' ')
    requires forall m :: i <= m < k ==> s[m] != ' ' && s[m] != ',' && s[m] != '\t'
    ensures Break(s, i, " ,\t") == k
    decreases k - i
  {
    if i < k {
      NoBreakBefore(s, i + 1, k);
    }
  }

  /** No register's name has an o in second place. */
  lemma LoopsAreLabels(name: string)
    requires |name| >= 2 && name[0] == 'l' && name[1] == 'o'
    ensures ReadAsLabel(name)
  {
    forall j | 0 <= j < |REGISTERS| ensures !(REGISTERS[j].name <= name) {
      SecondLetters(j);
      Differs(REGISTERS[j].name, name);
    }
    forall j | 0 <= j < |HALF| ensures !(HALF[j].name <= name) {
      assert HALF[j].name[1] == 'l' || HALF[j].name[1] == 'h';
      Differs(HALF[j].name, name);
    }
    forall j | 0 <= j < |SEGMENTS| ensures !(SEGMENTS[j].name <= name) {
      assert SEGMENTS[j].name[1] == 's';
      Differs(SEGMENTS[j].name, name);
    }
  }

  lemma LoopLabels()
    ensures LineOf(LOOPS[0]) == Label("loop") && LineOf(LOOPS[2]) == Label("loop2") && "loop" <= "loop2"
  {
    assert StrChr(LOOPS[0], ':', 0) == 4 && LOOPS[0][..4] == "loop";
    assert StrChr(LOOPS[2], ':', 0) == 5 && LOOPS[2][..5] == "loop2";
  }

  /** JumpAnywhere for jmp and a name that is read as a label. */
  lemma JmpGoes(texts: seq<string>, j: nat, name: string, target: nat)
    requires j < |texts| && FirstLabel(LinesOf(texts), name, 0) != -1 && ReadAsLabel(name)
    requires LineOf(texts[j]) == Code(texts[j]) && JumpLine(texts[j], "jmp", name)
    ensures var emit, lines := EmitterOf(Lass(JMP_ROWS)), LinesOf(texts);
            var p, found := Start(emit, lines, j), Start(emit, lines, FirstLabel(lines, name, 0));
            JumpsTo(LineSlice(emit, 0, lines, j), p, target) <==>
            -128 <= target - (p + 2) < 128 && LowInt(found) == LowInt(target)
  {
    JmpRows();
    JumpAnywhere(JMP_ROWS, JMP_ROWS[1], 0, texts, j, "jmp", name, target);
  }

  lemma LoopStarts(emit: Emitter, lines: seq<Line>)
    requires |lines| == 4 && lines[0].Label? && lines[2].Label? && |LineSlice(emit, 0, lines, 1)| == 2
    ensures Start(emit, lines, 0) == Start(emit, lines, 1) == 0 && Start(emit, lines, 2) == Start(emit, lines, 3) == 2
  {
    assert Start(emit, lines, 1) == Start(emit, lines, 0);
    assert Start(emit, lines, 3) == Start(emit, lines, 2);
  }

  ghost predicate JumpTextBody(line: string, name: string, key: nat) {
    LineOf(line) == Code(line) && JumpLine(line, "jmp", name) && ReadAsLabel(name)
  }

  /** A jmp to a name that is read as a label; opened by an instance. */
  ghost predicate JumpText(line: string, name: string) {
    forall key: nat :: JumpTextBody(line, name, key)
  }

  lemma LoopJumps(line: string, name: string)
    requires line == "jmp " + name && (name == "loop" || name == "loop2")
    ensures JumpText(line, name)
  {
    LoopLine(line, name);
    LoopsAreLabels(name);
  }

  ghost predicate TwoLoopsBody(texts: seq<string>, a: string, b: string, key: nat) {
    && |texts| == 4 && LineOf(texts[0]) == Label(a) && LineOf(texts[2]) == Label(b) && a <= b
    && JumpText(texts[1], a) && JumpText(texts[3], b)
  }

  /** Two labels, each followed by a jump to it, and the first begins the second; opened by an instance. */
  ghost predicate TwoLoops(texts: seq<string>, a: string, b: string) {
    forall key: nat :: TwoLoopsBody(texts, a, b, key)
  }

  /** In such a text the jump to the second label, which is in reach, goes to the first. */
  lemma TakenForTheOther(texts: seq<string>, a: string, b: string)
    requires |texts| == 4 && TwoLoops(texts, a, b)
    ensures var emit, lines := EmitterOf(Lass(JMP_ROWS)), LinesOf(texts);
            && Start(emit, lines, 0) == 0 && Start(emit, lines, 2) == Start(emit, lines, 3) == 2
            && JumpsTo(LineSlice(emit, 0, lines, 3), 2, 0) && !JumpsTo(LineSlice(emit, 0, lines, 3), 2, 2)
  {
    var emit, lines := EmitterOf(Lass(JMP_ROWS)), LinesOf(texts);
    LoopsBegin(texts, a, b);
    FirstJump(texts, a, b);
    LoopStarts(emit, lines);
    SecondJump(texts, a, b);
  }

  lemma LoopsBegin(texts: seq<string>, a: string, b: string)
    requires |texts| == 4 && TwoLoops(texts, a, b)
    ensures var lines := LinesOf(texts);
            lines[0].Label? && lines[2].Label? && FirstLabel(lines, a, 0) == 0 && FirstLabel(lines, b, 0) == 0
  {
    assert TwoLoopsBody(texts, a, b, 0) && JumpTextBody(texts[1], a, 0);
  }

  lemma FirstJump(texts: seq<string>, a: string, b: string)
    requires |texts| == 4 && TwoLoops(texts, a, b) && LinesOf(texts)[0].Label? && FirstLabel(LinesOf(texts), a, 0) == 0
    ensures |LineSlice(EmitterOf(Lass(JMP_ROWS)), 0, LinesOf(texts), 1)| == 2
  {
    var emit, lines := EmitterOf(Lass(JMP_ROWS)), LinesOf(texts);
    assert TwoLoopsBody(texts, a, b, 0) && JumpTextBody(texts[1], a, 0);
    assert Start(emit, lines, 1) == Start(emit, lines, 0) == 0;
    JmpGoes(texts, 1, a, 0);
  }

  lemma SecondJump(texts: seq<string>, a: string, b: string)
    requires |texts| == 4 && TwoLoops(texts, a, b) && FirstLabel(LinesOf(texts), b, 0) == 0
    requires var emit, lines := EmitterOf(Lass(JMP_ROWS)), LinesOf(texts);
             Start(emit, lines, 0) == 0 && Start(emit, lines, 3) == 2
    ensures var slice := LineSlice(EmitterOf(Lass(JMP_ROWS)), 0, LinesOf(texts), 3);
            JumpsTo(slice, 2, 0) && !JumpsTo(slice, 2, 2)
  {
    assert TwoLoopsBody(texts, a, b, 0) && JumpTextBody(texts[3], b, 0);
    JmpGoes(texts, 3, b, 0);
    JmpGoes(texts, 3, b, 2);
  }

  lemma TwoLoopsAre()
    ensures TwoLoops(LOOPS, "loop", "loop2")
  {
    LoopLabels();
    LoopJumps(LOOPS[1], "loop");
    LoopJumps(LOOPS[3], "loop2");
  }

  /** A failing input: loop begins loop2, so the jump to loop2 goes to loop. */
  lemma LoopTakenForLoop2()
    ensures TwoLoops(LOOPS, "loop", "loop2")
    ensures var emit, lines := EmitterOf(Lass(JMP_ROWS)), LinesOf(LOOPS);
            && Start(emit, lines, 0) == 0 && Start(emit, lines, 2) == Start(emit, lines, 3) == 2
            && JumpsTo(LineSlice(emit, 0, lines, 3), 2, 0) && !JumpsTo(LineSlice(emit, 0, lines, 3), 2, 2)
  {
    TwoLoopsAre();
    TakenForTheOther(LOOPS, "loop", "loop2");
  }

  // ----- rel32

  /** No row that is relative with 32 bits ever gets a label: labels are always taken as rel8. */
  lemma NoRel32Jump(table: seq<Row>, mnemonic: string)
    ensures var r := FindInstruction(table, mnemonic, REL8, NONE);
            r.Some? ==> r.value.op1 == REL8 || r.value.op1 == NONE
  {
    var r := FindInstruction(table, mnemonic, REL8, NONE);
    FoundIsCandidate(table, mnemonic, REL8, NONE);
    if r.Some? {
      OneBit(r.value.op1);
    }
  }

  lemma OneBit(x: bv32)
    ensures x & REL8 == x ==> x == REL8 || x == NONE
  {
  }

  // ----- ModR/M

  /** The three fields of a ModR/M byte. */
  function ModRMFields(b: bv32): (r: (bv32, bv32, bv32)) {
    ((b >> 6) & 0x3, (b >> 3) & 0x7, b & 0x7)
  }

  /** Packing keeps the fields, each reduced to its width. */
  lemma ModRMReadsBack(mod: bv32, reg: bv32, rm: bv32)
    ensures ModRMFields(ModRM(mod, reg, rm)) == (mod & 0x3, reg & 0x7, rm & 0x7)
  {
  }

  lemma WordFields(mode: bv32, reg: bv32, rm: bv32, op: bv32)
    requires op < 0x100
    ensures var word := (ModRM(mode, reg, rm) << 8) | op;
            word & 0xFF == op && ModRMFields(word >> 8) == (mode & 0x3, reg & 0x7, rm & 0x7)
  {
  }

  /** Two registers: the word written gives back the opcode, the mode and both register numbers. */
  lemma RegistersReadBack(row: Row, o: Shape) returns (word: bv32)
    requires o.m == MINUS_ONE && !o.rev && row.extension != ALTERNATE && row.primary < 0x100
    requires o.syn0 & REGISTER != 0 && o.syn1 & REGISTER != 0
    ensures TwoOperandBytes(row, o) == Bytes2(word) && word & 0xFF == row.primary
    ensures ModRMFields(word >> 8) == (o.mode & 0x3, o.syn0 & 0x7, o.syn1 & 0x7)
  {
    word := (ModRM(o.mode, o.syn0, o.syn1) << 8) | row.primary;
    RegisterForm(row, o);
    WordFields(o.mode, o.syn0, o.syn1, row.primary);
  }

  lemma NoImmediateBit(x: bv32)
    ensures (x & 0x7) & ANY_IMM == 0
  {
  }

  lemma RegisterForm(row: Row, o: Shape)
    requires o.m == MINUS_ONE && !o.rev && row.extension != ALTERNATE
    requires o.syn0 & REGISTER != 0 && o.syn1 & REGISTER != 0
    ensures TwoOperandBytes(row, o) == Bytes2((ModRM(o.mode, o.syn0, o.syn1) << 8) | row.primary)
  {
    NoImmediateBit(o.syn0);
  }

  lemma OpcodeThenModRM(m: bv32, op: bv32)
    requires op < 0x100
    ensures Bytes2((m << 8) | op) == [Low(op), Low(m)]
  {
    assert ((m << 8) | op) & 0xFF == op & 0xFF;
    assert (((m << 8) | op) >> 8) & 0xFF == m & 0xFF;
  }
}
