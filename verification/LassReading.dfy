/**
 The assembler's output read back: the numbers and texts of data lines, and the opcode,
 registers and immediate of code lines.
 */
module LassReading {
  import opened Common
  import opened NumberSpec
  import opened StrtokSpec
  import opened TwoPass
  import opened LassSpec
  import opened LassProofs

  // ----- little-endian words

  /** The number that bytes stand for, least significant first. */
  function Little(bs: seq<byte>): (r: nat) {
    if bs == [] then 0 else bs[0] + 256 * Little(bs[1..])
  }

  lemma Little1(a: byte)
    ensures Little([a]) == a
  {
    assert [a][1..] == [];
  }

  lemma Little2(a: byte, b: byte)
    ensures Little([a, b]) == a + 256 * b
  {
    assert [a, b][1..] == [b];
    Little1(b);
  }

  lemma Little4(a: byte, b: byte, c: byte, d: byte)
    ensures Little([a, b, c, d]) == a + 0x100 * b + 0x1_0000 * c + 0x100_0000 * d
  {
    assert [a, b, c, d][1..] == [b, c, d] && [b, c, d][1..] == [c, d];
    Little2(c, d);
  }

  /** An int's low bits are those of the number that was read. */
  lemma ToIntLow32(x: int)
    ensures ToInt(x) % 0x1_0000_0000 == x % 0x1_0000_0000
    ensures ToInt(x) % 0x1_0000 == x % 0x1_0000 && ToInt(x) % 0x100 == x % 0x100
  {
    var q := x / 0x1_0000_0000;
    var k := if x % 0x1_0000_0000 < 0x8000_0000 then q else q + 1;
    assert ToInt(x) == x - 0x1_0000_0000 * k;
    ModShift(x, 0x1_0000_0000, k);
    assert 0x1_0000_0000 * k == 0x1_0000 * (0x1_0000 * k);
    ModShift(x, 0x1_0000, 0x1_0000 * k);
    assert 0x1_0000_0000 * k == 0x100 * (0x100_0000 * k);
    ModShift(x, 0x100, 0x100_0000 * k);
  }

  lemma ModShift(x: int, m: int, k: int)
    requires m > 0
    ensures (x - m * k) % m == x % m
  {
    var y := x - m * k;
    var d := x / m - y / m - k;
    assert m * d == m * (x / m) - m * (y / m) - m * k;
    MulAway(m, d);
  }

  lemma Remainder(x: int, m: int, q: int, r: int)
    requires 0 <= r < m && x == m * q + r
    ensures x % m == r
  {
    var d := x / m - q;
    assert m * d == m * (x / m) - m * q;
    MulAway(m, d);
  }

  /** One byte off a number. */
  lemma Peel(x: int, m: int)
    requires m > 0
    ensures x % (0x100 * m) == LowInt(x) + 0x100 * (x / 0x100 % m)
  {
    var q := x / 0x100;
    var u, v := q / m, q % m;
    assert x == 0x100 * q + LowInt(x) && q == m * u + v;
    assert x == (0x100 * m) * u + (0x100 * v + LowInt(x));
    Remainder(x, 0x100 * m, u, 0x100 * v + LowInt(x));
  }

  lemma Split4(x: int)
    ensures LowInt(x) + 0x100 * LowInt(x / 0x100) + 0x1_0000 * LowInt(x / 0x1_0000) + 0x100_0000 * LowInt(x / 0x100_0000)
         == x % 0x1_0000_0000
  {
    Peel(x, 0x100_0000);
    Peel(x / 0x100, 0x1_0000);
    Peel(x / 0x1_0000, 0x100);
    Quotients(x);
  }

  lemma Quotients(x: int)
    ensures x / 0x100 / 0x100 == x / 0x1_0000 && x / 0x1_0000 / 0x100 == x / 0x100_0000
  {
  }

  lemma Split2(x: int)
    ensures LowInt(x) + 0x100 * LowInt(x / 0x100) == x % 0x1_0000
  {
  }

  /** Four bytes read back as the number, modulo 2^32. */
  lemma Bytes4Reads(x: int)
    ensures Little(Bytes4(x)) == x % 0x1_0000_0000
  {
    Little4(LowInt(x), LowInt(x / 0x100), LowInt(x / 0x1_0000), LowInt(x / 0x100_0000));
    Split4(x);
  }

  // ----- db, dw, dd

  /** How many bytes a word of a data line takes: a number its width, a text its length in db only. */
  function DataLength(width: nat, w: string): (r: nat) {
    if StartsWithDigit(w) then width else if width == 1 then |w| else 0
  }

  function DataOffset(width: nat, ws: seq<string>, k: nat): (r: nat)
    requires k <= |ws|
  {
    if k == 0 then 0 else DataOffset(width, ws, k - 1) + DataLength(width, ws[k - 1])
  }

  /** The bytes read back as the number, or are the characters. */
  ghost predicate ReadsAs(bs: seq<byte>, width: nat, w: string) {
    if StartsWithDigit(w) then Little(bs) == LassAtoi(w) % (if width == 1 then 0x100 else if width == 2 then 0x1_0000 else 0x1_0000_0000)
    else width == 1 ==> |bs| == |w| && forall i :: 0 <= i < |w| ==> bs[i] == w[i] as int % 256
  }

  lemma {:induction false} TextBytesAt(s: string)
    ensures |TextBytes(s)| == |s| && forall i :: 0 <= i < |s| ==> TextBytes(s)[i] == s[i] as int % 256
  {
    if s != "" {
      TextBytesAt(s[1..]);
    }
  }

  lemma DataTokenReads(width: nat, w: string)
    requires width == 1 || width == 2 || width == 4
    ensures |DataToken(width, w)| == DataLength(width, w) && ReadsAs(DataToken(width, w), width, w)
  {
    var n := ToInt(LassAtoi(w));
    ToIntLow32(LassAtoi(w));
    if !StartsWithDigit(w) {
      TextBytesAt(w);
    } else if width == 1 {
      Little1(LowInt(n));
    } else if width == 2 {
      Little2(LowInt(n), LowInt(n / 0x100));
      Split2(n);
    } else {
      Bytes4Reads(n);
    }
  }

  function Pieces(width: nat, ws: seq<string>): (r: seq<seq<byte>>)
    ensures |r| == |ws|
  {
    seq(|ws|, i requires 0 <= i < |ws| => DataToken(width, ws[i]))
  }

  /** The pieces from i on, one behind the other. */
  function Joined(ps: seq<seq<byte>>, i: nat): (r: seq<byte>)
    requires i <= |ps|
    decreases |ps| - i
  {
    if i == |ps| then [] else ps[i] + Joined(ps, i + 1)
  }

  lemma {:induction false} JoinedShift(p: seq<byte>, ps: seq<seq<byte>>, i: nat)
    requires i <= |ps|
    ensures Joined([p] + ps, i + 1) == Joined(ps, i)
    decreases |ps| - i
  {
    if i < |ps| {
      assert ([p] + ps)[i + 1] == ps[i];
      JoinedShift(p, ps, i + 1);
    }
  }

  lemma {:induction false} JoinedTail(ps: seq<seq<byte>>, i: nat)
    requires i <= |ps|
    ensures Joined(ps + [[]], i) == Joined(ps, i)
    decreases |ps| - i
  {
    var all := ps + [[]];
    if i < |ps| {
      assert all[i] == ps[i];
      JoinedTail(ps, i + 1);
    } else {
      assert Joined(all, |all|) == [];
    }
  }

  function Offset(ps: seq<seq<byte>>, k: nat): (r: nat)
    requires k <= |ps|
  {
    if k == 0 then 0 else Offset(ps, k - 1) + |ps[k - 1]|
  }

  lemma {:induction false} JoinedAt(ps: seq<seq<byte>>, i: nat)
    requires i <= |ps|
    ensures Offset(ps, i) <= |Joined(ps, 0)| && Joined(ps, 0)[Offset(ps, i)..] == Joined(ps, i)
  {
    if i > 0 {
      JoinedAt(ps, i - 1);
      DropFirst(Joined(ps, 0), Offset(ps, i - 1), ps[i - 1], Joined(ps, i));
    }
  }

  lemma DropFirst(all: seq<byte>, at: nat, a: seq<byte>, b: seq<byte>)
    requires at <= |all| && all[at..] == a + b
    ensures at + |a| <= |all| && all[at + |a|..] == b && all[at..at + |a|] == a
  {
    assert all[at..][|a|..] == b && all[at..][..|a|] == a;
  }

  lemma {:induction false} DataIsTokens(table: seq<Row>, width: nat, line: string, pos: nat)
    requires pos <= |line|
    ensures DataBytes(Lass(table), width, line, pos) == Joined(Pieces(width, Tokens(line, pos, ", '\"")), 0)
    decreases |line| - pos
  {
    var t := NextToken(line, pos, ", '\"");
    var w := line[t.start..t.end];
    var rest := if t.next == -1 then [] else Tokens(line, t.next, ", '\"");
    PiecesCons(width, w, rest);
    if t.next != -1 {
      DataIsTokens(table, width, line, t.next);
    }
  }

  lemma PiecesCons(width: nat, w: string, rest: seq<string>)
    ensures Joined(Pieces(width, [w] + rest), 0) == DataToken(width, w) + Joined(Pieces(width, rest), 0)
  {
    PiecesAppend(width, [w], rest);
    assert Pieces(width, [w]) == [DataToken(width, w)];
    JoinedCons(DataToken(width, w), Pieces(width, rest));
  }

  lemma PiecesAppend(width: nat, vs: seq<string>, ws: seq<string>)
    ensures Pieces(width, vs + ws) == Pieces(width, vs) + Pieces(width, ws)
  {
    MapAppend(w => DataToken(width, w), vs, ws);
  }

  lemma MapAppend(f: string -> seq<byte>, vs: seq<string>, ws: seq<string>)
    ensures seq(|vs + ws|, i requires 0 <= i < |vs + ws| => f((vs + ws)[i]))
         == seq(|vs|, i requires 0 <= i < |vs| => f(vs[i])) + seq(|ws|, i requires 0 <= i < |ws| => f(ws[i]))
  {
  }

  lemma JoinedCons(p: seq<byte>, ps: seq<seq<byte>>)
    ensures Joined([p] + ps, 0) == p + Joined(ps, 0)
  {
    assert ([p] + ps)[0] == p;
    JoinedShift(p, ps, 0);
  }

  /** The words behind the directive. */
  function DataWords(line: string): (r: seq<string>) {
    var t := NextToken(line, 0, " ,\t");
    if t.next == -1 then [] else Words(line, t.next, ", '\"")
  }

  lemma DataIsWords(table: seq<Row>, width: nat, line: string)
    ensures DataBytes(Lass(table), width, line, NextToken(line, 0, " ,\t").next) == Joined(Pieces(width, DataWords(line)), 0)
  {
    var pos := NextToken(line, 0, " ,\t").next;
    if pos != -1 {
      DataIsTokens(table, width, line, pos);
      TokensAreTheWords(line, pos, ", '\"");
      WordsSuffice(width, Words(line, pos, ", '\""), Tail(line, pos, ", '\""));
    }
  }

  lemma WordsSuffice(width: nat, ws: seq<string>, tail: seq<string>)
    requires tail == [] || tail == [""]
    ensures Joined(Pieces(width, ws + tail), 0) == Joined(Pieces(width, ws), 0)
  {
    if tail == [] {
      assert ws + tail == ws;
    } else {
      PiecesAppend(width, ws, [""]);
      assert DataToken(width, "") == [] && Pieces(width, [""]) == [[]];
      JoinedTail(Pieces(width, ws), 0);
    }
  }

  lemma {:induction false} OffsetsAgree(width: nat, ws: seq<string>, k: nat)
    requires k <= |ws| && (width == 1 || width == 2 || width == 4)
    ensures Offset(Pieces(width, ws), k) == DataOffset(width, ws, k)
  {
    if k > 0 {
      OffsetsAgree(width, ws, k - 1);
      PieceLength(width, ws, k - 1);
    }
  }

  lemma PieceLength(width: nat, ws: seq<string>, k: nat)
    requires k < |ws| && (width == 1 || width == 2 || width == 4)
    ensures |Pieces(width, ws)[k]| == DataLength(width, ws[k])
  {
    DataTokenReads(width, ws[k]);
  }

  /** Word k of a data line lies in its bytes behind those of the words before it, and reads back. */
  ghost predicate WordStored(bytes: seq<byte>, width: nat, ws: seq<string>, k: nat)
    requires k < |ws|
  {
    var at, end := DataOffset(width, ws, k), DataOffset(width, ws, k + 1);
    at <= end <= |bytes| && ReadsAs(bytes[at..end], width, ws[k])
  }

  lemma DataStored(width: nat, ws: seq<string>, k: nat)
    requires k < |ws| && (width == 1 || width == 2 || width == 4)
    ensures WordStored(Joined(Pieces(width, ws), 0), width, ws, k)
  {
    var ps := Pieces(width, ws);
    OffsetsAgree(width, ws, k);
    OffsetsAgree(width, ws, k + 1);
    JoinedAt(ps, k);
    DropFirst(Joined(ps, 0), Offset(ps, k), ps[k], Joined(ps, k + 1));
    DataTokenReads(width, ws[k]);
  }

  /**
   In the output of any text, the bytes of a db, dw or dd line are those of its words, one behind
   the other: each number reads back, and in db each text is there letter by letter.
   */
  lemma DataInProgram(table: seq<Row>, elf: int, texts: seq<string>, j: nat)
    requires j < |texts| && LineOf(texts[j]) == Code(texts[j])
    requires var t := NextToken(texts[j], 0, " ,\t"); DataWidth(texts[j][t.start..t.end]) != 0
    ensures var t := NextToken(texts[j], 0, " ,\t");
            var width, ws := DataWidth(texts[j][t.start..t.end]), DataWords(texts[j]);
            var bytes := LineSlice(EmitterOf(Lass(table)), elf, LinesOf(texts), j);
            |bytes| == DataOffset(width, ws, |ws|) && forall k :: 0 <= k < |ws| ==> WordStored(bytes, width, ws, k)
  {
    var line := texts[j];
    var t := NextToken(line, 0, " ,\t");
    var width, ws := DataWidth(line[t.start..t.end]), DataWords(line);
    LineIsEmitted(table, elf, texts, j);
    DataIsWords(table, width, line);
    JoinedAt(Pieces(width, ws), |ws|);
    OffsetsAgree(width, ws, |ws|);
    forall k | 0 <= k < |ws| ensures WordStored(Joined(Pieces(width, ws), 0), width, ws, k) {
      DataStored(width, ws, k);
    }
  }

  // ----- lines of code without a memory operand

  /** The tokens from pos on are these operands, and then the line or a comment ends it. */
  ghost predicate OperandsAt(line: string, pos: int, ops: seq<string>)
    requires pos <= |line|
    decreases |ops|
  {
    if ops == [] then
      pos >= 0 ==> var v := NextToken(line, pos, " ,\t"); v.start < v.end && line[v.start] == ';'
    else
      && pos >= 0 && ops[0] != "" && ops[0][0] != ';'
      && var u := NextToken(line, pos, " ,\t");
         line[u.start..u.end] == ops[0] && u.start != Bracket(line) && OperandsAt(line, u.next, ops[1..])
  }

  /** A line of a mnemonic and these operands, and perhaps a comment. */
  ghost predicate CodeLine(line: string, mnemonic: string, ops: seq<string>) {
    var t := NextToken(line, 0, " ,\t");
    && line[t.start..t.end] == mnemonic && DataWidth(mnemonic) == 0 && mnemonic[0] != ';'
    && t.start != Bracket(line) && OperandsAt(line, t.next, ops)
  }

  function WithOperands(x: Syntax, o: Operands, ops: seq<string>, env: Env, p: nat): (r: Operands)
    decreases |ops|
  {
    if ops == [] then o else WithOperands(x, PlainOperand(x, o, ops[0], env, p), ops[1..], env, p)
  }

  lemma {:induction false} ParseOperandsAt(x: Syntax, line: string, pos: int, o: Operands, ops: seq<string>, env: Env, p: nat)
    requires pos <= |line| && OperandsAt(line, pos, ops) && 1 <= o.shape.count && o.shape.count + |ops| <= 3
    ensures ParseTokens(x, line, pos, o, env, p) == Parsed(WithOperands(x, o, ops, env, p))
    decreases |ops|
  {
    if ops == [] {
      CommentEnds(x, line, pos, o, env, p);
    } else {
      var u := NextToken(line, pos, " ,\t");
      ParseOperandsAt(x, line, u.next, PlainOperand(x, o, ops[0], env, p), ops[1..], env, p);
    }
  }

  function FirstOperands(mnemonic: string): Operands {
    NO_OPERANDS.(shape := NO_OPERANDS.shape.(inst := mnemonic, count := 1))
  }

  lemma ParseCode(x: Syntax, line: string, mnemonic: string, ops: seq<string>, env: Env, p: nat)
    requires CodeLine(line, mnemonic, ops) && |ops| <= 2
    ensures ParseTokens(x, line, 0, NO_OPERANDS, env, p) == Parsed(WithOperands(x, FirstOperands(mnemonic), ops, env, p))
  {
    var t := NextToken(line, 0, " ,\t");
    ParseOperandsAt(x, line, t.next, FirstOperands(mnemonic), ops, env, p);
  }

  /** The class of a token as an operand: a label counts as a short relative one. */
  function OperandClass(op: string): (r: bv32) {
    if Classify(op) == MINUS_ONE then REL8 else Classify(op)
  }

  function ClassAt(ops: seq<string>, i: nat): (r: bv32) {
    if i < |ops| then OperandClass(ops[i]) else NONE
  }

  /** A number or a label. */
  predicate IsConstant(c: bv32) {
    c == IMM8 || c == IMM32 || c == REL8
  }

  /** The value of a number, or the address a label is resolved to. */
  function OperandValue(op: string, env: Env, p: nat): (r: int) {
    if Classify(op) == MINUS_ONE then FindSymbol(env, p, op) else LassAtoi(op)
  }

  function ShapeOf(mnemonic: string, c0: bv32, c1: bv32, count: nat): Shape {
    NO_OPERANDS.shape.(inst := mnemonic, count := count, syn0 := c0, syn1 := c1, imm := IsConstant(c0) || IsConstant(c1))
  }

  /** In the output of any text, such a line is its row's opcode bytes and the immediate. */
  lemma SliceIsCode(table: seq<Row>, row: Row, elf: int, texts: seq<string>, j: nat, mnemonic: string, ops: seq<string>)
    returns (o: Operands)
    requires j < |texts| && LineOf(texts[j]) == Code(texts[j]) && CodeLine(texts[j], mnemonic, ops) && |ops| <= 2
    requires FindInstruction(table, mnemonic, ClassAt(ops, 0), ClassAt(ops, 1)) == Some(row)
    ensures var emit, lines := EmitterOf(Lass(table)), LinesOf(texts);
            && LineSlice(emit, elf, lines, j) == CodeBytes(Lass(table), row, o, Start(emit, lines, j), elf)
            && o.shape == ShapeOf(mnemonic, ClassAt(ops, 0), ClassAt(ops, 1), |ops| + 1)
            && (|ops| > 0 && IsConstant(ClassAt(ops, |ops| - 1)) ==>
                  o.immediate == ToInt(OperandValue(ops[|ops| - 1], FinalEnv(emit, elf, lines), Start(emit, lines, j))))
  {
    var emit, lines := EmitterOf(Lass(table)), LinesOf(texts);
    var env, p := FinalEnv(emit, elf, lines), Start(emit, lines, j);
    o := WithOperands(Lass(table), FirstOperands(mnemonic), ops, env, p);
    LineIsEmitted(table, elf, texts, j);
    ParseCode(Lass(table), texts[j], mnemonic, ops, env, p);
    ShapeIs(table, mnemonic, ops, env, p);
    EmitParsed(Lass(table), env, p, texts[j], mnemonic, o);
  }

  lemma ShapeIs(table: seq<Row>, mnemonic: string, ops: seq<string>, env: Env, p: nat)
    requires |ops| <= 2
    ensures var o := WithOperands(Lass(table), FirstOperands(mnemonic), ops, env, p);
            && o.shape == ShapeOf(mnemonic, ClassAt(ops, 0), ClassAt(ops, 1), |ops| + 1)
            && (|ops| > 0 && IsConstant(ClassAt(ops, |ops| - 1)) ==>
                  o.immediate == ToInt(OperandValue(ops[|ops| - 1], env, p)))
  {
    var x, o0 := Lass(table), FirstOperands(mnemonic);
    if |ops| == 0 {
    } else if |ops| == 1 {
      assert ops == [ops[0]];
      OneOperand(x, o0, ops[0], env, p);
      OperandIs(table, o0, ops[0], env, p);
    } else {
      var o1 := PlainOperand(x, o0, ops[0], env, p);
      assert ops[1..] == [ops[1]];
      OneOperand(x, o1, ops[1], env, p);
      OperandIs(table, o0, ops[0], env, p);
      OperandIs(table, o1, ops[1], env, p);
    }
  }

  lemma OneOperand(x: Syntax, o: Operands, op: string, env: Env, p: nat)
    ensures WithOperands(x, o, [op], env, p) == PlainOperand(x, o, op, env, p)
  {
    assert [op][1..] == [];
  }

  /** One operand more. */
  lemma OperandIs(table: seq<Row>, o: Operands, op: string, env: Env, p: nat)
    ensures var c, r := OperandClass(op), PlainOperand(Lass(table), o, op, env, p);
            && r.shape == (if o.shape.count == 1 then o.shape.(syn0 := c) else o.shape.(syn1 := c))
                          .(count := o.shape.count + 1, imm := o.shape.imm || IsConstant(c))
            && (IsConstant(c) ==> r.immediate == ToInt(OperandValue(op, env, p)))
  {
    ConstantExact(op);
  }

  lemma ConstantExact(op: string)
    ensures IsConstant(OperandClass(op)) <==> Classify(op) == MINUS_ONE || IsNumber(Classify(op))
    ensures Classify(op) == MINUS_ONE ==> !IsNumber(OperandClass(op))
  {
    ClassifyKinds(op);
    ClassifyExact(op);
    if Classify(op) != MINUS_ONE {
      ConstantKinds(Classify(op));
    }
  }

  lemma ConstantKinds(c: bv32)
    requires IsImmediate(c) || IsGeneral(c) || IsSegment(c)
    ensures IsConstant(c) <==> IsNumber(c)
  {
  }

  // ----- classes

  /** A general register, 32 or 8 bits wide. */
  predicate IsGeneral(c: bv32) {
    c == (c & 0x7) | R32 || c == (c & 0x7) | R8
  }

  predicate IsSegment(c: bv32) {
    c == (c & 0x7) | SREG
  }

  predicate IsImmediate(c: bv32) {
    c == IMM8 || c == IMM32
  }

  /** A token is a number, a general register, a segment register, or a label. */
  lemma ClassifyKinds(s: string)
    ensures StartsWithDigit(s) <==> IsImmediate(Classify(s))
    ensures !StartsWithDigit(s) && !ReadAsLabel(s) ==> IsGeneral(Classify(s)) || IsSegment(Classify(s))
  {
    CodesAreSmall();
    FindNameExact(REGISTERS, s, 0);
    FindNameExact(HALF, s, 0);
    FindNameExact(SEGMENTS, s, 0);
    KindsIn(REGISTERS, HALF, SEGMENTS, s);
    ClassifyExact(s);
    KindsDiffer(Classify(s));
  }

  lemma KindsIn(registers: seq<Named>, half: seq<Named>, segments: seq<Named>, s: string)
    requires FindName(registers, s, 0).Some? ==> FindName(registers, s, 0).value < 8
    requires FindName(half, s, 0).Some? ==> FindName(half, s, 0).value < 8
    requires FindName(segments, s, 0).Some? ==> FindName(segments, s, 0).value < 8
    ensures var c := ClassifyIn(registers, half, segments, s);
            if StartsWithDigit(s) then IsImmediate(c) else IsGeneral(c) || IsSegment(c) || c == MINUS_ONE
  {
  }

  lemma KindsDiffer(c: bv32)
    ensures IsImmediate(c) ==> !IsGeneral(c) && !IsSegment(c) && c != MINUS_ONE
    ensures IsGeneral(c) ==> !IsSegment(c) && c != MINUS_ONE
    ensures IsSegment(c) ==> c != MINUS_ONE
  {
  }

  /** The number of the register that a token is read as. */
  function RegisterNumber(s: string): (r: nat)
    ensures r < 8
  {
    (Classify(s) & 0x7) as int
  }

  // ----- opcode bytes, in numbers

  function Prefixes(row: Row): (r: seq<byte>) {
    (if row.secondary != 0 then [Low(row.secondary)] else []) + (if row.prefix != 0 then [0x0F] else [])
  }

  /** The ModR/M byte of register operands: mode 3 and two fields of three bits. */
  function RegisterMode(reg: nat, rm: nat): (r: byte)
    requires reg < 8 && rm < 8
  {
    0xC0 + 8 * reg + rm
  }

  /** The byte with a register's number in its low three bits. */
  function InOpcode(op: byte, n: nat): (r: byte)
    requires n < 8
  {
    op / 8 * 8 + n
  }

  function Bits3(x: bv32): (r: nat)
    ensures r < 8
  {
    (x & 0x7) as int
  }

  lemma ModRMByte(reg: bv32, rm: bv32)
    ensures Low(ModRM(3, reg, rm)) == RegisterMode(Bits3(reg), Bits3(rm))
  {
  }

  lemma OpcodeByte(op: bv32, n: bv32)
    ensures Low((op & !0x7) | (n & 0x7)) == InOpcode(Low(op), Bits3(n))
  {
    assert ((op & !0x7) | (n & 0x7)) & 0xFF == ((op & 0xFF) & !0x7) | (n & 0x7);
    LowThree((op & 0xFF) as bv8, (n & 0x7) as bv8);
  }

  lemma LowThree(a: bv8, n: bv8)
    requires n < 8
    ensures ((a & !0x7) | n) as int == a as int / 8 * 8 + n as int
  {
  }

  lemma GeneralBits(c: bv32)
    requires IsGeneral(c)
    ensures c & REGISTER != 0 && c & (R32 | R8) != 0 && c & ANY_IMM == 0 && c & SREG == 0 && c != 0
    ensures c & !(R32 | R8) == c & 0x7 && c & !REGISTER == c & 0x7
  {
  }

  lemma SegmentBits(c: bv32)
    requires IsSegment(c)
    ensures c & REGISTER != 0 && c & (R32 | R8) == 0 && c & ANY_IMM == 0 && c & SREG != 0 && c != 0
    ensures c & !REGISTER == c & 0x7
  {
  }

  lemma ConstantBits(c: bv32)
    requires IsConstant(c)
    ensures c & REGISTER == 0 && c & (R32 | R8) == 0 && c & ANY_IMM != 0 && c != 0
    ensures !IsGeneral(c) && !IsSegment(c)
  {
  }

  /** A register's number in the opcode, as the code masks it. */
  lemma AlternateByte(op: bv32, c: bv32)
    ensures Low((op & !0x7) | ((c & 0x7) & !(R32 | R8))) == InOpcode(Low(op), Bits3(c))
  {
    assert (c & 0x7) & !(R32 | R8) == c & 0x7;
    OpcodeByte(op, c);
  }

  lemma AlternateForm(row: Row, o: Shape)
    requires o.m == MINUS_ONE && !o.rev && row.extension == ALTERNATE
    requires (o.syn0 & REGISTER != 0 && o.syn1 & REGISTER != 0) || (o.syn0 & (R32 | R8) != 0 && o.syn1 & ANY_IMM != 0)
    ensures TwoOperandBytes(row, o) == [Low((row.primary & !0x7) | ((o.syn0 & 0x7) & !(R32 | R8)))]
  {
  }

  /** Two registers. */
  lemma TwoRegisterBytes(row: Row, o: Shape)
    requires o.m == MINUS_ONE && o.mode == 3 && !o.rev && row.primary < 0x100
    requires o.syn0 & REGISTER != 0 && o.syn1 & REGISTER != 0
    ensures TwoOperandBytes(row, o) ==
            if row.extension == ALTERNATE then [InOpcode(Low(row.primary), Bits3(o.syn0))]
            else [Low(row.primary), RegisterMode(Bits3(o.syn0), Bits3(o.syn1))]
  {
    if row.extension == ALTERNATE {
      AlternateForm(row, o);
      AlternateByte(row.primary, o.syn0);
    } else {
      RegisterForm(row, o);
      OpcodeThenModRM(ModRM(3, o.syn0, o.syn1), row.primary);
      ModRMByte(o.syn0, o.syn1);
    }
  }

  lemma RegisterBits(c: bv32)
    requires IsGeneral(c) || IsSegment(c)
    ensures c & REGISTER != 0 && c != 0
  {
    if IsGeneral(c) {
      GeneralBits(c);
    } else {
      SegmentBits(c);
    }
  }

  lemma NumberForm(row: Row, o: Shape)
    requires o.m == MINUS_ONE && !o.rev && row.extension != ALTERNATE
    requires o.syn0 & (R32 | R8) != 0 && o.syn1 & REGISTER == 0 && o.syn1 & ANY_IMM != 0
    ensures TwoOperandBytes(row, o) == Bytes2((ModRM(o.mode, row.extension, o.syn0) << 8) | row.primary)
  {
    NoImmediateBit(o.syn0);
  }

  /** A register and a constant: the row's extension takes the place of the second register. */
  lemma RegisterNumberBytes(row: Row, o: Shape)
    requires o.m == MINUS_ONE && o.mode == 3 && !o.rev && row.primary < 0x100
    requires o.syn0 & (R32 | R8) != 0 && o.syn1 & REGISTER == 0 && o.syn1 & ANY_IMM != 0
    ensures TwoOperandBytes(row, o) ==
            if row.extension == ALTERNATE then [InOpcode(Low(row.primary), Bits3(o.syn0))]
            else [Low(row.primary), RegisterMode(Bits3(row.extension), Bits3(o.syn0))]
  {
    if row.extension == ALTERNATE {
      AlternateForm(row, o);
      AlternateByte(row.primary, o.syn0);
    } else {
      NumberForm(row, o);
      OpcodeThenModRM(ModRM(3, row.extension, o.syn0), row.primary);
      ModRMByte(row.extension, o.syn0);
    }
  }

  lemma OneAlternateForm(row: Row, o: Shape)
    requires o.m == MINUS_ONE && row.extension == ALTERNATE && o.syn0 & !REGISTER == o.syn0 & 0x7
    ensures OneOperandBytes(row, o) == [Low((row.primary & !0x7) | (o.syn0 & 0x7))]
  {
  }

  lemma OneRegisterForm(row: Row, o: Shape)
    requires o.m == MINUS_ONE && row.extension != ALTERNATE && o.syn0 & !REGISTER == o.syn0 & 0x7
    requires o.syn0 != 0 && o.syn0 & ANY_IMM == 0 && o.syn0 & SREG == 0
    ensures OneOperandBytes(row, o) == Bytes2((ModRM(o.mode, row.extension, o.syn0 & 0x7) << 8) | row.primary)
  {
  }

  /** One register. */
  lemma OneRegisterBytes(row: Row, o: Shape)
    requires o.m == MINUS_ONE && o.mode == 3 && row.primary < 0x100 && (IsGeneral(o.syn0) || IsSegment(o.syn0))
    ensures OneOperandBytes(row, o) ==
            if row.extension == ALTERNATE then [InOpcode(Low(row.primary), Bits3(o.syn0))]
            else if IsSegment(o.syn0) then [Low(row.primary)]
            else [Low(row.primary), RegisterMode(Bits3(row.extension), Bits3(o.syn0))]
  {
    if IsSegment(o.syn0) {
      SegmentBits(o.syn0);
    } else {
      GeneralBits(o.syn0);
    }
    if row.extension == ALTERNATE {
      OneAlternateForm(row, o);
      OpcodeByte(row.primary, o.syn0);
    } else if IsGeneral(o.syn0) {
      KindsDiffer(o.syn0);
      OneRegisterForm(row, o);
      ModRMOfBits(row, o.syn0);
    }
  }

  lemma SameModRM(e: bv32, c: bv32)
    ensures ModRM(3, e, c & 0x7) == ModRM(3, e, c)
  {
  }

  lemma ModRMOfBits(row: Row, c: bv32)
    requires row.primary < 0x100
    ensures Bytes2((ModRM(3, row.extension, c & 0x7) << 8) | row.primary)
         == [Low(row.primary), RegisterMode(Bits3(row.extension), Bits3(c))]
  {
    SameModRM(row.extension, c);
    OpcodeThenModRM(ModRM(3, row.extension, c), row.primary);
    ModRMByte(row.extension, c);
  }

  /** A constant alone, or nothing. */
  lemma ConstantAlone(row: Row, o: Shape)
    requires (o.syn0 == 0 || IsConstant(o.syn0)) && row.extension != ALTERNATE
    ensures OneOperandBytes(row, o) == [Low(row.primary)]
  {
    if IsConstant(o.syn0) {
      ConstantBits(o.syn0);
    }
  }

  /** What stands between the prefixes and the immediate, for operands of these classes. */
  function OpcodePart(row: Row, c0: bv32, c1: bv32): (r: seq<byte>) {
    var op := Low(row.primary);
    if row.extension == ALTERNATE then [InOpcode(op, Bits3(c0))]
    else if c1 == NONE then (if IsGeneral(c0) then [op, RegisterMode(Bits3(row.extension), Bits3(c0))] else [op])
    else if IsConstant(c1) then [op, RegisterMode(Bits3(row.extension), Bits3(c0))]
    else [op, RegisterMode(Bits3(c0), Bits3(c1))]
  }

  ghost predicate UsualBody(row: Row, c0: bv32, c1: bv32, key: nat) {
    || (c1 == NONE && (IsGeneral(c0) || IsSegment(c0)))
    || (c1 == NONE && (c0 == NONE || IsConstant(c0)) && row.extension != ALTERNATE)
    || ((IsGeneral(c0) || IsSegment(c0)) && (IsGeneral(c1) || IsSegment(c1)))
    || (IsGeneral(c0) && IsConstant(c1))
  }

  /** The operands a row can have: none, a constant, a register, two registers, or a register and a constant. */
  ghost predicate Usual(row: Row, c0: bv32, c1: bv32) {
    forall key: nat :: UsualBody(row, c0, c1, key)
  }

  lemma HeadIs(row: Row, o: Shape)
    requires o.m == MINUS_ONE && o.mode == 3 && !o.rev && o.sib == 0 && row.primary < 0x100 && Usual(row, o.syn0, o.syn1)
    ensures HeadBytes(row, o) == Prefixes(row) + OpcodePart(row, o.syn0, o.syn1)
  {
    PartIs(row, o);
    HeadWith(row, o, if o.syn1 != 0 then TwoOperandBytes(row, o) else OneOperandBytes(row, o));
  }

  lemma HeadWith(row: Row, o: Shape, part: seq<byte>)
    requires o.sib == 0 && part == if o.syn1 != 0 then TwoOperandBytes(row, o) else OneOperandBytes(row, o)
    ensures HeadBytes(row, o) == Prefixes(row) + part
  {
    assert Prefixes(row) + part + [] == Prefixes(row) + part;
  }

  lemma PartIs(row: Row, o: Shape)
    requires o.m == MINUS_ONE && o.mode == 3 && !o.rev && row.primary < 0x100 && Usual(row, o.syn0, o.syn1)
    ensures (if o.syn1 != 0 then TwoOperandBytes(row, o) else OneOperandBytes(row, o)) == OpcodePart(row, o.syn0, o.syn1)
  {
    assert UsualBody(row, o.syn0, o.syn1, 0);
    NoneIsNoRegister();
    if IsConstant(o.syn0) {
      ConstantBits(o.syn0);
    }
    KindsDiffer(o.syn0);
    if o.syn1 == NONE {
      if o.syn0 == NONE || IsConstant(o.syn0) {
        ConstantAlone(row, o);
      } else {
        OneRegisterBytes(row, o);
      }
    } else if IsConstant(o.syn1) {
      GeneralBits(o.syn0);
      ConstantBits(o.syn1);
      RegisterNumberBytes(row, o);
    } else {
      RegisterBits(o.syn0);
      RegisterBits(o.syn1);
      TwoRegisterBytes(row, o);
    }
  }

  lemma NoneIsNoRegister()
    ensures !IsGeneral(NONE) && !IsSegment(NONE) && !IsConstant(NONE)
  {
  }

  // ----- the immediate

  function Form(row: Row): bv32 {
    if row.op2 == NONE then row.op1 else row.op2
  }

  lemma ImmediateReads(row: Row, o: Operands, start: nat, here: nat, elf: int, v: int)
    requires o.shape.mode == 3 && o.immediate == ToInt(v) && Form(row) != REL8 && Form(row) != REL32
    ensures var tail := ImmediateBytes(row, o, start, here, elf);
            if Form(row) == IMM8 then |tail| == 1 && Little(tail) == v % 0x100 else |tail| == 4 && Little(tail) == v % 0x1_0000_0000
  {
    ToIntLow32(v);
    if Form(row) == IMM8 {
      Little1(LowInt(o.immediate));
    } else {
      Bytes4Reads(o.immediate);
    }
  }

  /** The bytes are the head, and a constant of one or four bytes with this value behind it. */
  predicate HeadAndConstant(bytes: seq<byte>, head: seq<byte>, row: Row, v: int) {
    && head <= bytes
    && var tail := bytes[|head|..];
       if Form(row) == IMM8 then |tail| == 1 && Little(tail) == v % 0x100 else |tail| == 4 && Little(tail) == v % 0x1_0000_0000
  }

  lemma CodeReads(table: seq<Row>, row: Row, o: Operands, p: nat, elf: int, v: int)
    requires o.shape == ShapeOf(o.shape.inst, o.shape.syn0, o.shape.syn1, o.shape.count)
    requires row.primary < 0x100 && Usual(row, o.shape.syn0, o.shape.syn1)
    ensures var bytes, head := CodeBytes(Lass(table), row, o, p, elf), Prefixes(row) + OpcodePart(row, o.shape.syn0, o.shape.syn1);
            && (!o.shape.imm ==> bytes == head)
            && (o.shape.imm && o.immediate == ToInt(v) && Form(row) != REL8 && Form(row) != REL32 ==> HeadAndConstant(bytes, head, row, v))
  {
    var bytes, head := CodeBytes(Lass(table), row, o, p, elf), Prefixes(row) + OpcodePart(row, o.shape.syn0, o.shape.syn1);
    HeadIs(row, o.shape);
    if !o.shape.imm {
      assert head + [] == head;
    } else if o.immediate == ToInt(v) && Form(row) != REL8 && Form(row) != REL32 {
      ImmediateReads(row, o, p, p + |head|, elf, v);
      assert bytes[|head|..] == ImmediateBytes(row, o, p, p + |head|, elf);
    }
  }

  /**
   Main result for code: in the output of any text, a line of a mnemonic and up to two registers or
   constants is the row's prefixes, its opcode, the numbers of the registers in their places, and
   behind them the constant, which reads back as the number written or the address of the label.
   */
  lemma CodeInProgram(table: seq<Row>, row: Row, elf: int, texts: seq<string>, j: nat, mnemonic: string, ops: seq<string>)
    requires j < |texts| && LineOf(texts[j]) == Code(texts[j]) && CodeLine(texts[j], mnemonic, ops) && |ops| <= 2
    requires FindInstruction(table, mnemonic, ClassAt(ops, 0), ClassAt(ops, 1)) == Some(row)
    requires row.primary < 0x100 && Usual(row, ClassAt(ops, 0), ClassAt(ops, 1)) && Form(row) != REL8 && Form(row) != REL32
    ensures var emit, lines := EmitterOf(Lass(table)), LinesOf(texts);
            var bytes := LineSlice(emit, elf, lines, j);
            var head := Prefixes(row) + OpcodePart(row, ClassAt(ops, 0), ClassAt(ops, 1));
            if |ops| > 0 && IsConstant(ClassAt(ops, |ops| - 1)) then
              HeadAndConstant(bytes, head, row, OperandValue(ops[|ops| - 1], FinalEnv(emit, elf, lines), Start(emit, lines, j)))
            else bytes == head
  {
    var emit, lines := EmitterOf(Lass(table)), LinesOf(texts);
    var p, constant := Start(emit, lines, j), |ops| > 0 && IsConstant(ClassAt(ops, |ops| - 1));
    var v := if constant then OperandValue(ops[|ops| - 1], FinalEnv(emit, elf, lines), p) else 0;
    var o := SliceIsCode(table, row, elf, texts, j, mnemonic, ops);
    ConstantIsLast(row, ops);
    CodeReads(table, row, o, p, elf, v);
  }

  lemma ConstantIsLast(row: Row, ops: seq<string>)
    requires |ops| <= 2 && Usual(row, ClassAt(ops, 0), ClassAt(ops, 1))
    ensures IsConstant(ClassAt(ops, 0)) || IsConstant(ClassAt(ops, 1)) <==> |ops| > 0 && IsConstant(ClassAt(ops, |ops| - 1))
  {
    NoneIsNoRegister();
    if !(|ops| > 0 && IsConstant(ClassAt(ops, |ops| - 1))) {
      NoConstant(row, ops);
    }
  }

  lemma NoConstant(row: Row, ops: seq<string>)
    requires |ops| <= 2 && Usual(row, ClassAt(ops, 0), ClassAt(ops, 1)) && !(|ops| > 0 && IsConstant(ClassAt(ops, |ops| - 1)))
    ensures !IsConstant(ClassAt(ops, 0)) && !IsConstant(ClassAt(ops, 1))
  {
    assert UsualBody(row, ClassAt(ops, 0), ClassAt(ops, 1), 0);
    NoneIsNoRegister();
    if |ops| == 2 && IsConstant(ClassAt(ops, 0)) {
      ConstantBits(ClassAt(ops, 0));
      TokenIsSomething(ops[1]);
    }
  }

  lemma TokenIsSomething(op: string)
    ensures OperandClass(op) != NONE
  {
    ClassifyKinds(op);
    ClassifyExact(op);
    NoneIsNoRegister();
  }

  /**
   What a name stands for: where the first label that begins it starts, and the offset of the image;
   without such a label, "$$" is 0, "$" the start of the line, and anything else a placeholder.
   */
  lemma NameValue(table: seq<Row>, elf: int, texts: seq<string>, p: nat, name: string)
    requires ReadAsLabel(name)
    ensures var emit, lines := EmitterOf(Lass(table)), LinesOf(texts);
            var v, i := OperandValue(name, FinalEnv(emit, elf, lines), p), FirstLabel(lines, name, 0);
            && (i != -1 ==> v == Start(emit, lines, i) + elf)
            && (i == -1 && name == "$$" ==> v == 0)
            && (i == -1 && name == "$" ==> v == p + elf)
            && (i == -1 && (name == "" || name[0] != '$') ==> v == if name == "" then p + elf else p)
  {
    var emit, lines := EmitterOf(Lass(table)), LinesOf(texts);
    EmitterIsStable(Lass(table));
    NameResolved(emit, elf, lines, name);
    ClassifyExact(name);
  }

  // ----- which directive, and which width

  /** db for db and its fronts, dw and dd for themselves; any other word is no directive. */
  lemma DirectiveExact(tok: string)
    ensures DataWidth(tok) == if tok == "" || tok == "d" || tok == "db" then 1 else if tok == "dw" then 2 else if tok == "dd" then 4 else 0
  {
    FrontOfTwo(tok, 'd', 'b');
    FrontOfTwo(tok, 'd', 'w');
    FrontOfTwo(tok, 'd', 'd');
  }

  lemma FrontOfTwo(s: string, a: char, b: char)
    ensures s <= [a, b] <==> s == "" || s == [a] || s == [a, b]
  {
    if s <= [a, b] {
      if |s| == 1 {
        assert s == [s[0]];
      } else if |s| == 2 {
        assert s == [s[0], s[1]];
      }
    }
  }

  // ----- no number is cut short

  lemma ByteClass(s: string)
    requires Classify(s) == IMM8
    ensures -255 <= ToInt(LassAtoi(s)) <= 255 && StartsWithDigit(s)
  {
    ClassifyKinds(s);
  }

  lemma ByteRowNeedsByte(op1: bv32, c: bv32)
    requires (op1 & c) == op1 && op1 == IMM8 && (IsImmediate(c) || IsGeneral(c) || IsSegment(c))
    ensures c == IMM8
  {
  }

  /** The row for a number that does not fit a byte has no byte for it. */
  lemma ByteRowExact(table: seq<Row>, s: string, c0: bv32, c1: bv32)
    requires FindInstruction(table, s, c0, c1).Some? && Form(FindInstruction(table, s, c0, c1).value) == IMM8
    requires (c1 == NONE && IsImmediate(c0)) || (IsGeneral(c0) && IsImmediate(c1))
    ensures (if c1 == NONE then c0 else c1) == IMM8
  {
    var row := FindInstruction(table, s, c0, c1).value;
    FoundIsCandidate(table, s, c0, c1);
    FoundMatches(table, s, c0, c1);
    if row.op2 == NONE {
      ByteRowNeedsByte(row.op1, c0);
      KindsDiffer(c0);
    } else {
      SecondIsByte(row, s, c0, c1);
    }
  }

  lemma FoundMatches(table: seq<Row>, s: string, op1: bv32, op2: bv32)
    requires FindInstruction(table, s, op1, op2).Some?
    ensures var row := FindInstruction(table, s, op1, op2).value; FirstMatch(row, s, op1, op2) || SecondMatch(row, s, op1, op2)
  {
    FirstRowIsFirst(table, s, op1, op2, 0);
    SecondRowIsFirst(table, s, op1, op2, 0);
  }

  lemma SecondIsByte(row: Row, s: string, c0: bv32, c1: bv32)
    requires (FirstMatch(row, s, c0, c1) || SecondMatch(row, s, c0, c1)) && row.op2 == IMM8
    requires c1 == NONE || IsImmediate(c1)
    ensures c1 == IMM8
  {
  }

  /** So a number from 0 up to 2^31 that is written behind a mnemonic is there in full. */
  lemma NumberInFull(table: seq<Row>, row: Row, elf: int, texts: seq<string>, j: nat, mnemonic: string, ops: seq<string>)
    requires j < |texts| && LineOf(texts[j]) == Code(texts[j]) && CodeLine(texts[j], mnemonic, ops) && 1 <= |ops| <= 2
    requires FindInstruction(table, mnemonic, ClassAt(ops, 0), ClassAt(ops, 1)) == Some(row)
    requires row.primary < 0x100 && Form(row) != REL8 && Form(row) != REL32
    requires |ops| == 1 ==> row.extension != ALTERNATE
    requires |ops| == 2 ==> IsGeneral(Classify(ops[0]))
    requires StartsWithDigit(ops[|ops| - 1]) && 0 <= LassAtoi(ops[|ops| - 1]) < 0x8000_0000
    ensures var bytes := LineSlice(EmitterOf(Lass(table)), elf, LinesOf(texts), j);
            var head := Prefixes(row) + OpcodePart(row, ClassAt(ops, 0), ClassAt(ops, 1));
            head <= bytes && |bytes| == |head| + (if Form(row) == IMM8 then 1 else 4) && Little(bytes[|head|..]) == LassAtoi(ops[|ops| - 1])
  {
    var op := ops[|ops| - 1];
    NumberIsLast(row, ops);
    NumberCoded(table, row, elf, texts, j, mnemonic, ops);
    NumberFitsRow(table, row, mnemonic, ops);
    NothingCut(LineSlice(EmitterOf(Lass(table)), elf, LinesOf(texts), j),
               Prefixes(row) + OpcodePart(row, ClassAt(ops, 0), ClassAt(ops, 1)), row, LassAtoi(op));
  }

  lemma NumberCoded(table: seq<Row>, row: Row, elf: int, texts: seq<string>, j: nat, mnemonic: string, ops: seq<string>)
    requires j < |texts| && LineOf(texts[j]) == Code(texts[j]) && CodeLine(texts[j], mnemonic, ops) && 1 <= |ops| <= 2
    requires FindInstruction(table, mnemonic, ClassAt(ops, 0), ClassAt(ops, 1)) == Some(row)
    requires row.primary < 0x100 && Form(row) != REL8 && Form(row) != REL32 && Usual(row, ClassAt(ops, 0), ClassAt(ops, 1))
    requires IsConstant(ClassAt(ops, |ops| - 1)) && Classify(ops[|ops| - 1]) != MINUS_ONE
    ensures HeadAndConstant(LineSlice(EmitterOf(Lass(table)), elf, LinesOf(texts), j),
                            Prefixes(row) + OpcodePart(row, ClassAt(ops, 0), ClassAt(ops, 1)), row, LassAtoi(ops[|ops| - 1]))
  {
    CodeInProgram(table, row, elf, texts, j, mnemonic, ops);
  }

  lemma NumberFitsRow(table: seq<Row>, row: Row, mnemonic: string, ops: seq<string>)
    requires FindInstruction(table, mnemonic, ClassAt(ops, 0), ClassAt(ops, 1)) == Some(row) && 1 <= |ops| <= 2
    requires (ClassAt(ops, 1) == NONE && IsImmediate(ClassAt(ops, 0))) || (IsGeneral(ClassAt(ops, 0)) && IsImmediate(ClassAt(ops, 1)))
    requires (if ClassAt(ops, 1) == NONE then ClassAt(ops, 0) else ClassAt(ops, 1)) == Classify(ops[|ops| - 1])
    requires 0 <= LassAtoi(ops[|ops| - 1]) < 0x8000_0000
    ensures Form(row) == IMM8 ==> LassAtoi(ops[|ops| - 1]) <= 255
  {
    if Form(row) == IMM8 {
      ByteRowExact(table, mnemonic, ClassAt(ops, 0), ClassAt(ops, 1));
      ByteClass(ops[|ops| - 1]);
    }
  }

  lemma NumberIsLast(row: Row, ops: seq<string>)
    requires 1 <= |ops| <= 2 && StartsWithDigit(ops[|ops| - 1])
    requires |ops| == 1 ==> row.extension != ALTERNATE
    requires |ops| == 2 ==> IsGeneral(Classify(ops[0]))
    ensures Usual(row, ClassAt(ops, 0), ClassAt(ops, 1)) && IsConstant(ClassAt(ops, |ops| - 1))
    ensures (ClassAt(ops, 1) == NONE && IsImmediate(ClassAt(ops, 0))) || (IsGeneral(ClassAt(ops, 0)) && IsImmediate(ClassAt(ops, 1)))
    ensures (if ClassAt(ops, 1) == NONE then ClassAt(ops, 0) else ClassAt(ops, 1)) == Classify(ops[|ops| - 1]) != MINUS_ONE
  {
    ClassifyKinds(ops[|ops| - 1]);
    KindsDiffer(Classify(ops[|ops| - 1]));
    if |ops| == 2 {
      KindsDiffer(Classify(ops[0]));
    }
  }

  lemma NothingCut(bytes: seq<byte>, head: seq<byte>, row: Row, v: int)
    requires HeadAndConstant(bytes, head, row, v) && 0 <= v < 0x8000_0000 && (Form(row) == IMM8 ==> v <= 255)
    ensures head <= bytes && |bytes| == |head| + (if Form(row) == IMM8 then 1 else 4) && Little(bytes[|head|..]) == v
  {
  }

  // ----- register names

  lemma RegisterLetters(i: nat)
    requires i < 16
    ensures |REGISTERS| == 16
    ensures var name := REGISTERS[i].name;
            && |name| == (if i < 8 then 3 else 2)
            && name[0] == "eeeeeeeeacdbsbsd"[i] && name[1] == "acdbsbsdxxxxppii"[i] && (i < 8 ==> name[2] == "xxxxppii"[i])
  {
  }

  lemma RegistersApart(i: nat, j: nat)
    requires j < i < 16
    ensures |REGISTERS| == 16 && !(REGISTERS[j].name <= REGISTERS[i].name)
  {
    RegisterLetters(i);
    RegisterLetters(j);
  }

  lemma RegisterCode(i: nat)
    requires i < 16
    ensures |REGISTERS| == 16 && REGISTERS[i].code < 8 && REGISTERS[i].code as int == i % 8
  {
    if i < 8 {
      LowRegisterCode(i);
    } else {
      HighRegisterCode(i);
    }
  }

  lemma LowRegisterCode(i: nat)
    requires i < 8
    ensures |REGISTERS| == 16 && REGISTERS[i].code < 8 && REGISTERS[i].code as int == i
  {
  }

  lemma HighRegisterCode(i: nat)
    requires 8 <= i < 16
    ensures |REGISTERS| == 16 && REGISTERS[i].code < 8 && REGISTERS[i].code as int == i - 8
  {
  }

  /** Each name of a 32-bit or 16-bit register is read as that register, numbered as the processor numbers them. */
  lemma RegisterNames(i: nat)
    requires i < 16
    ensures |REGISTERS| == 16
    ensures var c := Classify(REGISTERS[i].name); c == (c & 0x7) | R32 && Bits3(c) == i % 8
  {
    RegisterLetters(i);
    RegisterCode(i);
    forall j | 0 <= j < i ensures !(REGISTERS[j].name <= REGISTERS[i].name) {
      RegistersApart(i, j);
    }
    FindNameAt(REGISTERS, REGISTERS[i].name, 0, i);
    CodeBits(REGISTERS[i].code);
  }

  lemma CodeBits(c: bv32)
    requires c < 8
    ensures (c | R32) & 0x7 == c && (c | R8) & 0x7 == c && c & 0x7 == c
  {
  }

  lemma HalfLetters(i: nat)
    requires i < 8
    ensures |HALF| == 8 && HALF[i].code < 8 && HALF[i].code as int == i % 4
    ensures var name := HALF[i].name; |name| == 2 && name[0] == "acdbacdb"[i] && name[1] == "llllhhhh"[i]
  {
  }

  lemma HalfIsNoRegister(s: string)
    requires |s| == 2 && (s[1] == 'l' || s[1] == 'h')
    ensures FindName(REGISTERS, s, 0) == None
  {
    forall j | 0 <= j < |REGISTERS| ensures !(REGISTERS[j].name <= s) {
      SecondLetters(j);
      Differs(REGISTERS[j].name, s);
    }
    NoNameFound(REGISTERS, s, 0);
  }

  /** The names of the 8-bit registers; the high halves, which the processor numbers 4 to 7, are taken for the low ones. */
  lemma HalfNames(i: nat)
    requires i < 8
    ensures |HALF| == 8
    ensures var c := Classify(HALF[i].name); c == (c & 0x7) | R8 && Bits3(c) == i % 4
  {
    HalfLetters(i);
    var s := HALF[i].name;
    HalfIsNoRegister(s);
    forall j | 0 <= j < i ensures !(HALF[j].name <= s) {
      HalfLetters(j);
    }
    FindNameAt(HALF, s, 0, i);
    CodeBits(HALF[i].code);
  }

  /** A failing input: ah, ch, dh and bh are encoded as al, cl, dl and bl. */
  lemma HighHalfIsLow(i: nat)
    requires 4 <= i < 8
    ensures |HALF| == 8 && HALF[i].name != HALF[i - 4].name && Classify(HALF[i].name) == Classify(HALF[i - 4].name)
  {
    HalfNames(i);
    HalfNames(i - 4);
    HalfLetters(i);
    HalfLetters(i - 4);
    SameBits(Classify(HALF[i].name), Classify(HALF[i - 4].name));
  }

  lemma SameBits(a: bv32, b: bv32)
    requires a == (a & 0x7) | R8 && b == (b & 0x7) | R8 && Bits3(a) == Bits3(b)
    ensures a == b
  {
  }
}
