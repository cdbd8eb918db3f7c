/**
 The assembler as it runs: globals for the position, the output, the symbol table and
 the unresolved names, changed line by line.
 */
module LassImpl {
  import opened Common
  import opened NumberSpec
  import Numbers = NumberImpl
  import opened StrtokSpec
  import opened TwoPass
  import opened LassSpec
  import opened LassProofs
  import Lines = LassLines

  lemma CodeIs(x: Syntax, row: Row, o: Operands, start: nat, elf: int, head: seq<byte>, bs: seq<byte>)
    requires head == x.head(row, o.shape)
    requires bs == if o.shape.imm then ImmediateBytes(row, o, start, start + |head|, elf) else []
    ensures CodeBytes(x, row, o, start, elf) == head + bs
  {
  }

  /** out is out0 with bs written from position p on. */
  ghost predicate Wrote(out0: map<nat, byte>, out: map<nat, byte>, p: nat, bs: seq<byte>) {
    && (forall i: nat :: p <= i < p + |bs| ==> i in out && out[i] == bs[i - p])
    && (forall i: nat :: i < p && i in out0 ==> i in out && out[i] == out0[i])
  }

  /** out starts with these bytes. */
  ghost predicate Starts(out: map<nat, byte>, bytes: seq<byte>) {
    forall i: nat :: i < |bytes| ==> i in out && out[i] == bytes[i]
  }

  ghost predicate ReachedBody(out: map<nat, byte>, position: nat, bytes: seq<byte>, key: nat) {
    position == |bytes| && Starts(out, bytes)
  }

  /** Just these bytes have been written so far; opened by an instance. */
  ghost predicate Reached(out: map<nat, byte>, position: nat, bytes: seq<byte>) {
    forall key: nat :: ReachedBody(out, position, bytes, key)
  }

  lemma StartsMore(out0: map<nat, byte>, out: map<nat, byte>, bytes: seq<byte>, bs: seq<byte>)
    requires Starts(out0, bytes) && Wrote(out0, out, |bytes|, bs)
    ensures Starts(out, bytes + bs)
  {
  }

  lemma Regroup(done: seq<byte>, bs: seq<byte>, rest: seq<byte>)
    ensures (done + bs) + rest == done + (bs + rest)
  {
  }

  lemma WroteAppend(out0: map<nat, byte>, out: map<nat, byte>, p: nat, bs: seq<byte>, b: byte)
    requires Wrote(out0, out, p, bs)
    ensures Wrote(out0, out[p + |bs| := b], p, bs + [b])
  {
  }

  // ----- add_symbol's patches

  function ByteIn(out: map<nat, byte>, i: nat): byte {
    if i in out then out[i] else 0
  }

  function WordIn(out: map<nat, byte>, i: nat): nat {
    256 * ByteIn(out, i + 1) + ByteIn(out, i)
  }

  /** The word at i becomes the label's position, if it is the placeholder. */
  function PatchWord(out: map<nat, byte>, i: nat, dummy: nat, position: nat): map<nat, byte> {
    if WordIn(out, i) == dummy then out[i := LowInt(position)][i + 1 := LowInt(position / 0x100)] else out
  }

  function PatchUse(out: map<nat, byte>, dummy: nat, position: nat): map<nat, byte> {
    PatchWord(PatchWord(out, dummy, dummy, position), dummy + 2, dummy, position)
  }

  /** The first n uses, those patched whose name begins the label's. */
  function PatchUses(out: map<nat, byte>, uses: seq<Symbol>, n: nat, name: string, position: nat): map<nat, byte>
    requires n <= |uses|
  {
    if n == 0 then out else
    var o := PatchUses(out, uses, n - 1, name, position);
    if uses[n - 1].name <= name then PatchUse(o, uses[n - 1].position, position) else o
  }

  /** Both words behind a use are kept, unless they hold the placeholder: then they hold the label's position. */
  lemma PatchFills(out: map<nat, byte>, dummy: nat, position: nat, i: nat)
    requires i == dummy || i == dummy + 2
    ensures WordIn(PatchUse(out, dummy, position), i) == if WordIn(out, i) == dummy then position % 0x1_0000 else WordIn(out, i)
  {
    var o := PatchWord(out, dummy, dummy, position);
    TwoBytes(position);
    assert WordIn(o, dummy + 2) == WordIn(out, dummy + 2);
    assert WordIn(PatchUse(out, dummy, position), dummy) == WordIn(o, dummy);
  }

  lemma TwoBytes(x: nat)
    ensures 256 * LowInt(x / 0x100) + LowInt(x) == x % 0x1_0000
  {
  }

  /** A byte that no matching use is within four bytes of stays as it is. */
  lemma {:induction false} OnlyUsesPatched(out: map<nat, byte>, uses: seq<Symbol>, n: nat, name: string, position: nat, b: nat)
    requires n <= |uses|
    requires forall j :: 0 <= j < n && uses[j].name <= name ==> !(uses[j].position <= b < uses[j].position + 4)
    ensures var r := PatchUses(out, uses, n, name, position); (b in r <==> b in out) && ByteIn(r, b) == ByteIn(out, b)
    decreases n
  {
    if n > 0 {
      OnlyUsesPatched(out, uses, n - 1, name, position, b);
    }
  }

  ghost predicate DefinedText(x: Syntax, line: Line, key: nat) {
    line.Code? ==> LineBytes(x, NO_ENV, 0, line.text).Some?
  }

  /** A code line has a mnemonic, and at most two operands. */
  ghost predicate DefinedLine(x: Syntax, line: Line) {
    forall key: nat :: DefinedText(x, line, key)
  }

  ghost predicate Defined(x: Syntax, lines: seq<Line>) {
    forall i :: 0 <= i < |lines| ==> DefinedLine(x, lines[i])
  }

  /** One of classify's loops: the code of the first name that begins the token. */
  method FindNameIn(names: seq<Named>, s: string) returns (r: Option<bv32>)
    ensures r == FindName(names, s, 0)
  {
    var i := 0;
    while i < |names|
      invariant 0 <= i <= |names| && FindName(names, s, i) == FindName(names, s, 0)
    {
      if names[i].name <= s {
        return Some(names[i].code);
      }
      i := i + 1;
    }
    return None;
  }

  /** classify: a number, or the first of three tables that knows the name. */
  method ClassifyToken(s: string) returns (r: bv32)
    ensures r == Classify(s)
  {
    if StartsWithDigit(s) {
      var n := Numbers.LassAtoiCall(s);
      n := ToInt(n);
      return if n > 255 || n < -255 then IMM32 else IMM8;
    }
    var c := FindNameIn(REGISTERS, s);
    if c.Some? {
      return c.value | R32;
    }
    c := FindNameIn(HALF, s);
    if c.Some? {
      return c.value | R8;
    }
    c := FindNameIn(SEGMENTS, s);
    return if c.Some? then c.value | SREG else MINUS_ONE;
  }

  /** find_instruction: two loops over the table. */
  method FindRow(table: seq<Row>, s: string, op1: bv32, op2: bv32) returns (r: Option<Row>)
    ensures r == FindInstruction(table, s, op1, op2)
  {
    var i := 0;
    while i < |table|
      invariant 0 <= i <= |table| && FirstRow(table, s, op1, op2, i) == FirstRow(table, s, op1, op2, 0)
    {
      if FirstMatch(table[i], s, op1, op2) {
        return Some(table[i]);
      }
      i := i + 1;
    }
    i := 0;
    while i < |table|
      invariant 0 <= i <= |table| && SecondRow(table, s, op1, op2, i) == SecondRow(table, s, op1, op2, 0)
    {
      if SecondMatch(table[i], s, op1, op2) {
        return Some(table[i]);
      }
      i := i + 1;
    }
    return None;
  }

  class Assembler {
    const table: seq<Row>
    const x: Syntax
    const elf: int
    /** What the passes use of the syntax: the bytes of one line. */
    ghost const emit: Emitter
    var position: nat
    var symbols: seq<Symbol>
    var unresolved: seq<Symbol>
    var output: map<nat, byte>

    constructor (table: seq<Row>, elf: int)
      ensures this.table == table && x == Lass(table) && this.elf == elf && emit == EmitterOf(x) && Connected()
      ensures position == 0 && symbols == [] && unresolved == [] && output == map[]
    {
      this.table, x, this.elf, emit := table, Lass(table), elf, EmitterOf(Lass(table));
      position, symbols, unresolved, output := 0, [], [], map[];
    }

    ghost predicate EmitsBySyntax(key: nat) {
      emit == EmitterOf(x)
    }

    ghost predicate SyntaxOfTable(key: nat) {
      x == Lass(table)
    }

    /** Emitter and syntax are the table's own; quantified so that they are looked into only where they are named. */
    ghost predicate Connected() {
      forall key: nat :: EmitsBySyntax(key) && SyntaxOfTable(key)
    }

    method Class(tok: string) returns (n: bv32)
      requires Connected()
      ensures n == x.classify(tok)
    {
      assert SyntaxOfTable(0);
      n := ClassifyToken(tok);
    }

    method Number(tok: string) returns (n: int)
      requires Connected()
      ensures n == x.number(tok)
    {
      assert SyntaxOfTable(0);
      n := Numbers.LassAtoiCall(tok);
      n := ToInt(n);
    }

    method RowOf(inst: string, op1: bv32, op2: bv32) returns (row: Option<Row>)
      requires Connected()
      ensures row == x.find(inst, op1, op2)
    {
      assert SyntaxOfTable(0);
      row := FindRow(table, inst, op1, op2);
    }

    method WriteByte(b: byte)
      modifies this`position, this`output
      ensures position == old(position) + 1 && output == old(output)[old(position) := b]
    {
      output := output[position := b];
      position := position + 1;
    }

    /** Writes several bytes in order; `done` are those the line has written before. */
    method WriteAll(bs: seq<byte>, ghost out0: map<nat, byte>, ghost start: nat, ghost done: seq<byte>)
      requires Wrote(out0, output, start, done) && position == start + |done|
      modifies this`position, this`output
      ensures Wrote(out0, output, start, done + bs) && position == start + |done + bs|
    {
      var i := 0;
      while i < |bs|
        invariant 0 <= i <= |bs|
        invariant Wrote(out0, output, start, done + bs[..i]) && position == start + |done| + i
      {
        WroteAppend(out0, output, start, done + bs[..i], bs[i]);
        assert done + bs[..i + 1] == (done + bs[..i]) + [bs[i]];
        WriteByte(bs[i]);
        i := i + 1;
      }
      assert bs[..|bs|] == bs;
    }

    /** find_symbol, which remembers a name it does not know. */
    method FindSymbolCall(name: string) returns (r: int)
      modifies this`unresolved
      ensures r == FindSymbol(Env(symbols, elf), position, name)
      ensures unresolved == if Unresolved(Env(symbols, elf), name) then old(unresolved) + [Symbol(Stored(name), position)]
                            else old(unresolved)
    {
      var i := 0;
      while i < |symbols|
        invariant 0 <= i <= |symbols| && Lookup(symbols, name, i) == Lookup(symbols, name, 0)
        invariant unresolved == old(unresolved)
      {
        if symbols[i].name <= name {
          return symbols[i].position + elf;
        }
        i := i + 1;
      }
      if "$$" <= name {
        return 0;
      }
      if name <= "$" {
        return position + elf;
      }
      unresolved := unresolved + [Symbol(Stored(name), position)];
      return position;
    }

    /** add_symbol: patches words that stand in for this label, then records its (at most 32) characters. */
    method AddSymbol(name: string)
      modifies this`symbols, this`output
      ensures symbols == old(symbols) + [Symbol(name, position)]
      ensures output == PatchUses(old(output), unresolved, |unresolved|, name, position)
    {
      var i := 0;
      while i < |unresolved|
        invariant 0 <= i <= |unresolved| && symbols == old(symbols)
        invariant output == PatchUses(old(output), unresolved, i, name, position)
      {
        if unresolved[i].name <= name {
          Patch(unresolved[i].position);
        }
        i := i + 1;
      }
      symbols := symbols + [Symbol(name, position)];
    }

    method Patch(dummy: nat)
      modifies this`output
      ensures output == PatchUse(old(output), dummy, position)
    {
      var i := dummy;
      while i < dummy + 4
        invariant i == dummy || i == dummy + 2 || i == dummy + 4
        invariant output == if i == dummy then old(output) else if i == dummy + 2
                            then PatchWord(old(output), dummy, dummy, position) else PatchUse(old(output), dummy, position)
      {
        var word := 256 * ByteIn(output, i + 1) + ByteIn(output, i);
        if word == dummy {
          output := output[i := LowInt(position)][i + 1 := LowInt(position / 0x100)];
        }
        i := i + 2;
      }
    }

    /** The loop of parse_line over a line's tokens. */
    method ParseOperands(line: string) returns (o: Operands)
      requires Connected() && ParseTokens(x, line, 0, NO_OPERANDS, Env(symbols, elf), position).Parsed?
      modifies this`unresolved
      ensures ParseTokens(x, line, 0, NO_OPERANDS, Env(symbols, elf), position) == Parsed(o)
    {
      ghost var env := Env(symbols, elf);
      var bracket := Bracket(line);
      var pos := 0;
      o := NO_OPERANDS;
      while pos >= 0
        invariant pos <= |line|
        invariant ParseTokens(x, line, pos, o, env, position) == ParseTokens(x, line, 0, NO_OPERANDS, env, position)
        decreases if pos < 0 then 0 else |line| - pos + 1
      {
        var t := NextToken(line, pos, " ,\t");
        var tok := line[t.start..t.end];
        if tok != "" && tok[0] == ';' {
          return;
        }
        if t.start == bracket {
          o := MemoryOperand(x, o.shape, line[t.start..]);
          return;
        }
        if o.shape.count == 0 {
          o := o.(shape := o.shape.(inst := tok, count := 1));
        } else {
          var n := Class(tok);
          var number := Number(tok);
          var address := 0;
          if n == MINUS_ONE {
            address := FindSymbolCall(tok);
          }
          o := Operands(WithOperand(o.shape, n), NextImmediate(o.immediate, n, number, ToInt(address)));
        }
        pos := t.next;
      }
    }

    /** db, dw and dd. */
    method EmitData(width: nat, line: string, start: int)
      requires start <= |line|
      modifies this`position, this`output
      ensures Wrote(old(output), output, old(position), DataBytes(x, width, line, start))
      ensures position == old(position) + |DataBytes(x, width, line, start)|
    {
      var pos := start;
      ghost var out0, p, done := output, position, [];
      ghost var all := DataBytes(x, width, line, start);
      while pos >= 0
        invariant pos <= |line|
        invariant done + DataBytes(x, width, line, pos) == all
        invariant Wrote(out0, output, p, done) && position == p + |done|
        decreases if pos < 0 then 0 else |line| - pos + 1
      {
        var t := NextToken(line, pos, ", '\"");
        var bs := x.data(width, line[t.start..t.end]);
        Regroup(done, bs, DataBytes(x, width, line, t.next));
        WriteAll(bs, out0, p, done);
        done := done + bs;
        pos := t.next;
      }
      assert done + [] == done;
    }

    /** The second half of parse_line: prefixes, opcode and ModR/M, SIB; then the immediate. */
    method EmitCode(row: Row, o: Operands)
      modifies this`position, this`output
      ensures Wrote(old(output), output, old(position), CodeBytes(x, row, o, old(position), elf))
      ensures position == old(position) + |CodeBytes(x, row, o, old(position), elf)|
    {
      ghost var out0 := output;
      var start := position;
      var head := x.head(row, o.shape);
      WriteAll(head, out0, start, []);
      assert [] + head == head;
      EmitImmediate(row, o, start, out0, head);
    }

    method EmitImmediate(row: Row, o: Operands, start: nat, ghost out0: map<nat, byte>, ghost head: seq<byte>)
      requires position == start + |head| && Wrote(out0, output, start, head) && head == x.head(row, o.shape)
      modifies this`position, this`output
      ensures Wrote(out0, output, start, CodeBytes(x, row, o, start, elf))
      ensures position == start + |CodeBytes(x, row, o, start, elf)|
    {
      if o.shape.imm {
        var bs := ImmediateBytes(row, o, start, position, elf);
        CodeIs(x, row, o, start, elf, head, bs);
        WriteAll(bs, out0, start, head);
      } else {
        CodeIs(x, row, o, start, elf, head, []);
        assert head + [] == head;
      }
    }

    method ParseLine(line: string)
      requires Connected() && LineBytes(x, Env(symbols, elf), position, line).Some?
      modifies this`position, this`output, this`unresolved
      ensures Wrote(old(output), output, old(position), EmitterOf(x)(Env(symbols, elf), old(position), line))
      ensures position == old(position) + |EmitterOf(x)(Env(symbols, elf), old(position), line)|
    {
      var t := NextToken(line, 0, " ,\t");
      var width := DataWidth(line[t.start..t.end]);
      if width != 0 {
        EmitData(width, line, t.next);
        return;
      }
      var o := ParseOperands(line);
      var row := RowOf(o.shape.inst, o.shape.syn0, o.shape.syn1);
      if row.Some? {
        EmitCode(row.value, o);
      }
    }

    /** parse_line on a line whose behaviour is defined: it has a mnemonic, and at most two operands. */
    method AssembleLine(line: Line)
      requires Connected() && DefinedLine(x, line)
      modifies this`position, this`output, this`unresolved
      ensures Wrote(old(output), output, old(position), Bytes(emit, Env(symbols, elf), old(position), line))
      ensures position == old(position) + |Bytes(emit, Env(symbols, elf), old(position), line)|
    {
      assert DefinedText(x, line, 0);
      assert EmitsBySyntax(0);
      if line.Code? {
        LineLength(x, line.text, Env(symbols, elf), position, NO_ENV, 0);
        ParseLine(line.text);
      }
    }

    /** One line of pass 1. */
    method FirstPassLine(line: Line, ghost f: First)
      requires Connected() && DefinedLine(x, line) && f == First(symbols, position)
      modifies this`position, this`output, this`unresolved, this`symbols
      ensures First(symbols, position) ==
              if line.Label? then First(f.symbols + [Symbol(line.name, f.position)], f.position)
              else First(f.symbols, f.position + |Bytes(emit, Env(f.symbols, elf), f.position, line)|)
    {
      if line.Label? {
        AddSymbol(line.name);
      } else {
        AssembleLine(line);
      }
    }

    /** Pass 1: code lines advance the position, label lines record it. */
    method RunFirstPass(lines: seq<Line>)
      requires Connected() && Defined(x, lines) && position == 0 && symbols == []
      modifies this`position, this`output, this`unresolved, this`symbols
      ensures First(symbols, position) == FirstPass(emit, elf, lines, |lines|)
    {
      var k := 0;
      while k < |lines|
        invariant 0 <= k <= |lines|
        invariant symbols == FirstPass(emit, elf, lines, k).symbols
        invariant position == FirstPass(emit, elf, lines, k).position
      {
        FirstPassStep(emit, elf, lines, k);
        FirstPassLine(lines[k], FirstPass(emit, elf, lines, k));
        k := k + 1;
      }
    }

    /** One line of pass 2, after `bytes` have been written. */
    method SecondPassLine(line: Line, ghost bytes: seq<byte>)
      requires Connected() && DefinedLine(x, line) && Reached(output, position, bytes)
      modifies this`position, this`output, this`unresolved
      ensures Reached(output, position, bytes + Bytes(emit, Env(symbols, elf), |bytes|, line))
    {
      assert ReachedBody(output, position, bytes, 0);
      ghost var out0 := output;
      if !line.Label? {
        AssembleLine(line);
        StartsMore(out0, output, bytes, Bytes(emit, Env(symbols, elf), |bytes|, line));
      }
    }

    /** Pass 2: code lines are written again, label lines do nothing. */
    method RunSecondPass(lines: seq<Line>)
      requires Connected() && Defined(x, lines) && position == 0
      modifies this`position, this`output, this`unresolved
      ensures var bytes := SecondPass(emit, Env(symbols, elf), lines, |lines|);
              position == |bytes| && Starts(output, bytes)
    {
      var k := 0;
      ghost var env := Env(symbols, elf);
      ghost var bytes := [];
      while k < |lines|
        invariant 0 <= k <= |lines|
        invariant bytes == SecondPass(emit, env, lines, k)
        invariant Reached(output, position, bytes)
      {
        SecondPassLine(lines[k], bytes);
        SecondPassStep(emit, env, lines, k);
        bytes := bytes + Bytes(emit, env, |bytes|, lines[k]);
        k := k + 1;
      }
      assert ReachedBody(output, position, bytes, 0);
    }

    /** Both passes over the lines; the final output is what the second one wrote. */
    method RunPasses(lines: seq<Line>) returns (programLength: nat)
      requires Connected() && Defined(x, lines) && position == 0 && symbols == []
      modifies this`position, this`output, this`unresolved, this`symbols
      ensures var bytes := Assemble(emit, elf, lines);
              && programLength == position == |bytes|
              && Starts(output, bytes)
              && symbols == Labels(emit, lines, |lines|)
    {
      RunFirstPass(lines);
      programLength := position;
      position := 0;
      assert EmitsBySyntax(0);
      EmitterIsStable(x);
      FirstPassPositions(emit, elf, lines, |lines|);
      PassesAgree(emit, elf, lines, |lines|);
      RunSecondPass(lines);
    }

    /** main: the text is cut into lines, and both passes run over them. */
    method Run(text: string) returns (programLength: nat)
      requires Connected() && Defined(x, LinesOf(SourceLines(text))) && position == 0 && symbols == []
      modifies this`position, this`output, this`unresolved, this`symbols
      ensures var lines := LinesOf(SourceLines(text));
              var bytes := Assemble(emit, elf, lines);
              && programLength == position == |bytes|
              && Starts(output, bytes)
              && symbols == Labels(emit, lines, |lines|)
    {
      var texts := Lines.SplitLines(text);
      programLength := RunPasses(LinesOf(texts));
    }
  }
}
