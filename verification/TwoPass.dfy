/**
 Two passes over a source text, for any way of emitting a line whose length depends on
 neither the symbols nor the position: pass 1 then records every label where pass 2
 puts the code that follows it.
 */
module TwoPass {
  import opened Common

  datatype Symbol = Symbol(name: string, position: nat)

  /** The symbol table, and the offset added to every position it gives out. */
  datatype Env = Env(symbols: seq<Symbol>, elf: int)

  /** find_symbol's search: the first entry whose name is the front of the one looked for. */
  function Lookup(symbols: seq<Symbol>, name: string, i: nat): (r: Option<nat>)
    requires i <= |symbols|
    decreases |symbols| - i
  {
    if i == |symbols| then None
    else if symbols[i].name <= name then Some(symbols[i].position)
    else Lookup(symbols, name, i + 1)
  }

  /** A source line once its first character and colon have been looked at. */
  datatype Line = Nothing | Label(name: string) | Code(text: string)

  type Emitter = (Env, nat, string) -> seq<byte>

  /** The length of what is emitted for a line depends on the line alone. */
  ghost predicate Stable(emit: Emitter) {
    forall env, p, env', p', text :: |emit(env, p, text)| == |emit(env', p', text)|
  }

  const NO_ENV := Env([], 0)

  function Bytes(emit: Emitter, env: Env, p: nat, line: Line): (r: seq<byte>) {
    if line.Code? then emit(env, p, line.text) else []
  }

  /** Where line k starts: the lengths of the lines before it. */
  function Start(emit: Emitter, lines: seq<Line>, k: nat): (r: nat)
    requires k <= |lines|
  {
    if k == 0 then 0 else Start(emit, lines, k - 1) + |Bytes(emit, NO_ENV, 0, lines[k - 1])|
  }

  // ----- pass 1

  datatype First = First(symbols: seq<Symbol>, position: nat)

  /** Pass 1 after k lines, each assembled with the symbols known so far. */
  function FirstPass(emit: Emitter, elf: int, lines: seq<Line>, k: nat): (r: First)
    requires k <= |lines|
  {
    if k == 0 then First([], 0) else
    var f := FirstPass(emit, elf, lines, k - 1);
    match lines[k - 1]
    case Nothing => f
    case Label(name) => First(f.symbols + [Symbol(name, f.position)], f.position)
    case Code(text) => First(f.symbols, f.position + |emit(Env(f.symbols, elf), f.position, text)|)
  }

  lemma FirstPassStep(emit: Emitter, elf: int, lines: seq<Line>, k: nat)
    requires k < |lines|
    ensures var f := FirstPass(emit, elf, lines, k);
            FirstPass(emit, elf, lines, k + 1) ==
            if lines[k].Label? then First(f.symbols + [Symbol(lines[k].name, f.position)], f.position)
            else First(f.symbols, f.position + |Bytes(emit, Env(f.symbols, elf), f.position, lines[k])|)
  {
  }

  /** The labels of the first k lines, each at the start of its line. */
  function Labels(emit: Emitter, lines: seq<Line>, k: nat): (r: seq<Symbol>)
    requires k <= |lines|
  {
    if k == 0 then [] else
    Labels(emit, lines, k - 1) +
    if lines[k - 1].Label? then [Symbol(lines[k - 1].name, Start(emit, lines, k - 1))] else []
  }

  lemma {:induction false} FirstPassPositions(emit: Emitter, elf: int, lines: seq<Line>, k: nat)
    requires k <= |lines| && Stable(emit)
    ensures FirstPass(emit, elf, lines, k) == First(Labels(emit, lines, k), Start(emit, lines, k))
  {
    if k > 0 {
      FirstPassPositions(emit, elf, lines, k - 1);
    }
  }

  // ----- pass 2

  /** The output of pass 2 after k lines, with the whole symbol table. */
  function SecondPass(emit: Emitter, env: Env, lines: seq<Line>, k: nat): (r: seq<byte>)
    requires k <= |lines|
  {
    if k == 0 then [] else
    var out := SecondPass(emit, env, lines, k - 1);
    out + Bytes(emit, env, |out|, lines[k - 1])
  }

  lemma SecondPassStep(emit: Emitter, env: Env, lines: seq<Line>, k: nat)
    requires k < |lines|
    ensures var out := SecondPass(emit, env, lines, k);
            SecondPass(emit, env, lines, k + 1) == out + Bytes(emit, env, |out|, lines[k])
  {
  }

  lemma {:induction false} SecondPassPositions(emit: Emitter, env: Env, lines: seq<Line>, k: nat)
    requires k <= |lines| && Stable(emit)
    ensures |SecondPass(emit, env, lines, k)| == Start(emit, lines, k)
  {
    if k > 0 {
      SecondPassPositions(emit, env, lines, k - 1);
    }
  }

  lemma {:induction false} SecondPassGrows(emit: Emitter, env: Env, lines: seq<Line>, j: nat, k: nat)
    requires j <= k <= |lines|
    ensures SecondPass(emit, env, lines, j) <= SecondPass(emit, env, lines, k)
    decreases k - j
  {
    if j < k {
      SecondPassGrows(emit, env, lines, j, k - 1);
    }
  }

  function FinalEnv(emit: Emitter, elf: int, lines: seq<Line>): Env {
    Env(FirstPass(emit, elf, lines, |lines|).symbols, elf)
  }

  /** The bytes the two passes produce. */
  function Assemble(emit: Emitter, elf: int, lines: seq<Line>): (r: seq<byte>) {
    SecondPass(emit, FinalEnv(emit, elf, lines), lines, |lines|)
  }

  /** Line k's bytes lie in the output where pass 1 was when it came to line k. */
  ghost predicate Placed(emit: Emitter, elf: int, lines: seq<Line>, k: nat)
    requires k < |lines|
  {
    var p := FirstPass(emit, elf, lines, k).position;
    var bytes := Bytes(emit, FinalEnv(emit, elf, lines), p, lines[k]);
    p + |bytes| <= |Assemble(emit, elf, lines)| && Assemble(emit, elf, lines)[p..p + |bytes|] == bytes
  }

  lemma LineIsPlaced(emit: Emitter, elf: int, lines: seq<Line>, k: nat)
    requires k < |lines| && Stable(emit)
    ensures Placed(emit, elf, lines, k)
  {
    FirstPassPositions(emit, elf, lines, k);
    LineInOutput(emit, elf, lines, k);
  }

  /** At every line both passes are at the same position, and they end at the same length. */
  lemma PassesAgree(emit: Emitter, elf: int, lines: seq<Line>, k: nat)
    requires k <= |lines| && Stable(emit)
    ensures FirstPass(emit, elf, lines, k).position == |SecondPass(emit, FinalEnv(emit, elf, lines), lines, k)|
    ensures FirstPass(emit, elf, lines, |lines|).position == |Assemble(emit, elf, lines)|
  {
    FirstPassPositions(emit, elf, lines, k);
    SecondPassPositions(emit, FinalEnv(emit, elf, lines), lines, k);
    FirstPassPositions(emit, elf, lines, |lines|);
    SecondPassPositions(emit, FinalEnv(emit, elf, lines), lines, |lines|);
  }

  /** Line j's own bytes are in the final output, at the position pass 1 computed for it. */
  lemma LineInOutput(emit: Emitter, elf: int, lines: seq<Line>, j: nat)
    requires j < |lines| && Stable(emit)
    ensures var out := Assemble(emit, elf, lines);
            var p := Start(emit, lines, j);
            var bytes := Bytes(emit, FinalEnv(emit, elf, lines), p, lines[j]);
            p + |bytes| <= |out| && out[p..p + |bytes|] == bytes
  {
    var env := FinalEnv(emit, elf, lines);
    SecondPassPositions(emit, env, lines, j);
    SecondPassGrows(emit, env, lines, j + 1, |lines|);
  }

  /** What the output holds from the start of line j to the start of the next. */
  function LineSlice(emit: Emitter, elf: int, lines: seq<Line>, j: nat): (r: seq<byte>)
    requires j < |lines|
  {
    var p, end := Start(emit, lines, j), Start(emit, lines, j + 1);
    if p <= end <= |Assemble(emit, elf, lines)| then Assemble(emit, elf, lines)[p..end] else []
  }

  lemma SliceIsLine(emit: Emitter, elf: int, lines: seq<Line>, j: nat)
    requires j < |lines| && Stable(emit)
    ensures LineSlice(emit, elf, lines, j) == Bytes(emit, FinalEnv(emit, elf, lines), Start(emit, lines, j), lines[j])
  {
    LineInOutput(emit, elf, lines, j);
    assert |Bytes(emit, NO_ENV, 0, lines[j])| == |Bytes(emit, FinalEnv(emit, elf, lines), Start(emit, lines, j), lines[j])|;
  }

  /** The label on line i is in the final symbol table, at the position where line i starts. */
  lemma {:induction false} LabelRecorded(emit: Emitter, lines: seq<Line>, i: nat, k: nat) returns (n: nat)
    requires i < k <= |lines| && lines[i].Label?
    ensures n < |Labels(emit, lines, k)|
    ensures Labels(emit, lines, k)[n] == Symbol(lines[i].name, Start(emit, lines, i))
    decreases k
  {
    if i == k - 1 {
      n := |Labels(emit, lines, i)|;
    } else {
      n := LabelRecorded(emit, lines, i, k - 1);
    }
  }

  /** The first line from i on that is a label whose name begins `name`, or -1. */
  function FirstLabel(lines: seq<Line>, name: string, i: nat): (r: int)
    requires i <= |lines|
    ensures r == -1 || (i <= r < |lines| && lines[r].Label? && lines[r].name <= name)
    ensures forall k :: i <= k < (if r == -1 then |lines| else r) && lines[k].Label? ==> !(lines[k].name <= name)
    decreases |lines| - i
  {
    if i == |lines| then -1
    else if lines[i].Label? && lines[i].name <= name then i
    else FirstLabel(lines, name, i + 1)
  }

  /** The search for a name among the labels of the first k lines ends at the first that begins it. */
  lemma {:induction false} LookupInLabels(emit: Emitter, lines: seq<Line>, name: string, k: nat, r: int)
    requires k <= |lines| && r == FirstLabel(lines, name, 0)
    ensures Lookup(Labels(emit, lines, k), name, 0) == if 0 <= r < k then Some(Start(emit, lines, r)) else None
  {
    if k > 0 {
      LookupInLabels(emit, lines, name, k - 1, r);
      if lines[k - 1].Label? {
        LookupAppend(Labels(emit, lines, k - 1), Symbol(lines[k - 1].name, Start(emit, lines, k - 1)), name, 0);
      } else {
        assert Labels(emit, lines, k) == Labels(emit, lines, k - 1);
      }
    }
  }

  lemma {:induction false} LookupAppend(symbols: seq<Symbol>, last: Symbol, name: string, i: nat)
    requires i <= |symbols|
    ensures Lookup(symbols + [last], name, i) ==
            if Lookup(symbols, name, i).Some? then Lookup(symbols, name, i)
            else if last.name <= name then Some(last.position) else None
    decreases |symbols| - i
  {
    if i < |symbols| {
      LookupAppend(symbols, last, name, i + 1);
    }
  }

  /** In pass 2 a name is resolved to the start of the first label line whose name begins it. */
  lemma NameResolved(emit: Emitter, elf: int, lines: seq<Line>, name: string)
    requires Stable(emit)
    ensures var r := FirstLabel(lines, name, 0);
            Lookup(FinalEnv(emit, elf, lines).symbols, name, 0) == if r == -1 then None else Some(Start(emit, lines, r))
  {
    FirstPassPositions(emit, elf, lines, |lines|);
    LookupInLabels(emit, lines, name, |lines|, FirstLabel(lines, name, 0));
  }

  /** A label's own line is the one found exactly when no earlier label's name begins it. */
  lemma LabelFoundExact(lines: seq<Line>, i: nat)
    requires i < |lines| && lines[i].Label?
    ensures 0 <= FirstLabel(lines, lines[i].name, 0) <= i
    ensures FirstLabel(lines, lines[i].name, 0) == i <==>
            forall k :: 0 <= k < i && lines[k].Label? ==> !(lines[k].name <= lines[i].name)
  {
  }
}
