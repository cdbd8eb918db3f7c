/**
 What a format means, said without running through it: a format is a list of plain characters
 and conversions; each conversion prints the argument whose number is the number of conversions
 before it that take one, with the marks of its own and of the conversions right before it.
 */
module PrintfMeaning {
  import opened Common
  import opened NumberSpec
  import opened PrintfSpec

  datatype Mark = Prefix | Sign | Wide(digits: string)

  datatype Item = Plain(c: char) | Conversion(marks: seq<Mark>, letter: char)

  // ----- formats as text

  function MarkText(m: Mark): (r: string) {
    match m
    case Prefix => "#"
    case Sign => "+"
    case Wide(digits) => digits
  }

  function MarksText(ms: seq<Mark>): (r: string) {
    if ms == [] then "" else MarkText(ms[0]) + MarksText(ms[1..])
  }

  function ItemText(it: Item): (r: string) {
    match it
    case Plain(c) => [c]
    case Conversion(marks, letter) => "%" + MarksText(marks) + [letter]
  }

  /** The texts from i on, one behind the other. */
  function Join(ts: seq<string>, i: nat): (r: string)
    requires i <= |ts|
    decreases |ts| - i
  {
    if i == |ts| then "" else ts[i] + Join(ts, i + 1)
  }

  function Texts(items: seq<Item>): (r: seq<string>)
    ensures |r| == |items|
  {
    seq(|items|, i requires 0 <= i < |items| => ItemText(items[i]))
  }

  function Render(items: seq<Item>): (r: string) {
    Join(Texts(items), 0)
  }

  predicate ProperMark(m: Mark) {
    m.Wide? ==> m.digits != "" && forall i :: 0 <= i < |m.digits| ==> IsDigit(m.digits[i])
  }

  /** Widths have digits, and no two widths touch, for they would be one. */
  predicate ProperMarks(ms: seq<Mark>) {
    && (forall i :: 0 <= i < |ms| ==> ProperMark(ms[i]))
    && (forall i :: 0 <= i < |ms| - 1 ==> !(ms[i].Wide? && ms[i + 1].Wide?))
  }

  ghost predicate MarkedBody(ms: seq<Mark>, letter: char, key: nat) {
    ProperMarks(ms) && IsConversion(letter)
  }

  /** Proper marks and a letter that is handled; opened by an instance. */
  ghost predicate Marked(ms: seq<Mark>, letter: char) {
    forall key: nat :: MarkedBody(ms, letter, key)
  }

  ghost predicate ProperItem(it: Item) {
    match it
    case Plain(c) => c != '%' && c != NUL
    case Conversion(marks, letter) => Marked(marks, letter)
  }

  ghost predicate Proper(items: seq<Item>) {
    forall i :: 0 <= i < |items| ==> ProperItem(items[i])
  }

  // ----- what a conversion prints

  /** Items j to i are conversions with nothing between them. */
  predicate SameRun(items: seq<Item>, j: nat, i: nat) {
    j <= i < |items| && forall k :: j <= k <= i ==> items[k].Conversion?
  }

  predicate HasWidth(it: Item)
    requires it.Conversion?
  {
    it.letter == 'w' || exists m :: m in it.marks && m.Wide?
  }

  /** Marks hold on until the next plain character. */
  predicate AsksPrefix(items: seq<Item>, i: nat) {
    exists j :: 0 <= j <= i && SameRun(items, j, i) && Prefix in items[j].marks
  }

  predicate AsksSign(items: seq<Item>, i: nat) {
    exists j :: 0 <= j <= i && SameRun(items, j, i) && Sign in items[j].marks
  }

  predicate AsksWidth(items: seq<Item>, i: nat) {
    exists j :: 0 <= j <= i && SameRun(items, j, i) && HasWidth(items[j])
  }

  /** A text is padded with blanks, and so is a number right behind a text. */
  predicate AsksBlanks(items: seq<Item>, i: nat) {
    exists j :: 0 <= j <= i && SameRun(items, j, i) && items[j].letter in "sc"
  }

  function WidthOf(m: Mark, pad: nat): (r: nat) {
    if m.Wide? then AtoiFrom(m.digits, 0) % WORD else pad
  }

  /** The last of these widths, or the one before them. */
  function LastWidth(ms: seq<Mark>, pad: nat): (r: nat) {
    if ms == [] then pad else LastWidth(ms[1..], WidthOf(ms[0], pad))
  }

  /** The last width in the first n items; unlike the marks it outlives plain characters. */
  function PadBefore(items: seq<Item>, n: nat): (r: nat)
    requires n <= |items|
  {
    if n == 0 then 0
    else if items[n - 1].Plain? then PadBefore(items, n - 1)
    else LastWidth(items[n - 1].marks, PadBefore(items, n - 1))
  }

  predicate Takes(it: Item) {
    it.Conversion? && TakesArg(it.letter)
  }

  /** How many of the first n items take an argument. */
  function ArgNumber(items: seq<Item>, n: nat): (r: nat)
    requires n <= |items|
  {
    if n == 0 then 0 else ArgNumber(items, n - 1) + if Takes(items[n - 1]) then 1 else 0
  }

  predicate FitsItem(items: seq<Item>, i: nat, args: seq<Arg>, size: nat)
    requires i < |items|
  {
    items[i].Conversion? ==>
      if TakesArg(items[i].letter) then ArgNumber(items, i) < |args| && ArgFits(items[i].letter, args[ArgNumber(items, i)], size)
      else size >= 2
  }

  predicate FitsFrom(items: seq<Item>, i: nat, args: seq<Arg>, size: nat)
    requires i <= |items|
  {
    forall j :: i <= j < |items| ==> FitsItem(items, j, args, size)
  }

  function ArgFor(items: seq<Item>, i: nat, args: seq<Arg>): (r: Arg)
    requires i < |items| && (Takes(items[i]) ==> ArgNumber(items, i) < |args|)
  {
    if Takes(items[i]) then args[ArgNumber(items, i)] else Number(0)
  }

  /** What stands in front of the digits. */
  function Front(items: seq<Item>, i: nat, letter: char, a: Arg): (r: string) {
    if letter in "xX" then (if AsksPrefix(items, i) then "0x" else "")
    else if letter == 'o' then (if AsksPrefix(items, i) then "0" else "")
    else if !a.Number? then ""
    else if letter == 'd' then (if !AsksSign(items, i) then "" else if a.value > 0 then "+" else "-")
    else if letter == 'i' && a.value < 0 then "-"
    else ""
  }

  function Filling(items: seq<Item>, i: nat, width: nat): (r: string)
    requires i < |items|
  {
    var pad := PadBefore(items, i + 1);
    if AsksWidth(items, i) && pad > width then Repeat(if AsksBlanks(items, i) then ' ' else '0', pad - width) else ""
  }

  function Means(items: seq<Item>, i: nat, args: seq<Arg>, size: nat): (r: string)
    requires i < |items| && FitsItem(items, i, args, size)
  {
    match items[i]
    case Plain(c) => [c]
    case Conversion(_, letter) =>
      var a := ArgFor(items, i, args);
      var text := TextOf(letter, a);
      Front(items, i, letter, a) + Filling(items, i, |text|) + text
  }

  /** Everything the items from i on ask for. */
  function Says(items: seq<Item>, i: nat, args: seq<Arg>, size: nat): (r: string)
    requires i <= |items| && FitsFrom(items, i, args, size)
    decreases |items| - i
  {
    if i == |items| then "" else Means(items, i, args, size) + Says(items, i + 1, args, size)
  }

  // ----- the code's flags are these marks

  function MarkFlag(m: Mark, flags: Flags): (r: Flags) {
    match m
    case Prefix => flags.(prefix := true)
    case Sign => flags.(sign := true)
    case Wide(_) => flags.(width := true)
  }

  function MarkFlags(ms: seq<Mark>, flags: Flags): (r: Flags) {
    if ms == [] then flags else MarkFlags(ms[1..], MarkFlag(ms[0], flags))
  }

  function FlagsAt(items: seq<Item>, i: nat): (r: Flags) {
    Flags(AsksPrefix(items, i), AsksSign(items, i), AsksWidth(items, i), AsksBlanks(items, i))
  }

  function FlagsBefore(items: seq<Item>, i: nat): (r: Flags)
    requires i <= |items|
  {
    if i == 0 || items[i - 1].Plain? then NO_FLAGS else FlagsAt(items, i - 1)
  }

  lemma {:induction false} MarkFlagsExact(ms: seq<Mark>, flags: Flags)
    ensures var r := MarkFlags(ms, flags);
            && (r.prefix <==> flags.prefix || Prefix in ms)
            && (r.sign <==> flags.sign || Sign in ms)
            && (r.width <==> flags.width || exists m :: m in ms && m.Wide?)
            && r.text == flags.text
  {
    if ms != [] {
      MarkFlagsExact(ms[1..], MarkFlag(ms[0], flags));
      assert ms == [ms[0]] + ms[1..];
    }
  }

  lemma RunGrows(items: seq<Item>, j: nat, i: nat)
    requires i < |items| && items[i].Conversion? && j < i
    ensures SameRun(items, j, i) <==> SameRun(items, j, i - 1)
  {
  }

  lemma RunIsOne(items: seq<Item>, i: nat)
    requires i < |items| && items[i].Conversion?
    ensures SameRun(items, i, i)
    ensures i == 0 || items[i - 1].Plain? ==> forall j :: 0 <= j <= i && SameRun(items, j, i) ==> j == i
  {
  }

  /** A mark is asked for by this conversion, or was by the ones right before it. */
  lemma AsksStep(items: seq<Item>, i: nat)
    requires i < |items| && items[i].Conversion?
    ensures var was, it := FlagsBefore(items, i), items[i];
            && (AsksPrefix(items, i) <==> was.prefix || Prefix in it.marks)
            && (AsksSign(items, i) <==> was.sign || Sign in it.marks)
            && (AsksWidth(items, i) <==> was.width || HasWidth(it))
            && (AsksBlanks(items, i) <==> was.text || it.letter in "sc")
  {
    RunIsOne(items, i);
    if i > 0 && items[i - 1].Conversion? {
      forall j | 0 <= j < i ensures SameRun(items, j, i) <==> SameRun(items, j, i - 1) {
        RunGrows(items, j, i);
      }
    }
  }

  lemma FlagsStep(items: seq<Item>, i: nat)
    requires i < |items| && items[i].Conversion?
    ensures FlagsAt(items, i) == FlagsAfter(items[i].letter, MarkFlags(items[i].marks, FlagsBefore(items, i)))
    ensures var f := MarkFlags(items[i].marks, FlagsBefore(items, i));
            f.prefix == AsksPrefix(items, i) && f.sign == AsksSign(items, i)
  {
    AsksStep(items, i);
    MarkFlagsExact(items[i].marks, FlagsBefore(items, i));
  }

  // ----- reading one conversion

  ghost predicate TextInBody(f: string, pos: nat, s: string, key: nat) {
    pos + |s| <= |f| && f[pos..pos + |s|] == s
  }

  /** s is in f at position pos; opened by an instance. */
  ghost predicate TextIn(f: string, pos: nat, s: string) {
    forall key: nat :: TextInBody(f, pos, s, key)
  }

  lemma TextInParts(f: string, pos: nat, s: string, t: string)
    requires TextIn(f, pos, s + t)
    ensures TextIn(f, pos, s) && TextIn(f, pos + |s|, t)
  {
    assert TextInBody(f, pos, s + t, 0);
    assert (s + t)[..|s|] == s && (s + t)[|s|..] == t;
    assert f[pos..pos + |s|] == f[pos..pos + |s + t|][..|s|];
    assert f[pos + |s|..pos + |s| + |t|] == f[pos..pos + |s + t|][|s|..];
  }

  lemma TextInJoin(f: string, pos: nat, s: string, t: string)
    requires TextIn(f, pos, s) && TextIn(f, pos + |s|, t)
    ensures TextIn(f, pos, s + t)
  {
    assert TextInBody(f, pos, s, 0) && TextInBody(f, pos + |s|, t, 0);
    assert f[pos..pos + |s + t|] == f[pos..pos + |s|] + f[pos + |s|..pos + |s| + |t|];
  }

  lemma TextInAt(f: string, pos: nat, s: string, k: nat)
    requires TextIn(f, pos, s) && k < |s|
    ensures pos + |s| <= |f| && f[pos + k] == s[k]
  {
    assert TextInBody(f, pos, s, 0);
    assert f[pos..pos + |s|][k] == f[pos + k];
  }

  lemma TextInEnds(f: string, pos: nat, s: string)
    requires TextIn(f, pos, s)
    ensures pos + |s| <= |f|
  {
    assert TextInBody(f, pos, s, 0);
  }

  lemma {:induction false} DigitsRun(f: string, pos: nat, s: string, acc: nat)
    requires TextIn(f, pos, s) && forall i :: 0 <= i < |s| ==> IsDigit(s[i])
    requires pos + |s| < |f| && !IsDigit(f[pos + |s|])
    ensures DigitsEnd(f, pos) == pos + |s|
    ensures Width32(f, pos, acc % WORD) == AtoiFrom(s, acc) % WORD
    decreases |s|
  {
    TextInEnds(f, pos, s);
    if s != "" {
      TextInAt(f, pos, s, 0);
      assert s == [s[0]] + s[1..];
      TextInParts(f, pos, [s[0]], s[1..]);
      var d := s[0] as int - '0' as int;
      DigitsRun(f, pos + 1, s[1..], acc * 10 + d);
      WrapDigit(acc, d);
    }
  }

  lemma WrapDigit(acc: nat, d: nat)
    ensures (acc % WORD * 10 + d) % WORD == (acc * 10 + d) % WORD
  {
    var q := acc / WORD;
    assert acc * 10 + d == (acc % WORD * 10 + d) + WORD * (10 * q);
    ModAway(acc % WORD * 10 + d, 10 * q);
  }

  lemma ModAway(x: nat, k: nat)
    ensures (x + WORD * k) % WORD == x % WORD
  {
    UniqueRemainder(x + WORD * k, WORD, x / WORD + k, x % WORD);
  }

  lemma NotDigitBehind(ms: seq<Mark>, letter: char)
    requires ms != [] && Marked(ms, letter) && ms[0].Wide?
    ensures var t := MarksText(ms[1..]) + [letter]; !IsDigit(t[0])
  {
    assert MarkedBody(ms, letter, 0);
    if |ms| > 1 {
      assert !ms[1].Wide? && ms[1..][0] == ms[1];
    }
  }

  ghost predicate ParsesToBody(f: string, pos: nat, flags: Flags, pad: nat, p: Parsed, key: nat) {
    pos <= |f| && Parse(f, pos, flags, pad) == p
  }

  /** next_format at pos leads to p; opened by an instance. */
  ghost predicate ParsesTo(f: string, pos: nat, flags: Flags, pad: nat, p: Parsed) {
    forall key: nat :: ParsesToBody(f, pos, flags, pad, p, key)
  }

  lemma ParseLetter(f: string, pos: nat, letter: char, flags: Flags, pad: nat)
    requires Marked([], letter) && TextIn(f, pos, [letter])
    ensures ParsesTo(f, pos, flags, pad, Parsed(letter, pos + 1, flags, pad))
  {
    assert MarkedBody([], letter, 0);
    TextInAt(f, pos, [letter], 0);
  }

  /** next_format over one mark. */
  lemma ParseMark(f: string, pos: nat, m: Mark, flags: Flags, pad: nat, p: Parsed)
    requires ProperMark(m) && TextIn(f, pos, MarkText(m))
    requires m.Wide? ==> pos + |m.digits| < |f| && !IsDigit(f[pos + |m.digits|])
    requires ParsesTo(f, pos + |MarkText(m)|, MarkFlag(m, flags), WidthOf(m, pad), p)
    ensures ParsesTo(f, pos, flags, pad, p)
  {
    assert ParsesToBody(f, pos + |MarkText(m)|, MarkFlag(m, flags), WidthOf(m, pad), p, 0);
    TextInAt(f, pos, MarkText(m), 0);
    if m.Wide? {
      DigitsRun(f, pos, m.digits, 0);
    }
  }

  lemma FirstMark(f: string, pos: nat, ms: seq<Mark>, letter: char)
    requires ms != [] && Marked(ms, letter) && TextIn(f, pos, MarksText(ms) + [letter])
    ensures var m := MarkText(ms[0]);
            && TextIn(f, pos, m) && TextIn(f, pos + |m|, MarksText(ms[1..]) + [letter])
            && ProperMark(ms[0]) && Marked(ms[1..], letter)
            && (ms[0].Wide? ==> pos + |m| < |f| && !IsDigit(f[pos + |m|]))
  {
    var m, rest := MarkText(ms[0]), MarksText(ms[1..]) + [letter];
    Reassociate(m, MarksText(ms[1..]), [letter]);
    TextInParts(f, pos, m, rest);
    TextInAt(f, pos + |m|, rest, 0);
    MarkedTail(ms, letter);
    if ms[0].Wide? {
      NotDigitBehind(ms, letter);
    }
  }

  lemma MarkedTail(ms: seq<Mark>, letter: char)
    requires ms != [] && Marked(ms, letter)
    ensures ProperMark(ms[0]) && Marked(ms[1..], letter)
  {
    assert MarkedBody(ms, letter, 0);
  }

  /** next_format over marks and a letter. */
  lemma {:induction false} ParseMarks(f: string, pos: nat, ms: seq<Mark>, letter: char, flags: Flags, pad: nat)
    requires Marked(ms, letter) && TextIn(f, pos, MarksText(ms) + [letter])
    ensures ParsesTo(f, pos, flags, pad, Parsed(letter, pos + |MarksText(ms)| + 1, MarkFlags(ms, flags), LastWidth(ms, pad)))
    decreases |ms|
  {
    if ms == [] {
      assert MarksText(ms) + [letter] == [letter];
      ParseLetter(f, pos, letter, flags, pad);
    } else {
      var m := MarkText(ms[0]);
      FirstMark(f, pos, ms, letter);
      assert |MarksText(ms)| == |m| + |MarksText(ms[1..])|;
      ParseMarks(f, pos + |m|, ms[1..], letter, MarkFlag(ms[0], flags), WidthOf(ms[0], pad));
      ParseMark(f, pos, ms[0], flags, pad, Parsed(letter, pos + |MarksText(ms)| + 1, MarkFlags(ms, flags), LastWidth(ms, pad)));
    }
  }

  // ----- the whole format

  lemma {:induction false} AllAppend(ps: seq<Piece>, qs: seq<Piece>)
    ensures All(ps + qs) == All(ps) + All(qs)
    decreases ps
  {
    if ps == [] {
      assert ps + qs == qs;
    } else {
      assert (ps + qs)[1..] == ps[1..] + qs;
      AllAppend(ps[1..], qs);
      Reassociate(TextAt(ps[0]), All(ps[1..]), All(qs));
    }
  }

  /** Where text i starts. */
  function PlaceIn(ts: seq<string>, i: nat): (r: nat)
    requires i <= |ts|
  {
    if i == 0 then 0 else PlaceIn(ts, i - 1) + |ts[i - 1]|
  }

  function Place(items: seq<Item>, i: nat): (r: nat)
    requires i <= |items|
  {
    PlaceIn(Texts(items), i)
  }

  lemma {:induction false} JoinRest(ts: seq<string>, i: nat)
    requires i <= |ts|
    ensures PlaceIn(ts, i) <= |Join(ts, 0)| && Join(ts, 0)[PlaceIn(ts, i)..] == Join(ts, i)
    decreases i
  {
    if i > 0 {
      JoinRest(ts, i - 1);
      DropMore(Join(ts, 0), PlaceIn(ts, i - 1), ts[i - 1], Join(ts, i));
    }
  }

  lemma DropMore(f: string, pos: nat, s: string, t: string)
    requires pos <= |f| && f[pos..] == s + t
    ensures pos + |s| <= |f| && f[pos + |s|..] == t
  {
    assert f[pos..][|s|..] == t;
  }

  lemma RenderHas(items: seq<Item>, i: nat)
    requires i <= |items|
    ensures Place(items, i) <= |Render(items)|
    ensures i < |items| ==> TextIn(Render(items), Place(items, i), ItemText(items[i])) && Place(items, i + 1) <= |Render(items)|
  {
    var ts := Texts(items);
    JoinRest(ts, i);
    if i < |items| {
      TextInSuffix(Join(ts, 0), PlaceIn(ts, i), ts[i], Join(ts, i + 1));
    }
  }

  lemma TextInSuffix(f: string, pos: nat, s: string, t: string)
    requires pos <= |f| && f[pos..] == s + t
    ensures TextIn(f, pos, s) && pos + |s| <= |f|
  {
    assert f[pos..pos + |s|] == f[pos..][..|s|] == s;
  }

  lemma {:induction false} WholeText(items: seq<Item>)
    ensures Place(items, |items|) == |Render(items)|
  {
    JoinRest(Texts(items), |items|);
  }

  /** The pieces of one directive, joined. */
  lemma DirectiveSays(items: seq<Item>, i: nat, args: seq<Arg>, size: nat)
    requires i < |items| && items[i].Conversion? && FitsItem(items, i, args, size)
    ensures var it, a := items[i], ArgFor(items, i, args);
            var flags := MarkFlags(it.marks, FlagsBefore(items, i));
            All(Directive(it.letter, flags, PadBefore(items, i + 1), HeadOf(it.letter, flags, a), TextOf(it.letter, a)))
            == Means(items, i, args, size)
  {
    var it, a := items[i], ArgFor(items, i, args);
    var flags, pad := MarkFlags(it.marks, FlagsBefore(items, i)), PadBefore(items, i + 1);
    var head, text := HeadOf(it.letter, flags, a), TextOf(it.letter, a);
    FlagsStep(items, i);
    var filling := Padding(FlagsAfter(it.letter, flags), pad, text);
    assert filling == Filling(items, i, |text|);
    HeadSays(items, i, a);
    PartsJoined(head, filling, text);
  }

  lemma HeadSays(items: seq<Item>, i: nat, a: Arg)
    requires i < |items| && items[i].Conversion? && (items[i].letter in "di" ==> a.Number?)
    ensures All(HeadOf(items[i].letter, MarkFlags(items[i].marks, FlagsBefore(items, i)), a)) == Front(items, i, items[i].letter, a)
  {
    FlagsStep(items, i);
    var head := HeadOf(items[i].letter, MarkFlags(items[i].marks, FlagsBefore(items, i)), a);
    if head != [] {
      assert head[1..] == [];
    }
  }

  lemma PartsJoined(head: seq<Piece>, filling: string, text: string)
    ensures All(head + [Run(filling), Run(text)]) == All(head) + filling + text
  {
    AllAppend(head, [Run(filling), Run(text)]);
    assert [Run(filling), Run(text)][1..] == [Run(text)] && [Run(text)][1..] == [];
    assert All([Run(text)]) == text + "" == text;
    Reassociate(All(head), filling, text);
  }

  ghost predicate AgreesBody(items: seq<Item>, i: nat, args: seq<Arg>, size: nat, key: nat)
  {
    && i <= |items| && ArgNumber(items, i) <= |args| && Place(items, i) <= |Render(items)|
    && var f, pos, rest := Render(items), Place(items, i), args[ArgNumber(items, i)..];
       && (Handled(f, pos, FlagsBefore(items, i), PadBefore(items, i), rest, size) <==> FitsFrom(items, i, args, size))
       && (FitsFrom(items, i, args, size) ==>
             All(Pieces(f, pos, FlagsBefore(items, i), PadBefore(items, i), rest, size)) == Says(items, i, args, size))
  }

  /** From item i on, the code asks for what the items say; opened by an instance. */
  ghost predicate Agrees(items: seq<Item>, i: nat, args: seq<Arg>, size: nat) {
    forall key: nat :: AgreesBody(items, i, args, size, key)
  }

  lemma FitsStep(items: seq<Item>, i: nat, args: seq<Arg>, size: nat)
    requires i < |items|
    ensures FitsFrom(items, i, args, size) <==> FitsItem(items, i, args, size) && FitsFrom(items, i + 1, args, size)
  {
  }

  /** One step of the code over a plain character. */
  lemma PlainStep(f: string, pos: nat, flags: Flags, pad: nat, args: seq<Arg>, size: nat)
    requires pos < |f| && f[pos] != '%' && f[pos] != NUL
    ensures Handled(f, pos, flags, pad, args, size) <==> Handled(f, pos + 1, NO_FLAGS, pad, args, size)
    ensures Handled(f, pos, flags, pad, args, size) ==>
              All(Pieces(f, pos, flags, pad, args, size)) == [f[pos]] + All(Pieces(f, pos + 1, NO_FLAGS, pad, args, size))
  {
    if Handled(f, pos, flags, pad, args, size) {
      var more := Pieces(f, pos + 1, NO_FLAGS, pad, args, size);
      assert ([Char(f[pos])] + more)[1..] == more;
    }
  }

  /** One step of the code over a directive. */
  lemma DirectiveStep(f: string, pos: nat, flags: Flags, pad: nat, args: seq<Arg>, size: nat, p: Parsed)
    requires pos < |f| && f[pos] == '%' && ParsesTo(f, pos + 1, flags, pad, p) && p.Parsed? && p.next <= |f|
    ensures Handled(f, pos, flags, pad, args, size) <==>
            DirectiveFits(args, p.letter, size) && Handled(f, p.next, FlagsAfter(p.letter, p.flags), p.pad, Rest(args, p.letter), size)
    ensures Handled(f, pos, flags, pad, args, size) ==>
              var a := ArgOf(args, p.letter);
              All(Pieces(f, pos, flags, pad, args, size)) ==
              All(Directive(p.letter, p.flags, p.pad, HeadOf(p.letter, p.flags, a), TextOf(p.letter, a))) +
              All(Pieces(f, p.next, FlagsAfter(p.letter, p.flags), p.pad, Rest(args, p.letter), size))
  {
    assert ParsesToBody(f, pos + 1, flags, pad, p, 0);
    if Handled(f, pos, flags, pad, args, size) {
      var a := ArgOf(args, p.letter);
      AllAppend(Directive(p.letter, p.flags, p.pad, HeadOf(p.letter, p.flags, a), TextOf(p.letter, a)),
                Pieces(f, p.next, FlagsAfter(p.letter, p.flags), p.pad, Rest(args, p.letter), size));
    }
  }

  lemma PlainAgrees(items: seq<Item>, i: nat, args: seq<Arg>, size: nat)
    requires Proper(items) && i < |items| && items[i].Plain? && Agrees(items, i + 1, args, size)
    ensures Agrees(items, i, args, size)
  {
    var f, pos := Render(items), Place(items, i);
    PlainRead(items, i);
    PlainNext(items, i);
    assert AgreesBody(items, i + 1, args, size, 0);
    FitsStep(items, i, args, size);
    var rest := args[ArgNumber(items, i)..];
    PlainStep(f, pos, FlagsBefore(items, i), PadBefore(items, i), rest, size);
    assert FitsItem(items, i, args, size);
    if FitsFrom(items, i, args, size) {
      assert Says(items, i, args, size) == [items[i].c] + Says(items, i + 1, args, size);
    }
  }

  lemma PlainRead(items: seq<Item>, i: nat)
    requires Proper(items) && i < |items| && items[i].Plain?
    ensures var f, pos := Render(items), Place(items, i); pos < |f| && f[pos] == items[i].c && f[pos] != '%' && f[pos] != NUL
  {
    RenderHas(items, i);
    TextInAt(Render(items), Place(items, i), ItemText(items[i]), 0);
  }

  lemma PlainNext(items: seq<Item>, i: nat)
    requires i < |items| && items[i].Plain?
    ensures FlagsBefore(items, i + 1) == NO_FLAGS && PadBefore(items, i + 1) == PadBefore(items, i)
    ensures ArgNumber(items, i + 1) == ArgNumber(items, i) && Place(items, i + 1) == Place(items, i) + 1
  {
  }

  /** What the code reads at a conversion. */
  lemma ReadAt(f: string, pos: nat, it: Item, flags: Flags, pad: nat)
    requires it.Conversion? && Marked(it.marks, it.letter) && TextIn(f, pos, ItemText(it))
    ensures pos < |f| && f[pos] == '%'
    ensures ParsesTo(f, pos + 1, flags, pad,
                     Parsed(it.letter, pos + |ItemText(it)|, MarkFlags(it.marks, flags), LastWidth(it.marks, pad)))
  {
    PercentRead(f, pos, it);
    ParseMarks(f, pos + 1, it.marks, it.letter, flags, pad);
  }

  lemma PercentRead(f: string, pos: nat, it: Item)
    requires it.Conversion? && TextIn(f, pos, ItemText(it))
    ensures pos < |f| && f[pos] == '%' && TextIn(f, pos + 1, MarksText(it.marks) + [it.letter])
    ensures |ItemText(it)| == |MarksText(it.marks)| + 2
  {
    assert ItemText(it) == "%" + (MarksText(it.marks) + [it.letter]);
    TextInParts(f, pos, "%", MarksText(it.marks) + [it.letter]);
    TextInAt(f, pos, "%", 0);
  }

  lemma RestIs(items: seq<Item>, i: nat, args: seq<Arg>)
    requires i < |items| && items[i].Conversion? && ArgNumber(items, i + 1) <= |args|
    ensures var rest := args[ArgNumber(items, i)..];
            && (TakesArg(items[i].letter) ==> rest != [])
            && Rest(rest, items[i].letter) == args[ArgNumber(items, i + 1)..]
            && ArgOf(rest, items[i].letter) == ArgFor(items, i, args)
  {
  }

  lemma ConversionAgrees(items: seq<Item>, i: nat, args: seq<Arg>, size: nat)
    requires Proper(items) && i < |items| && items[i].Conversion? && ArgNumber(items, i + 1) <= |args|
    requires Agrees(items, i + 1, args, size)
    ensures Agrees(items, i, args, size)
  {
    var it, rest := items[i], args[ArgNumber(items, i)..];
    var flags, pad := FlagsBefore(items, i), PadBefore(items, i);
    RenderHas(items, i);
    ReadAt(Render(items), Place(items, i), items[i], flags, pad);
    RestIs(items, i, args);
    FlagsStep(items, i);
    FitsStep(items, i, args, size);
    assert DirectiveFits(rest, it.letter, size) <==> FitsItem(items, i, args, size);
    DirectiveStep(Render(items), Place(items, i), flags, pad, rest, size,
                  Parsed(it.letter, Place(items, i + 1), MarkFlags(it.marks, flags), LastWidth(it.marks, pad)));
    assert AgreesBody(items, i + 1, args, size, 0);
    if FitsFrom(items, i, args, size) {
      DirectiveSays(items, i, args, size);
    }
  }

  /** The arguments run out at this conversion. */
  lemma ArgMissing(items: seq<Item>, i: nat, args: seq<Arg>, size: nat)
    requires Proper(items) && i < |items| && Takes(items[i]) && ArgNumber(items, i) == |args|
    ensures Agrees(items, i, args, size)
  {
    var it, flags, pad := items[i], FlagsBefore(items, i), PadBefore(items, i);
    RenderHas(items, i);
    ReadAt(Render(items), Place(items, i), items[i], flags, pad);
    DirectiveStep(Render(items), Place(items, i), flags, pad, args[|args|..], size,
                  Parsed(it.letter, Place(items, i + 1), MarkFlags(it.marks, flags), LastWidth(it.marks, pad)));
    FitsStep(items, i, args, size);
  }

  lemma {:induction false} AgreesFrom(items: seq<Item>, i: nat, args: seq<Arg>, size: nat)
    requires Proper(items) && i <= |items| && ArgNumber(items, i) <= |args|
    ensures Agrees(items, i, args, size)
    decreases |items| - i
  {
    if i == |items| {
      WholeText(items);
    } else if items[i].Plain? {
      AgreesFrom(items, i + 1, args, size);
      PlainAgrees(items, i, args, size);
    } else if Takes(items[i]) && ArgNumber(items, i) == |args| {
      ArgMissing(items, i, args, size);
    } else {
      AgreesFrom(items, i + 1, args, size);
      ConversionAgrees(items, i, args, size);
    }
  }

  /**
   Main result: a format is handled exactly when each conversion's own argument fits it, and what
   is then asked to be printed is what the items say, one after the other.
   */
  lemma FormatMeans(items: seq<Item>, args: seq<Arg>, size: nat)
    requires Proper(items)
    ensures Handled(Render(items), 0, NO_FLAGS, 0, args, size) <==> FitsFrom(items, 0, args, size)
    ensures FitsFrom(items, 0, args, size) ==>
              All(Pieces(Render(items), 0, NO_FLAGS, 0, args, size)) == Says(items, 0, args, size)
  {
    AgreesFrom(items, 0, args, size);
    assert AgreesBody(items, 0, args, size, 0);
    assert args[0..] == args;
  }

  // ----- every handled format is such a list

  lemma {:induction false} DigitsAre(f: string, pos: nat)
    requires pos <= |f|
    ensures var e := DigitsEnd(f, pos);
            (forall i :: pos <= i < e ==> IsDigit(f[i])) && (e < |f| ==> !IsDigit(f[e]))
    decreases |f| - pos
  {
    if pos < |f| && IsDigit(f[pos]) {
      DigitsAre(f, pos + 1);
    }
  }

  lemma WidthRead(f: string, pos: nat) returns (m: Mark)
    requires pos < |f| && DigitsEnd(f, pos) > pos
    ensures var e := DigitsEnd(f, pos);
            m == Wide(f[pos..e]) && ProperMark(m) && TextIn(f, pos, MarkText(m)) && e == pos + |MarkText(m)| && IsDigit(f[pos])
            && (e < |f| ==> !IsDigit(f[e]))
  {
    var e := DigitsEnd(f, pos);
    DigitsAre(f, pos);
    m := Wide(f[pos..e]);
    assert f[pos..pos + |f[pos..e]|] == f[pos..e];
  }

  lemma OneChar(f: string, pos: nat)
    requires pos < |f|
    ensures TextIn(f, pos, [f[pos]])
  {
    assert f[pos..pos + 1] == [f[pos]];
  }

  /** Marks ms and a letter stand at pos, and end at `end`. */
  ghost predicate MarkedAt(f: string, pos: nat, ms: seq<Mark>, letter: char, end: nat) {
    ProperMarks(ms) && TextIn(f, pos, MarksText(ms) + [letter]) && end == pos + |MarksText(ms)| + 1
  }

  lemma MarkBefore(f: string, pos: nat, m: Mark, rest: seq<Mark>, letter: char, end: nat) returns (ms: seq<Mark>)
    requires ProperMark(m) && TextIn(f, pos, MarkText(m)) && MarkedAt(f, pos + |MarkText(m)|, rest, letter, end)
    requires rest != [] && rest[0].Wide? ==> !m.Wide?
    ensures ms == [m] + rest && MarkedAt(f, pos, ms, letter, end)
  {
    ms := [m] + rest;
    assert ms[1..] == rest;
    TextInJoin(f, pos, MarkText(m), MarksText(rest) + [letter]);
    Reassociate(MarkText(m), MarksText(rest), [letter]);
  }

  /** The marks between a percent sign and its letter. */
  lemma {:induction false} MarksOf(f: string, pos: nat, flags: Flags, pad: nat) returns (ms: seq<Mark>)
    requires pos <= |f| && Parse(f, pos, flags, pad).Parsed?
    ensures var p := Parse(f, pos, flags, pad); MarkedAt(f, pos, ms, p.letter, p.next)
    ensures ms != [] && ms[0].Wide? ==> pos < |f| && IsDigit(f[pos])
    decreases |f| - pos
  {
    var p := Parse(f, pos, flags, pad);
    OneChar(f, pos);
    if IsConversion(f[pos]) {
      ms := [];
      assert MarksText(ms) + [p.letter] == [f[pos]];
    } else if f[pos] == '#' {
      var rest := MarksOf(f, pos + 1, flags.(prefix := true), pad);
      ms := MarkBefore(f, pos, Prefix, rest, p.letter, p.next);
    } else if f[pos] == '+' {
      var rest := MarksOf(f, pos + 1, flags.(sign := true), pad);
      ms := MarkBefore(f, pos, Sign, rest, p.letter, p.next);
    } else {
      var m := WidthRead(f, pos);
      var rest := MarksOf(f, DigitsEnd(f, pos), flags.(width := true), Width32(f, pos, 0));
      ms := MarkBefore(f, pos, m, rest, p.letter, p.next);
    }
  }

  /** From pos to its end f is the text of these items. */
  ghost predicate EndsWith(f: string, pos: nat, items: seq<Item>) {
    Proper(items) && TextIn(f, pos, Render(items)) && pos + |Render(items)| == |f|
  }

  lemma ItemBefore(f: string, pos: nat, it: Item, rest: seq<Item>) returns (items: seq<Item>)
    requires ProperItem(it) && TextIn(f, pos, ItemText(it)) && EndsWith(f, pos + |ItemText(it)|, rest)
    ensures EndsWith(f, pos, items)
  {
    items := [it] + rest;
    assert Texts(items) == [ItemText(it)] + Texts(rest);
    JoinShift(ItemText(it), Texts(rest), 0);
    TextInJoin(f, pos, ItemText(it), Render(rest));
  }

  lemma {:induction false} JoinShift(t: string, rest: seq<string>, i: nat)
    requires i <= |rest|
    ensures Join([t] + rest, i + 1) == Join(rest, i)
    decreases |rest| - i
  {
    if i < |rest| {
      assert ([t] + rest)[i + 1] == rest[i];
      JoinShift(t, rest, i + 1);
    }
  }

  ghost predicate HandlesBody(f: string, pos: nat, flags: Flags, pad: nat, args: seq<Arg>, size: nat, key: nat) {
    pos <= |f| && Handled(f, pos, flags, pad, args, size)
  }

  /** The format is handled from pos on; opened by an instance. */
  ghost predicate Handles(f: string, pos: nat, flags: Flags, pad: nat, args: seq<Arg>, size: nat) {
    forall key: nat :: HandlesBody(f, pos, flags, pad, args, size, key)
  }

  lemma HandlesPlain(f: string, pos: nat, flags: Flags, pad: nat, args: seq<Arg>, size: nat)
    requires Handles(f, pos, flags, pad, args, size) && pos < |f| && f[pos] != '%'
    ensures Handles(f, pos + 1, NO_FLAGS, pad, args, size) && TextIn(f, pos, [f[pos]]) && ProperItem(Plain(f[pos]))
  {
    assert HandlesBody(f, pos, flags, pad, args, size, 0);
    OneChar(f, pos);
  }

  lemma HandlesDirective(f: string, pos: nat, flags: Flags, pad: nat, args: seq<Arg>, size: nat)
    returns (it: Item, next: nat, flags': Flags, pad': nat, args': seq<Arg>)
    requires Handles(f, pos, flags, pad, args, size) && pos < |f| && f[pos] == '%'
    ensures pos < next <= |f| && Handles(f, next, flags', pad', args', size)
    ensures ProperItem(it) && TextIn(f, pos, ItemText(it)) && next == pos + |ItemText(it)|
  {
    assert HandlesBody(f, pos, flags, pad, args, size, 0);
    var p := Parse(f, pos + 1, flags, pad);
    var ms := MarksOf(f, pos + 1, flags, pad);
    PercentText(f, pos, ms, p.letter, p.next);
    it, next, flags', pad', args' := Conversion(ms, p.letter), p.next, FlagsAfter(p.letter, p.flags), p.pad, Rest(args, p.letter);
  }

  lemma PercentText(f: string, pos: nat, ms: seq<Mark>, letter: char, end: nat)
    requires pos < |f| && f[pos] == '%' && MarkedAt(f, pos + 1, ms, letter, end) && IsConversion(letter)
    ensures ProperItem(Conversion(ms, letter))
    ensures TextIn(f, pos, ItemText(Conversion(ms, letter))) && end == pos + |ItemText(Conversion(ms, letter))|
  {
    OneChar(f, pos);
    TextInJoin(f, pos, "%", MarksText(ms) + [letter]);
    Reassociate("%", MarksText(ms), [letter]);
  }

  lemma {:induction false} ItemsOf(f: string, pos: nat, flags: Flags, pad: nat, args: seq<Arg>, size: nat) returns (items: seq<Item>)
    requires pos <= |f| && Handles(f, pos, flags, pad, args, size)
    ensures EndsWith(f, pos, items)
    decreases |f| - pos
  {
    if pos == |f| {
      items := [];
      assert f[pos..pos] == "";
    } else if f[pos] != '%' {
      HandlesPlain(f, pos, flags, pad, args, size);
      var rest := ItemsOf(f, pos + 1, NO_FLAGS, pad, args, size);
      items := ItemBefore(f, pos, Plain(f[pos]), rest);
    } else {
      var it, next, flags', pad', args' := HandlesDirective(f, pos, flags, pad, args, size);
      var rest := ItemsOf(f, next, flags', pad', args', size);
      items := ItemBefore(f, pos, it, rest);
    }
  }

  /** So the main result covers every format that is handled, whatever its arguments. */
  lemma EveryFormat(f: string, args: seq<Arg>, size: nat) returns (items: seq<Item>)
    requires Handled(f, 0, NO_FLAGS, 0, args, size)
    ensures Proper(items) && Render(items) == f && FitsFrom(items, 0, args, size)
    ensures All(Pieces(f, 0, NO_FLAGS, 0, args, size)) == Says(items, 0, args, size)
  {
    items := ItemsOf(f, 0, NO_FLAGS, 0, args, size);
    assert TextInBody(f, 0, Render(items), 0);
    FormatMeans(items, args, size);
  }

  // ----- the digits read back

  /** The base a letter prints numbers in. */
  function BaseShown(c: char): (r: nat)
    ensures 2 <= r <= 16
  {
    if c in "xXl" then 16 else if c == 'o' then 8 else if c == 'b' then 2 else 10
  }

  /** What of a number is shown: eight decimal digits, a byte for X, 64 bits for l, else 32 bits. */
  function Shown(c: char, v: int): (r: int) {
    if c in "di" then (if v < 0 then -v else v) % 100_000_000
    else if c == 'u' then v % WORD % 100_000_000
    else if c == 'X' then v % 256
    else if c == 'l' then v
    else v % WORD
  }

  /** The value of digits as they are printed. */
  function Reading(text: string, base: nat): (r: int) {
    Value(Reverse(text), base)
  }

  lemma ReverseTwice(s: string)
    ensures Reverse(Reverse(s)) == s
  {
  }

  lemma LowReading(v: nat, base: nat, k: nat)
    requires 2 <= base <= 16
    ensures Reading(Reverse(LowDigits(v, base, k)), base) == v % Pow(base, k)
    ensures AllDigits(Reverse(Reverse(LowDigits(v, base, k))), base)
  {
    ReverseTwice(LowDigits(v, base, k));
    LowDigitsValue(v, base, k);
  }

  lemma PaddedReading(v: nat, base: nat, len: nat)
    requires 2 <= base <= 16 && base != 10 && v < Pow(base, len)
    ensures Reading(Reverse(PaddedDigits(v, base, len)), base) == v
  {
    var ds := LowDigits(v, base, len);
    ReverseTwice(PaddedDigits(v, base, len));
    LowDigitsValue(v, base, len);
    SmallRemainder(v, Pow(base, len));
    ZerosValue(ds, len - |ds|, base);
  }

  lemma Powers()
    ensures Pow(10, 8) == 100_000_000 && Pow(16, 2) == 256 && Pow(16, 16) == 0x1_0000_0000_0000_0000
  {
    assert Pow(10, 4) == 10_000 && Pow(16, 4) == 0x1_0000;
    assert Pow(16, 8) == 0x1_0000_0000;
    assert Pow(16, 12) == 0x1_0000_0000_0000;
  }

  lemma SignedReading(v: int)
    ensures Reading(Magnitude(v), 10) == (if v < 0 then -v else v) % 100_000_000
  {
    if v == 0 {
      assert Reverse("0") == "0" && "0"[1..] == "";
    } else {
      Powers();
      LowReading(if v < 0 then -v else v, 10, 8);
    }
  }

  /** A number's text is digits of its base, and has the value that is shown. */
  lemma NumberReads(c: char, v: int, size: nat)
    requires c in "xXdiulob" && ArgFits(c, Number(v), size)
    ensures Reading(TextOf(c, Number(v)), BaseShown(c)) == Shown(c, v)
  {
    if c == 'd' || c == 'i' {
      SignedReading(v);
    } else if c == 'u' {
      DecimalReads(Unsigned(v));
    } else if c == 'X' || c == 'l' {
      HexReads(c, v, size);
    } else {
      WordReads(c, v, size);
    }
  }

  lemma HexReads(c: char, v: int, size: nat)
    requires (c == 'X' || c == 'l') && ArgFits(c, Number(v), size)
    ensures Reading(TextOf(c, Number(v)), 16) == Shown(c, v)
  {
    if c == 'X' {
      ByteReads(v);
    } else {
      LongReads(v);
    }
  }

  lemma DecimalReads(v: nat)
    ensures Reading(Itoa(v, 10), 10) == v % 100_000_000
  {
    Powers();
    LowReading(v, 10, 8);
  }

  lemma WordReads(c: char, v: int, size: nat)
    requires (c == 'x' || c == 'o' || c == 'b') && ArgFits(c, Number(v), size)
    ensures Reading(TextOf(c, Number(v)), BaseShown(c)) == v % WORD
  {
    WordFits(c, v, size);
    ItoaReads(Unsigned(v), BaseOf(c));
  }

  lemma WordFits(c: char, v: int, size: nat)
    requires (c == 'x' || c == 'o' || c == 'b') && ArgFits(c, Number(v), size)
    ensures Unsigned(v) < Pow(BaseOf(c), Width(BaseOf(c))) && BaseOf(c) == BaseShown(c) != 10
  {
  }

  lemma ItoaReads(v: nat, base: nat)
    requires 2 <= base <= 16 && base != 10 && v < Pow(base, Width(base))
    ensures Reading(Itoa(v, base), base) == v
  {
    PaddedReading(v, base, Width(base));
  }

  lemma ByteReads(v: int)
    ensures Reading(Reverse(LowDigits(v % 256, 16, 2)), 16) == v % 256
  {
    Powers();
    LowReading(v % 256, 16, 2);
  }

  lemma LongReads(v: nat)
    requires v < 0x1_0000_0000_0000_0000
    ensures Reading(Reverse(LowDigits(v, 16, 16)), 16) == v
  {
    Powers();
    LowReading(v, 16, 16);
  }

  /** Strings and characters are printed as they are. */
  lemma TextPrinted(c: char, a: Arg, size: nat)
    requires c in "sc" && ArgFits(c, a, size)
    ensures c == 's' ==> a.Text? && TextOf(c, a) == a.s
    ensures c == 'c' ==> if a.value == 0 then TextOf(c, a) == "" else |TextOf(c, a)| == 1 && TextOf(c, a)[0] as int == a.value
  {
  }

  /**
   Read back by atoi, what %i prints is the number exactly when it has at most eight digits; what %d
   prints is so only if moreover a sign was asked for or is not needed.
   */
  lemma SignedExact(items: seq<Item>, i: nat, letter: char, v: int)
    requires letter == 'd' || letter == 'i'
    ensures Atoi(Front(items, i, letter, Number(v)) + TextOf(letter, Number(v))) == v <==>
            -100_000_000 < v < 100_000_000 && (letter == 'i' || AsksSign(items, i) || v >= 0)
  {
    var front, text := Front(items, i, letter, Number(v)), Magnitude(v);
    MagnitudeReads(v);
    FrontReads(front, text);
    FitsEightDigits(if v < 0 then -v else v);
  }

  lemma MagnitudeReads(v: int)
    ensures var t := Magnitude(v); t != "" && t[0] != '-' && AtoiFrom(t, 0) == (if v < 0 then -v else v) % 100_000_000
  {
    if v == 0 {
      assert "0"[1..] == "";
    } else {
      EightDigits(if v < 0 then -v else v);
    }
  }

  lemma FrontReads(front: string, text: string)
    requires text != "" && text[0] != '-' && (front == "" || front == "+" || front == "-")
    ensures Atoi(front + text) == if front == "-" then -AtoiFrom(text, 0) else AtoiFrom(text, 0)
  {
    if front == "" {
      assert front + text == text;
    } else {
      assert (front + text)[1..] == text;
    }
  }

  /** A failing input: without a plus sign in the format, %d prints -5 as 5. */
  lemma SignIsLost()
    ensures var items := [Conversion([], 'd')];
            Proper(items) && Render(items) == "%d" && FitsFrom(items, 0, [Number(-5)], 8) && Says(items, 0, [Number(-5)], 8) == "5"
  {
    var items := [Conversion([], 'd')];
    var ts := Texts(items);
    assert MarksText([]) == "" && "%" + "" + ['d'] == "%d";
    assert ts[0] == "%d" && Join(ts, 1) == "" && Join(ts, 0) == "%d" + "";
    assert Reverse("5") == "5";
    assert LowDigits(5, 10, 8) == "5";
    assert !AsksSign(items, 0) && !AsksWidth(items, 0);
  }

  /** All of it is printed when the buffer has twice its length and two places more. */
  lemma PrintedInFull(items: seq<Item>, args: seq<Arg>, size: nat)
    requires Proper(items) && FitsFrom(items, 0, args, size) && size >= 2 * |Says(items, 0, args, size)| + 2
    ensures Handled(Render(items), 0, NO_FLAGS, 0, args, size)
    ensures Output("", Pieces(Render(items), 0, NO_FLAGS, 0, args, size), size) == Says(items, 0, args, size)
  {
    FormatMeans(items, args, size);
    FormatInFull(Render(items), args, size);
  }
}
