/**
 The bounded formatter.  A format is a list of pieces, which do not depend on the size of the
 output; the size decides how much of each piece is printed.
 */
module PrintfSpec {
  import opened Common
  import opened NumberSpec

  const NUL: char := '\0'

  /** flags: #, +, a width, a text; they last until the next plain character. */
  datatype Flags = Flags(prefix: bool, sign: bool, width: bool, text: bool)

  const NO_FLAGS: Flags := Flags(false, false, false, false)

  /** One variable argument: a number as passed, or a string. */
  datatype Arg = Number(value: int) | Text(s: string)

  /**
   What a format asks to be printed: a plain character, a sign or prefix that is left out
   when fewer than `room` places are behind it, and a run of characters.
   */
  datatype Piece = Char(c: char) | Head(text: string, room: nat) | Run(text: string)

  predicate IsConversion(c: char) {
    c in "%xXdiulobscw"
  }

  predicate TakesArg(c: char) {
    c != '%' && c != 'w'
  }

  // ----- the directive behind a percent sign

  function DigitsEnd(fmt: string, pos: nat): (r: nat)
    requires pos <= |fmt|
    ensures pos <= r <= |fmt|
    decreases |fmt| - pos
  {
    if pos < |fmt| && IsDigit(fmt[pos]) then DigitsEnd(fmt, pos + 1) else pos
  }

  /** The width, a 32-bit number. */
  function Width32(fmt: string, pos: nat, acc: nat): (r: nat)
    requires pos <= |fmt|
    decreases |fmt| - pos
  {
    if pos < |fmt| && IsDigit(fmt[pos]) then Width32(fmt, pos + 1, (acc * 10 + (fmt[pos] as int - '0' as int)) % WORD)
    else acc
  }

  datatype Parsed = Parsed(letter: char, next: nat, flags: Flags, pad: nat) | Endless

  /** next_format: at a character that is neither handled nor a digit it jumps to itself for ever. */
  function Parse(fmt: string, pos: nat, flags: Flags, pad: nat): (r: Parsed)
    requires pos <= |fmt|
    ensures r.Parsed? ==> pos < r.next <= |fmt| && IsConversion(r.letter)
    decreases |fmt| - pos
  {
    if pos == |fmt| then Endless
    else if IsConversion(fmt[pos]) then Parsed(fmt[pos], pos + 1, flags, pad)
    else if fmt[pos] == '#' then Parse(fmt, pos + 1, flags.(prefix := true), pad)
    else if fmt[pos] == '+' then Parse(fmt, pos + 1, flags.(sign := true), pad)
    else
      var e := DigitsEnd(fmt, pos);
      if e == pos then Endless else Parse(fmt, e, flags.(width := true), Width32(fmt, pos, 0))
  }

  // ----- what a directive prints

  function Unsigned(v: int): (r: nat)
    ensures r < WORD
  {
    v % WORD
  }

  /** The kernel's sitoa leaves the sign to its caller. */
  function Magnitude(v: int): (r: string) {
    if v == 0 then "0" else Reverse(LowDigits(if v < 0 then -v else v, 10, 8))
  }

  /** The arguments for which the printers write a string, and it fits a scratch buffer of that size. */
  predicate ArgFits(c: char, a: Arg, size: nat) {
    if c == 's' then a.Text? && NUL !in a.s && |a.s| < size
    else if c == 'c' then a.Number? && 0 <= a.value < 128 && size >= 2
    else
      a.Number? && (c == 'l' ==> a.value >= 0) && |TextOf(c, a)| < size &&
      (if c == 'u' then Unsigned(a.value) != 0
       else if c == 'X' then a.value % 256 != 0
       else if c == 'l' then 0 < a.value < 0x1_0000_0000_0000_0000
       else if c == 'o' then Unsigned(a.value) < Pow(8, 8)
       else if c == 'x' then Unsigned(a.value) < Pow(16, 8)
       else if c == 'b' then Unsigned(a.value) < Pow(2, 32)
       else true)
  }

  /** The string a conversion leaves in the scratch buffer. */
  function TextOf(c: char, a: Arg): (r: string)
    requires TakesArg(c) ==> if c == 's' then a.Text? else a.Number? && (c == 'c' ==> 0 <= a.value < 128) && (c == 'l' ==> a.value >= 0)
  {
    if c == '%' then "%"
    else if c == 'w' then " "
    else if c == 's' then a.s
    else if c == 'c' then (if a.value == 0 then "" else [a.value as char])
    else if c == 'd' || c == 'i' then Magnitude(a.value)
    else if c == 'X' then Reverse(LowDigits(a.value % 256, 16, 2))
    else if c == 'l' then Reverse(LowDigits(a.value, 16, 16))
    else Itoa(Unsigned(a.value), BaseOf(c))
  }

  /** The base of x, u, o and b. */
  function BaseOf(c: char): (base: nat)
    ensures base in {2, 8, 10, 16}
  {
    if c == 'x' then 16 else if c == 'u' then 10 else if c == 'o' then 8 else 2
  }

  /** Prefixes and signs, printed before the padding. */
  function HeadOf(c: char, flags: Flags, a: Arg): (r: seq<Piece>)
    requires c == 'd' || c == 'i' ==> a.Number?
  {
    if (c == 'x' || c == 'X') && flags.prefix then [Head("0x", 2)]
    else if c == 'o' && flags.prefix then [Head("0", 2)]
    else if c == 'd' && flags.sign then [Head(if a.value > 0 then "+" else "-", 1)]
    else if c == 'i' && a.value < 0 then [Head("-", 1)]
    else []
  }

  function FlagsAfter(c: char, flags: Flags): (r: Flags) {
    if c == 's' || c == 'c' then flags.(text := true)
    else if c == 'w' then flags.(width := true)
    else flags
  }

  function Repeat(c: char, k: nat): (r: string)
    ensures |r| == k && forall i :: 0 <= i < k ==> r[i] == c
  {
    seq(k, _ => c)
  }

  function Padding(flags: Flags, pad: nat, text: string): (r: string) {
    if flags.width && pad > |text| then Repeat(if flags.text then ' ' else '0', pad - |text|) else ""
  }

  function Directive(c: char, flags: Flags, pad: nat, head: seq<Piece>, text: string): (r: seq<Piece>) {
    head + [Run(Padding(FlagsAfter(c, flags), pad, text)), Run(text)]
  }

  // ----- the whole format

  function ArgOf(args: seq<Arg>, c: char): (r: Arg)
    requires TakesArg(c) ==> args != []
  {
    if TakesArg(c) then args[0] else Number(0)
  }

  function Rest(args: seq<Arg>, c: char): (r: seq<Arg>)
    requires TakesArg(c) ==> args != []
  {
    if TakesArg(c) then args[1..] else args
  }

  predicate DirectiveFits(args: seq<Arg>, c: char, size: nat) {
    if TakesArg(c) then args != [] && ArgFits(c, args[0], size) else size >= 2
  }

  /** Only handled directives, with arguments that fit. */
  predicate Handled(fmt: string, pos: nat, flags: Flags, pad: nat, args: seq<Arg>, size: nat)
    requires pos <= |fmt|
    decreases |fmt| - pos
  {
    if pos == |fmt| then true
    else if fmt[pos] != '%' then fmt[pos] != NUL && Handled(fmt, pos + 1, NO_FLAGS, pad, args, size)
    else
      var p := Parse(fmt, pos + 1, flags, pad);
      && p.Parsed? && DirectiveFits(args, p.letter, size)
      && Handled(fmt, p.next, FlagsAfter(p.letter, p.flags), p.pad, Rest(args, p.letter), size)
  }

  function Pieces(fmt: string, pos: nat, flags: Flags, pad: nat, args: seq<Arg>, size: nat): (r: seq<Piece>)
    requires pos <= |fmt| && Handled(fmt, pos, flags, pad, args, size)
    decreases |fmt| - pos
  {
    if pos == |fmt| then []
    else if fmt[pos] != '%' then [Char(fmt[pos])] + Pieces(fmt, pos + 1, NO_FLAGS, pad, args, size)
    else
      var p := Parse(fmt, pos + 1, flags, pad);
      var a := ArgOf(args, p.letter);
      Directive(p.letter, p.flags, p.pad, HeadOf(p.letter, p.flags, a), TextOf(p.letter, a)) +
      Pieces(fmt, p.next, FlagsAfter(p.letter, p.flags), p.pad, Rest(args, p.letter), size)
  }

  // ----- printing pieces

  /** How many characters a copy loop prints: its test counts every character twice. */
  function Half(room: int): (r: nat) {
    if room <= 0 then 0 else (room + 1) / 2
  }

  function Min(a: nat, b: nat): (r: nat) {
    if a < b then a else b
  }

  /** A head is never longer than the room it asks for. */
  function Emit(out: string, piece: Piece, size: nat): (r: string)
    ensures |out| <= size ==> |r| <= size
    ensures |out| >= size ==> r == out
  {
    match piece
    case Char(c) => if |out| < size then out + [c] else out
    case Head(text, room) => if |out| + room < size && |text| <= room then out + text else out
    case Run(text) => out + text[..Min(|text|, Half(size - |out|))]
  }

  function Output(out: string, pieces: seq<Piece>, size: nat): (r: string)
    decreases pieces
  {
    if pieces == [] then out else Output(Emit(out, pieces[0], size), pieces[1..], size)
  }

  function TextAt(piece: Piece): (r: string) {
    if piece.Char? then [piece.c] else piece.text
  }

  /** The reference: everything that was asked for. */
  function All(pieces: seq<Piece>): (r: string) {
    if pieces == [] then "" else TextAt(pieces[0]) + All(pieces[1..])
  }

  function TextLen(piece: Piece): (r: nat) {
    if piece.Char? then 1 else |piece.text|
  }

  /** The piece, printed at position p, is not cut. */
  predicate FitsAt(piece: Piece, p: nat, size: nat) {
    match piece
    case Char(_) => p < size
    case Head(text, room) => text == "" || (p + room < size && |text| <= room)
    case Run(text) => text == "" || 2 * |text| <= size - p + 1
  }

  /** No piece is cut, each starting where those before it end. */
  predicate Fits(pieces: seq<Piece>, p: nat, size: nat) {
    pieces == [] || (FitsAt(pieces[0], p, size) && Fits(pieces[1..], p + TextLen(pieces[0]), size))
  }

  // ----- the promises

  /** Never more than size characters. */
  lemma {:induction false} OutputBounded(out: string, pieces: seq<Piece>, size: nat)
    requires |out| <= size
    ensures |Output(out, pieces, size)| <= size
    decreases pieces
  {
    if pieces != [] {
      OutputBounded(Emit(out, pieces[0], size), pieces[1..], size);
    }
  }

  lemma EmitExact(out: string, piece: Piece, size: nat)
    requires |out| <= size
    ensures |Emit(out, piece, size)| <= |out| + TextLen(piece)
    ensures |Emit(out, piece, size)| == |out| + TextLen(piece) <==> FitsAt(piece, |out|, size)
    ensures FitsAt(piece, |out|, size) ==> Emit(out, piece, size) == out + TextAt(piece)
  {
    if piece.Run? && FitsAt(piece, |out|, size) {
      assert piece.text[..|piece.text|] == piece.text;
    }
  }

  lemma {:induction false} AllLength(pieces: seq<Piece>)
    ensures pieces != [] ==> |All(pieces)| == TextLen(pieces[0]) + |All(pieces[1..])|
  {
  }

  lemma {:induction false} OutputIsAll(out: string, pieces: seq<Piece>, size: nat)
    requires |out| <= size && Fits(pieces, |out|, size)
    ensures Output(out, pieces, size) == out + All(pieces)
    decreases pieces
  {
    if pieces != [] {
      var t := TextAt(pieces[0]);
      EmitExact(out, pieces[0], size);
      OutputIsAll(out + t, pieces[1..], size);
      Reassociate(out, t, All(pieces[1..]));
    }
  }

  lemma Reassociate(a: string, b: string, c: string)
    ensures (a + b) + c == a + (b + c)
  {
  }

  lemma {:induction false} OutputLength(out: string, pieces: seq<Piece>, size: nat)
    requires |out| <= size
    ensures |Output(out, pieces, size)| <= |out| + |All(pieces)|
    ensures |Output(out, pieces, size)| == |out| + |All(pieces)| ==> Fits(pieces, |out|, size)
    decreases pieces
  {
    if pieces != [] {
      EmitExact(out, pieces[0], size);
      AllLength(pieces);
      OutputLength(Emit(out, pieces[0], size), pieces[1..], size);
    }
  }

  /** Everything is printed exactly when no piece is cut. */
  lemma OutputExact(pieces: seq<Piece>, size: nat)
    ensures Output("", pieces, size) == All(pieces) <==> Fits(pieces, 0, size)
  {
    OutputLength("", pieces, size);
    if Fits(pieces, 0, size) {
      OutputIsAll("", pieces, size);
      assert "" + All(pieces) == All(pieces);
    }
  }

  /** Thirty characters into forty places: only twenty are printed. */
  lemma HalfIsPrinted(s: string)
    requires |s| == 30
    ensures Output("", [Run(s)], 40) == s[..20]
  {
    assert [Run(s)][1..] == [];
    assert "" + s[..20] == s[..20];
  }

  predicate SmallRoom(pieces: seq<Piece>) {
    forall i :: 0 <= i < |pieces| && pieces[i].Head? ==> |pieces[i].text| <= pieces[i].room <= 2
  }

  /** A buffer of twice the length, and two places more, is always enough. */
  lemma {:induction false} TwiceIsEnough(pieces: seq<Piece>, p: nat, size: nat)
    requires SmallRoom(pieces) && size >= 2 * (p + |All(pieces)|) + 2
    ensures Fits(pieces, p, size)
    decreases pieces
  {
    if pieces != [] {
      AllLength(pieces);
      assert SmallRoom(pieces[1..]);
      TwiceIsEnough(pieces[1..], p + TextLen(pieces[0]), size);
    }
  }

  lemma {:induction false} RoomOfPieces(fmt: string, pos: nat, flags: Flags, pad: nat, args: seq<Arg>, size: nat)
    requires pos <= |fmt| && Handled(fmt, pos, flags, pad, args, size)
    ensures SmallRoom(Pieces(fmt, pos, flags, pad, args, size))
    decreases |fmt| - pos
  {
    if pos < |fmt| {
      if fmt[pos] != '%' {
        RoomOfPieces(fmt, pos + 1, NO_FLAGS, pad, args, size);
      } else {
        var p := Parse(fmt, pos + 1, flags, pad);
        RoomOfPieces(fmt, p.next, FlagsAfter(p.letter, p.flags), p.pad, Rest(args, p.letter), size);
      }
    }
  }

  /** What a format prints, without a limit, is printed in full if the limit is twice its length and two more. */
  lemma FormatInFull(fmt: string, args: seq<Arg>, size: nat)
    requires Handled(fmt, 0, NO_FLAGS, 0, args, size)
    requires var pieces := Pieces(fmt, 0, NO_FLAGS, 0, args, size); size >= 2 * |All(pieces)| + 2
    ensures var pieces := Pieces(fmt, 0, NO_FLAGS, 0, args, size); Output("", pieces, size) == All(pieces)
  {
    var pieces := Pieces(fmt, 0, NO_FLAGS, 0, args, size);
    RoomOfPieces(fmt, 0, NO_FLAGS, 0, args, size);
    TwiceIsEnough(pieces, 0, size);
    OutputExact(pieces, size);
  }

  lemma {:induction false} OutputStops(out: string, pieces: seq<Piece>, size: nat)
    requires |out| >= size
    ensures Output(out, pieces, size) == out
    decreases pieces
  {
    if pieces != [] {
      OutputStops(out, pieces[1..], size);
    }
  }

  lemma {:induction false} OutputAppend(out: string, ps: seq<Piece>, qs: seq<Piece>, size: nat)
    ensures Output(out, ps + qs, size) == Output(Output(out, ps, size), qs, size)
    decreases ps
  {
    if ps == [] {
      assert ps + qs == qs;
    } else {
      assert (ps + qs)[1..] == ps[1..] + qs;
      OutputAppend(Emit(out, ps[0], size), ps[1..], qs, size);
    }
  }
}

/** The formatter on its two buffers. */
module PrintfImpl {
  import opened Common
  import opened NumberSpec
  import Numbers = NumberImpl
  import opened PrintfSpec

  /** The buffer holds s and is zero behind it. */
  ghost predicate HoldsOnly(b: seq<char>, s: string) {
    |s| <= |b| && b[..|s|] == s && forall k :: |s| <= k < |b| ==> b[k] == NUL
  }

  method Memset(b: array<char>, n: nat, ghost s: string)
    requires HoldsOnly(b[..], s) && n == |s|
    modifies b
    ensures HoldsOnly(b[..], "")
  {
    var i := 0;
    while i < n
      invariant 0 <= i <= n && forall k :: 0 <= k < b.Length && (k < i || k >= n) ==> b[k] == NUL
    {
      b[i] := NUL;
      i := i + 1;
    }
  }

  /** strlen of a buffer that is zero behind its string. */
  method Strlen(b: array<char>, ghost s: string) returns (n: nat)
    requires HoldsOnly(b[..], s) && NUL !in s && |s| < b.Length
    ensures n == |s|
  {
    assert Numbers.Holds(b[..], s);
    n := Numbers.Strlen(b, s);
  }

  /** The loops that copy: n is counted in the test along with i. */
  method PutRun(str: array<char>, n0: nat, text: string, ghost out: string) returns (n: nat)
    requires n0 == |out| <= str.Length && HoldsOnly(str[..], out)
    modifies str
    ensures n == |Emit(out, Run(text), str.Length)| && HoldsOnly(str[..], Emit(out, Run(text), str.Length))
  {
    n := n0;
    var i := 0;
    while i < |text| && i + n < str.Length
      invariant 0 <= i <= |text| && n == n0 + i && i <= Half(str.Length - n0) && n <= str.Length
      invariant HoldsOnly(str[..], out + text[..i])
    {
      str[n] := text[i];
      assert out + text[..i + 1] == (out + text[..i]) + [text[i]];
      n := n + 1;
      i := i + 1;
    }
    assert i == Min(|text|, Half(str.Length - n0));
  }

  method PutHead(str: array<char>, n0: nat, text: string, room: nat, ghost out: string) returns (n: nat)
    requires n0 == |out| <= str.Length && HoldsOnly(str[..], out) && |text| <= room
    modifies str
    ensures n == |Emit(out, Head(text, room), str.Length)| && HoldsOnly(str[..], Emit(out, Head(text, room), str.Length))
  {
    n := n0;
    if n0 + room < str.Length {
      var i := 0;
      while i < |text|
        invariant 0 <= i <= |text| && n == n0 + i
        invariant HoldsOnly(str[..], out + text[..i])
      {
        str[n] := text[i];
        assert out + text[..i + 1] == (out + text[..i]) + [text[i]];
        n := n + 1;
        i := i + 1;
      }
      assert text[..i] == text;
    }
  }

  /** ltoa and ctoa: digits until nothing is left; k bounds their number. */
  method Ltoa(num: nat, b: array<char>, base: nat, ghost k: nat)
    requires 2 <= base <= 16 && 0 < num < Pow(base, k) && b.Length > |LowDigits(num, base, k)| && HoldsOnly(b[..], "")
    modifies b
    ensures HoldsOnly(b[..], Reverse(LowDigits(num, base, k))) && Numbers.Holds(b[..], Reverse(LowDigits(num, base, k)))
  {
    var i: nat, rest: nat := 0, num;
    ghost var left: nat := k;
    assert b[..0] == "" && Numbers.Printed("", num, k, num, base, k);
    while rest != 0
      invariant 0 <= left <= k && i == k - left && i <= b.Length
      invariant Numbers.Printed(b[..i], rest, left, num, base, k)
      invariant forall j :: i <= j < b.Length ==> b[j] == NUL
      decreases left
    {
      NotDone(b[..i], rest, left, num, base, k);
      rest := Numbers.WriteDigit(b, i, rest, base, left, num, k);
      i := i + 1;
      left := left - 1;
    }
    Numbers.PrintedAll(b[..i], rest, left, num, base, k);
    FinishDigits(b, i, num, base, k);
  }

  method FinishDigits(b: array<char>, i: nat, ghost num: nat, ghost base: nat, ghost k: nat)
    requires 2 <= base <= 16 && num > 0 && k > 0 && i < b.Length && b[..i] == LowDigits(num, base, k)
    requires forall j :: i <= j < b.Length ==> b[j] == NUL
    modifies b
    ensures HoldsOnly(b[..], Reverse(LowDigits(num, base, k))) && Numbers.Holds(b[..], Reverse(LowDigits(num, base, k)))
  {
    Numbers.NoNulInDigits(num, base, k);
    LowDigitsNonEmpty(num, base, k);
    Numbers.Finish(b, i, LowDigits(num, base, k));
  }

  /** While something is left, not all places are used up. */
  lemma NotDone(done: string, rest: nat, left: nat, num: nat, base: nat, k: nat)
    requires 2 <= base <= 16 && rest > 0 && num < Pow(base, k) && Numbers.Printed(done, rest, left, num, base, k)
    ensures left > 0
  {
    assert Numbers.PrintedBody(done, rest, left, num, base, k, 0);
  }

  /** The kernel's sitoa. */
  method SitoaUnsigned(v: int, b: array<char>)
    requires b.Length > |Magnitude(v)| && HoldsOnly(b[..], "")
    modifies b
    ensures HoldsOnly(b[..], Magnitude(v)) && Numbers.Holds(b[..], Magnitude(v))
  {
    if v == 0 {
      b[0] := '0';
      b[1] := NUL;
      assert b[..1] == "0";
      return;
    }
    PrintDigits(if v < 0 then -v else v, b, 10, 8);
  }

  method PrintDigits(n: nat, b: array<char>, base: nat, len: nat)
    requires 2 <= base <= 16 && n > 0 && len > 0 && b.Length > |LowDigits(n, base, len)| && HoldsOnly(b[..], "")
    modifies b
    ensures HoldsOnly(b[..], Reverse(LowDigits(n, base, len))) && Numbers.Holds(b[..], Reverse(LowDigits(n, base, len)))
  {
    var i, _, _ := Numbers.WriteDigits(b, n, base, len);
    FinishDigits(b, i, n, base, len);
  }

  /** strcpy into the cleared buffer. */
  method Strcpy(b: array<char>, s: string)
    requires |s| < b.Length && NUL !in s && HoldsOnly(b[..], "")
    modifies b
    ensures HoldsOnly(b[..], s)
  {
    var i := 0;
    while i < |s|
      invariant 0 <= i <= |s| && b[..i] == s[..i] && forall k :: i <= k < b.Length ==> b[k] == NUL
    {
      b[i] := s[i];
      i := i + 1;
    }
    assert s[..i] == s;
  }

  method PrintUnsigned(v: nat, b: array<char>, base: nat)
    requires base in {2, 8, 10, 16} && b.Length > |Itoa(v, base)| && HoldsOnly(b[..], "")
    requires if base == 10 then v != 0 else v < Pow(base, if base == 2 then 32 else 8)
    modifies b
    ensures HoldsOnly(b[..], Itoa(v, base)) && Numbers.Holds(b[..], Itoa(v, base))
  {
    Numbers.ItoaCall(v, b, base);
  }

  /** What the code asks of a directive's argument. */
  ghost predicate Printable(c: char, a: Arg, size: nat) {
    IsConversion(c) && if TakesArg(c) then ArgFits(c, a, size) else size >= 2
  }

  ghost predicate NumberFitsBody(c: char, v: int, size: nat, key: nat) {
    Printable(c, Number(v), size) && c in "xXdiulob"
  }

  /** A numeric conversion whose text fits; opened by an instance. */
  ghost predicate NumberFits(c: char, v: int, size: nat) {
    forall key: nat :: NumberFitsBody(c, v, size, key)
  }

  ghost predicate ConvertedBody(b: seq<char>, c: char, v: int, key: nat) {
    c in "xXdiulob" && (c == 'l' ==> v >= 0) &&
    var text := TextOf(c, Number(v)); HoldsOnly(b, text) && Numbers.Holds(b, text)
  }

  /** The buffer holds the text of a numeric conversion; opened by an instance. */
  ghost predicate Converted(b: seq<char>, c: char, v: int) {
    forall key: nat :: ConvertedBody(b, c, v, key)
  }

  /** The numeric conversions. */
  method ConvertNumber(c: char, v: int, buf: array<char>)
    requires NumberFits(c, v, buf.Length) && HoldsOnly(buf[..], "")
    modifies buf
    ensures Converted(buf[..], c, v)
  {
    if c == 'd' || c == 'i' {
      ConvertSigned(c, v, buf);
    } else if c == 'X' {
      ConvertByte(v, buf);
    } else if c == 'l' {
      ConvertLong(v, buf);
    } else {
      ConvertUnsigned(c, v, buf);
    }
  }

  method ConvertSigned(c: char, v: int, buf: array<char>)
    requires (c == 'd' || c == 'i') && NumberFits(c, v, buf.Length) && HoldsOnly(buf[..], "")
    modifies buf
    ensures Converted(buf[..], c, v)
  {
    assert NumberFitsBody(c, v, buf.Length, 0);
    SitoaUnsigned(v, buf);
  }

  method ConvertUnsigned(c: char, v: int, buf: array<char>)
    requires c != 'd' && c != 'i' && c != 'X' && c != 'l' && NumberFits(c, v, buf.Length) && HoldsOnly(buf[..], "")
    modifies buf
    ensures Converted(buf[..], c, v)
  {
    assert NumberFitsBody(c, v, buf.Length, 0);
    PrintUnsigned(Unsigned(v), buf, BaseOf(c));
  }

  method ConvertByte(v: int, buf: array<char>)
    requires NumberFits('X', v, buf.Length) && HoldsOnly(buf[..], "")
    modifies buf
    ensures Converted(buf[..], 'X', v)
  {
    assert NumberFitsBody('X', v, buf.Length, 0);
    Ltoa(v % 256, buf, 16, 2);
  }

  method ConvertLong(v: int, buf: array<char>)
    requires NumberFits('l', v, buf.Length) && HoldsOnly(buf[..], "")
    modifies buf
    ensures Converted(buf[..], 'l', v)
  {
    assert NumberFitsBody('l', v, buf.Length, 0);
    SixteenDigits();
    Ltoa(v, buf, 16, 16);
  }

  lemma SixteenDigits()
    ensures Pow(16, 16) == 0x1_0000_0000_0000_0000
  {
    assert Pow(16, 8) == 0x1_0000_0000;
  }

  /** The inner switch: the conversion's text in the scratch buffer. */
  method Convert(c: char, a: Arg, buf: array<char>)
    requires Printable(c, a, buf.Length) && HoldsOnly(buf[..], "")
    modifies buf
    ensures |TextOf(c, a)| < buf.Length && NUL !in TextOf(c, a) && HoldsOnly(buf[..], TextOf(c, a))
  {
    if c == '%' {
      buf[0] := '%';
      buf[1] := NUL;
      assert buf[..1] == "%";
    } else if c == 's' {
      Strcpy(buf, a.s);
    } else if c == 'c' {
      buf[0] := a.value as char;
      buf[1] := NUL;
      assert buf[..1] == [a.value as char];
    } else if c == 'w' {
      buf[0] := ' ';
      assert buf[..1] == " ";
    } else {
      ConvertNumber(c, a.value, buf);
      assert ConvertedBody(buf[..], c, a.value, 0);
    }
  }

  /** The prefix or sign a directive puts in front. */
  method PutHeads(str: array<char>, n0: nat, c: char, flags: Flags, a: Arg, ghost out: string) returns (n: nat)
    requires n0 == |out| <= str.Length && HoldsOnly(str[..], out) && (c == 'd' || c == 'i' ==> a.Number?)
    modifies str
    ensures var r := Output(out, HeadOf(c, flags, a), str.Length); n == |r| && HoldsOnly(str[..], r)
  {
    n := n0;
    if c == 'x' || c == 'X' {
      if flags.prefix {
        n := PutHead(str, n, "0x", 2, out);
      }
    } else if c == 'o' {
      if flags.prefix {
        n := PutHead(str, n, "0", 2, out);
      }
    } else if c == 'd' {
      if flags.sign {
        n := PutHead(str, n, if a.value > 0 then "+" else "-", 1, out);
      }
    } else if c == 'i' {
      if a.value < 0 {
        n := PutHead(str, n, "-", 1, out);
      }
    }
  }

  lemma DirectiveOutput(out: string, head: seq<Piece>, p: string, t: string, size: nat)
    ensures Output(out, head + [Run(p), Run(t)], size) == Emit(Emit(Output(out, head, size), Run(p), size), Run(t), size)
  {
    OutputAppend(out, head, [Run(p), Run(t)], size);
    var mid := Output(out, head, size);
    assert [Run(p), Run(t)][1..] == [Run(t)];
    assert Output(Emit(mid, Run(p), size), [Run(t)], size) == Emit(Emit(mid, Run(p), size), Run(t), size);
  }

  /** One directive, from its letter on; the scratch buffer is clear before and after. */
  method PutDirective(str: array<char>, n0: nat, buf: array<char>, c: char, flags: Flags, pad: nat, a: Arg, ghost out: string)
    returns (n: nat)
    requires Printable(c, a, buf.Length) && str != buf && HoldsOnly(buf[..], "")
    requires n0 == |out| <= str.Length && HoldsOnly(str[..], out)
    modifies str, buf
    ensures HoldsOnly(buf[..], "")
    ensures var r := Output(out, Directive(c, flags, pad, HeadOf(c, flags, a), TextOf(c, a)), str.Length);
            n == |r| <= str.Length && HoldsOnly(str[..], r)
  {
    ghost var text := TextOf(c, a);
    ghost var size := str.Length;
    Convert(c, a, buf);
    n := PutHeads(str, n0, c, flags, a, out);
    var len := Strlen(buf, text);
    ghost var mid := Output(out, HeadOf(c, flags, a), size);
    OutputBounded(out, HeadOf(c, flags, a), size);
    ghost var p := Padding(FlagsAfter(c, flags), pad, text);
    var after := FlagsAfter(c, flags);
    if after.width && pad > len {
      n := PutRun(str, n, Repeat(if after.text then ' ' else '0', pad - len), mid);
    } else {
      assert mid + ""[..0] == mid;
    }
    n := PutRun(str, n, buf[..len], Emit(mid, Run(p), size));
    DirectiveOutput(out, HeadOf(c, flags, a), p, text, size);
    Memset(buf, len, text);
  }

  /** The digits of a width. */
  method ReadWidth(fmt: string, pos: nat) returns (e: nat, pad: nat)
    requires pos <= |fmt|
    ensures e == DigitsEnd(fmt, pos) && pad == Width32(fmt, pos, 0)
  {
    e, pad := pos, 0;
    while e < |fmt| && IsDigit(fmt[e])
      invariant pos <= e <= |fmt| && DigitsEnd(fmt, e) == DigitsEnd(fmt, pos) && Width32(fmt, e, pad) == Width32(fmt, pos, 0)
    {
      pad := (pad * 10 + (fmt[e] as int - '0' as int)) % WORD;
      e := e + 1;
    }
  }

  /** next_format and its jumps, up to the letter of the directive. */
  method ReadDirective(fmt: string, start: nat, was: Flags, width: nat) returns (c: char, pos: nat, flags: Flags, pad: nat)
    requires start <= |fmt| && Parse(fmt, start, was, width).Parsed?
    ensures Parsed(c, pos, flags, pad) == Parse(fmt, start, was, width)
  {
    pos, flags, pad := start, was, width;
    while !IsConversion(fmt[pos])
      invariant start <= pos < |fmt| && Parse(fmt, pos, flags, pad) == Parse(fmt, start, was, width)
      decreases |fmt| - pos
    {
      if fmt[pos] == '#' {
        flags := flags.(prefix := true);
        pos := pos + 1;
      } else if fmt[pos] == '+' {
        flags := flags.(sign := true);
        pos := pos + 1;
      } else {
        pos, pad := ReadWidth(fmt, pos);
        flags := flags.(width := true);
      }
    }
    c := fmt[pos];
    pos := pos + 1;
  }

  method Clear(b: array<char>)
    modifies b
    ensures HoldsOnly(b[..], "")
  {
    var i := 0;
    while i < b.Length
      invariant 0 <= i <= b.Length && forall k :: 0 <= k < i ==> b[k] == NUL
    {
      b[i] := NUL;
      i := i + 1;
    }
  }

  ghost predicate GoingBody(out: string, fmt: string, pos: nat, flags: Flags, pad: nat, args: seq<Arg>, size: nat, all: string, key: nat) {
    && pos <= |fmt| && Handled(fmt, pos, flags, pad, args, size)
    && Output(out, Pieces(fmt, pos, flags, pad, args, size), size) == all
  }

  /** What has been printed, and what the rest of the format asks for, is all of it; opened by an instance. */
  ghost predicate Going(out: string, fmt: string, pos: nat, flags: Flags, pad: nat, args: seq<Arg>, size: nat, all: string) {
    forall key: nat :: GoingBody(out, fmt, pos, flags, pad, args, size, all, key)
  }

  lemma DirectiveStep(out: string, fmt: string, pos: nat, flags: Flags, pad: nat, args: seq<Arg>, size: nat, all: string)
    requires pos < |fmt| && fmt[pos] == '%' && Going(out, fmt, pos, flags, pad, args, size, all)
    ensures var p := Parse(fmt, pos + 1, flags, pad);
            && p.Parsed? && DirectiveFits(args, p.letter, size) && Printable(p.letter, ArgOf(args, p.letter), size)
            && var a := ArgOf(args, p.letter);
               Going(Output(out, Directive(p.letter, p.flags, p.pad, HeadOf(p.letter, p.flags, a), TextOf(p.letter, a)), size),
                     fmt, p.next, FlagsAfter(p.letter, p.flags), p.pad, Rest(args, p.letter), size, all)
  {
    assert GoingBody(out, fmt, pos, flags, pad, args, size, all, 0);
    var p := Parse(fmt, pos + 1, flags, pad);
    var a := ArgOf(args, p.letter);
    var pieces := Directive(p.letter, p.flags, p.pad, HeadOf(p.letter, p.flags, a), TextOf(p.letter, a));
    OutputAppend(out, pieces, Pieces(fmt, p.next, FlagsAfter(p.letter, p.flags), p.pad, Rest(args, p.letter), size), size);
  }

  lemma CharStep(out: string, fmt: string, pos: nat, flags: Flags, pad: nat, args: seq<Arg>, size: nat, all: string)
    requires pos < |fmt| && fmt[pos] != '%' && |out| < size && Going(out, fmt, pos, flags, pad, args, size, all)
    ensures fmt[pos] != NUL && Going(out + [fmt[pos]], fmt, pos + 1, NO_FLAGS, pad, args, size, all)
  {
    assert GoingBody(out, fmt, pos, flags, pad, args, size, all, 0);
    CharOutput(out, fmt[pos], Pieces(fmt, pos + 1, NO_FLAGS, pad, args, size), size);
  }

  lemma GoneTo(out: string, fmt: string, pos: nat, flags: Flags, pad: nat, args: seq<Arg>, size: nat, all: string)
    requires pos == |fmt| || |out| >= size
    requires Going(out, fmt, pos, flags, pad, args, size, all)
    ensures out == all
  {
    assert GoingBody(out, fmt, pos, flags, pad, args, size, all, 0);
    if |out| >= size {
      OutputStops(out, Pieces(fmt, pos, flags, pad, args, size), size);
    }
  }

  method PutChar(str: array<char>, n: nat, c: char, ghost out: string)
    requires n == |out| < str.Length && c != NUL && HoldsOnly(str[..], out)
    modifies str
    ensures HoldsOnly(str[..], out + [c])
  {
    str[n] := c;
  }

  /** One directive of the format, from its percent sign on. */
  method FormatDirective(str: array<char>, n0: nat, buf: array<char>, fmt: string, pos0: nat, flags0: Flags, pad0: nat,
                         args: seq<Arg>, ghost out: string, ghost all: string)
    returns (n: nat, pos: nat, flags: Flags, pad: nat, rest: seq<Arg>, ghost out': string)
    requires pos0 < |fmt| && fmt[pos0] == '%' && str != buf && buf.Length == str.Length
    requires n0 == |out| <= str.Length && HoldsOnly(str[..], out) && HoldsOnly(buf[..], "")
    requires Going(out, fmt, pos0, flags0, pad0, args, str.Length, all)
    modifies str, buf
    ensures pos0 < pos <= |fmt| && Going(out', fmt, pos, flags, pad, rest, str.Length, all)
    ensures n == |out'| <= str.Length && HoldsOnly(str[..], out') && HoldsOnly(buf[..], "")
  {
    DirectiveStep(out, fmt, pos0, flags0, pad0, args, str.Length, all);
    var c;
    c, pos, flags, pad := ReadDirective(fmt, pos0 + 1, flags0, pad0);
    var a := ArgOf(args, c);
    n := PutDirective(str, n0, buf, c, flags, pad, a, out);
    out' := Output(out, Directive(c, flags, pad, HeadOf(c, flags, a), TextOf(c, a)), str.Length);
    flags, rest := FlagsAfter(c, flags), Rest(args, c);
  }

  /**
   vsnprintf.  The output buffer holds exactly what the format prints in that size, zero behind
   it, and the count returned is its length.
   */
  method Vsnprintf(str: array<char>, fmt: string, args: seq<Arg>) returns (n: nat)
    requires Handled(fmt, 0, NO_FLAGS, 0, args, str.Length)
    modifies str
    ensures var r := Output("", Pieces(fmt, 0, NO_FLAGS, 0, args, str.Length), str.Length);
            n == |r| <= str.Length && HoldsOnly(str[..], r)
    ensures NUL in str[..] <==> n < str.Length
  {
    var buf := new char[str.Length];
    Clear(str);
    Clear(buf);
    ghost var all := Output("", Pieces(fmt, 0, NO_FLAGS, 0, args, str.Length), str.Length);
    n := FormatAll(str, buf, fmt, args, all);
    OutputIsClean(fmt, args, str.Length);
    TerminatedExact(str[..], all);
  }

  /** The loop over the format. */
  method FormatAll(str: array<char>, buf: array<char>, fmt: string, args: seq<Arg>, ghost all: string) returns (n: nat)
    requires str != buf && buf.Length == str.Length && HoldsOnly(str[..], "") && HoldsOnly(buf[..], "")
    requires Going("", fmt, 0, NO_FLAGS, 0, args, str.Length, all)
    modifies str, buf
    ensures n == |all| <= str.Length && HoldsOnly(str[..], all)
  {
    ghost var out := "";
    var pad, flags, pos, rest := 0, NO_FLAGS, 0, args;
    n := 0;
    while pos < |fmt| && n < str.Length
      invariant 0 <= pos <= |fmt| && Going(out, fmt, pos, flags, pad, rest, str.Length, all)
      invariant n == |out| <= str.Length && HoldsOnly(str[..], out) && HoldsOnly(buf[..], "")
      decreases |fmt| - pos
    {
      if fmt[pos] == '%' {
        n, pos, flags, pad, rest, out := FormatDirective(str, n, buf, fmt, pos, flags, pad, rest, out, all);
      } else {
        CharStep(out, fmt, pos, flags, pad, rest, str.Length, all);
        PutChar(str, n, fmt[pos], out);
        out := out + [fmt[pos]];
        n := n + 1;
        flags := NO_FLAGS;
        pos := pos + 1;
      }
    }
    GoneTo(out, fmt, pos, flags, pad, rest, str.Length, all);
  }

  // ----- when the buffer holds a C string

  /** A buffer that holds such a text and zeros has a terminator exactly when the text is shorter. */
  lemma TerminatedExact(b: seq<char>, s: string)
    requires HoldsOnly(b, s) && NUL !in s
    ensures NUL in b <==> |s| < |b|
  {
    if |s| < |b| {
      assert b[|s|] == NUL;
    } else {
      assert b == b[..|s|];
    }
  }

  predicate Clean(pieces: seq<Piece>) {
    forall i :: 0 <= i < |pieces| ==> NUL !in TextAt(pieces[i])
  }

  lemma {:induction false} CleanOutput(out: string, pieces: seq<Piece>, size: nat)
    requires NUL !in out && Clean(pieces)
    ensures NUL !in Output(out, pieces, size)
    decreases pieces
  {
    if pieces != [] {
      assert NUL !in TextAt(pieces[0]);
      CleanOutput(Emit(out, pieces[0], size), pieces[1..], size);
    }
  }

  lemma ItoaIsClean(v: nat, base: nat)
    requires 2 <= base <= 16
    ensures NUL !in Itoa(v, base)
  {
    Numbers.NoNulInDigits(v, base, Width(base));
    Numbers.ReverseKeepsNul(ItoaDigits(v, base));
  }

  lemma DigitsAreClean(v: nat, base: nat, k: nat)
    requires 2 <= base <= 16
    ensures NUL !in Reverse(LowDigits(v, base, k))
  {
    Numbers.NoNulInDigits(v, base, k);
    Numbers.ReverseKeepsNul(LowDigits(v, base, k));
  }

  lemma MagnitudeIsClean(v: int)
    ensures NUL !in Magnitude(v)
  {
    if v != 0 {
      DigitsAreClean(if v < 0 then -v else v, 10, 8);
    }
  }

  lemma SignedIsClean(c: char, v: int)
    requires c == 'd' || c == 'i'
    ensures NUL !in TextOf(c, Number(v))
  {
    MagnitudeIsClean(v);
  }

  lemma LongIsClean(c: char, v: int)
    requires c == 'X' || (c == 'l' && v >= 0)
    ensures NUL !in TextOf(c, Number(v))
  {
    if c == 'X' {
      DigitsAreClean(v % 256, 16, 2);
    } else {
      DigitsAreClean(v, 16, 16);
    }
  }

  lemma UnsignedIsClean(c: char, v: int)
    requires c in "xuob"
    ensures NUL !in TextOf(c, Number(v))
  {
    ItoaIsClean(Unsigned(v), BaseOf(c));
  }

  lemma TextIsClean(c: char, a: Arg, size: nat)
    requires Printable(c, a, size)
    ensures NUL !in TextOf(c, a)
  {
    if c == 'd' || c == 'i' {
      SignedIsClean(c, a.value);
    } else if c == 'X' || c == 'l' {
      LongIsClean(c, a.value);
    } else if c in "xuob" {
      UnsignedIsClean(c, a.value);
    } else {
      OtherIsClean(c, a, size);
    }
  }

  lemma OtherIsClean(c: char, a: Arg, size: nat)
    requires Printable(c, a, size) && c !in "xXdiulob"
    ensures NUL !in TextOf(c, a)
  {
  }

  lemma DirectiveIsClean(c: char, flags: Flags, pad: nat, a: Arg, size: nat)
    requires Printable(c, a, size)
    ensures Clean(Directive(c, flags, pad, HeadOf(c, flags, a), TextOf(c, a)))
  {
    TextIsClean(c, a, size);
    HeadIsClean(c, flags, a);
    PartsAreClean(c, flags, pad, HeadOf(c, flags, a), TextOf(c, a));
  }

  lemma HeadIsClean(c: char, flags: Flags, a: Arg)
    requires c == 'd' || c == 'i' ==> a.Number?
    ensures Clean(HeadOf(c, flags, a))
  {
  }

  lemma PartsAreClean(c: char, flags: Flags, pad: nat, head: seq<Piece>, text: string)
    requires Clean(head) && NUL !in text
    ensures Clean(Directive(c, flags, pad, head, text))
  {
    assert NUL !in Padding(FlagsAfter(c, flags), pad, text);
  }

  lemma {:induction false} PiecesAreClean(fmt: string, pos: nat, flags: Flags, pad: nat, args: seq<Arg>, size: nat)
    requires pos <= |fmt| && Handled(fmt, pos, flags, pad, args, size)
    ensures Clean(Pieces(fmt, pos, flags, pad, args, size))
    decreases |fmt| - pos
  {
    if pos < |fmt| {
      if fmt[pos] != '%' {
        PiecesAreClean(fmt, pos + 1, NO_FLAGS, pad, args, size);
      } else {
        var p := Parse(fmt, pos + 1, flags, pad);
        DirectiveIsClean(p.letter, p.flags, p.pad, ArgOf(args, p.letter), size);
        PiecesAreClean(fmt, p.next, FlagsAfter(p.letter, p.flags), p.pad, Rest(args, p.letter), size);
      }
    }
  }

  lemma OutputIsClean(fmt: string, args: seq<Arg>, size: nat)
    requires Handled(fmt, 0, NO_FLAGS, 0, args, size)
    ensures NUL !in Output("", Pieces(fmt, 0, NO_FLAGS, 0, args, size), size)
  {
    PiecesAreClean(fmt, 0, NO_FLAGS, 0, args, size);
    CleanOutput("", Pieces(fmt, 0, NO_FLAGS, 0, args, size), size);
  }

  /** Plain text prints as much of itself as fits. */
  lemma {:induction false} PlainOutput(out: string, fmt: string, pos: nat, args: seq<Arg>, size: nat)
    requires pos <= |fmt| && |out| <= size && '%' !in fmt && NUL !in fmt
    ensures Handled(fmt, pos, NO_FLAGS, 0, args, size)
    ensures |Output(out, Pieces(fmt, pos, NO_FLAGS, 0, args, size), size)| == Min(size, |out| + |fmt| - pos)
    decreases |fmt| - pos
  {
    if pos < |fmt| {
      PlainOutput(if |out| < size then out + [fmt[pos]] else out, fmt, pos + 1, args, size);
    }
  }

  /** A failing family: plain text that fills the buffer leaves no room for a terminator. */
  lemma FullBufferIsNoString(fmt: string, size: nat, b: seq<char>)
    requires '%' !in fmt && NUL !in fmt && |fmt| >= size == |b|
    ensures Handled(fmt, 0, NO_FLAGS, 0, [], size)
    ensures HoldsOnly(b, Output("", Pieces(fmt, 0, NO_FLAGS, 0, [], size), size)) ==> NUL !in b
  {
    PlainOutput("", fmt, 0, [], size);
    OutputIsClean(fmt, [], size);
    var r := Output("", Pieces(fmt, 0, NO_FLAGS, 0, [], size), size);
    if HoldsOnly(b, r) {
      TerminatedExact(b, r);
    }
  }

  lemma CharOutput(out: string, c: char, qs: seq<Piece>, size: nat)
    requires |out| < size
    ensures Output(out, [Char(c)] + qs, size) == Output(out + [c], qs, size)
  {
    assert ([Char(c)] + qs)[1..] == qs;
  }
}
