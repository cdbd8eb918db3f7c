/**
 The tokeniser.  A C string is a buffer with a terminator; strtok keeps a pointer into
 it between calls and cuts tokens off in place by writing terminators.
 */
module StrtokSpec {

  /** A token's place in the string, and where the next call goes on; -1 is a null pointer. */
  datatype Token = Token(start: nat, end: nat, next: int)

  /** strspn: first position from pos on that holds no delimiter, or the end. */
  function Span(s: string, pos: nat, d: string): (r: nat)
    requires pos <= |s|
    ensures pos <= r <= |s|
    decreases |s| - pos
  {
    if pos == |s| || s[pos] !in d then pos else Span(s, pos + 1, d)
  }

  /** First position from pos on that holds a delimiter, or the end. */
  function Break(s: string, pos: nat, d: string): (r: nat)
    requires pos <= |s|
    ensures pos <= r <= |s|
    ensures r < |s| ==> s[r] in d
    decreases |s| - pos
  {
    if pos == |s| || s[pos] in d then pos else Break(s, pos + 1, d)
  }

  /** One call of strtok with the pointer at pos.  strpbrk does not look at its first character. */
  function NextToken(s: string, pos: nat, d: string): (t: Token)
    requires pos <= |s|
    ensures pos <= t.start <= t.end <= |s|
    ensures t.next == -1 || (t.end < t.next <= |s| && t.next > pos)
  {
    var start := Span(s, pos, d);
    if start == |s| then Token(start, start, -1) else
    var end := Break(s, start + 1, d);
    Token(start, end, if end < |s| then end + 1 else -1)
  }

  /** All tokens, from the pointer at pos until strtok returns null. */
  function Tokens(s: string, pos: nat, d: string): (r: seq<string>)
    requires pos <= |s|
    decreases |s| - pos
  {
    var t := NextToken(s, pos, d);
    [s[t.start..t.end]] + if t.next == -1 then [] else Tokens(s, t.next, d)
  }

  // ----- the reference: cut at every delimiter, keep what is not empty

  function Fields(s: string, pos: nat, d: string): (r: seq<string>)
    requires pos <= |s|
    decreases |s| - pos
  {
    var i := Break(s, pos, d);
    [s[pos..i]] + if i == |s| then [] else Fields(s, i + 1, d)
  }

  function NonEmpty(fs: seq<string>): (r: seq<string>) {
    if fs == [] then [] else (if fs[0] == "" then [] else [fs[0]]) + NonEmpty(fs[1..])
  }

  /** The maximal delimiter-free runs of s from pos on, in order. */
  function Words(s: string, pos: nat, d: string): (r: seq<string>)
    requires pos <= |s|
  {
    NonEmpty(Fields(s, pos, d))
  }

  /** The extra token: an empty one when the rest is empty or ends in a delimiter. */
  function Tail(s: string, pos: nat, d: string): (r: seq<string>)
    requires pos <= |s|
  {
    if pos == |s| || s[|s| - 1] in d then [""] else []
  }

  lemma NonEmptyCons(f: string, fs: seq<string>)
    ensures NonEmpty([f] + fs) == (if f == "" then [] else [f]) + NonEmpty(fs)
  {
    assert ([f] + fs)[1..] == fs;
  }

  lemma {:induction false} WordsSkip(s: string, pos: nat, d: string)
    requires pos <= |s|
    ensures Words(s, pos, d) == Words(s, Span(s, pos, d), d)
    decreases |s| - pos
  {
    if pos < |s| && s[pos] in d {
      assert s[pos..pos] == "";
      NonEmptyCons("", Fields(s, pos + 1, d));
      assert Words(s, pos, d) == Words(s, pos + 1, d);
      WordsSkip(s, pos + 1, d);
    }
  }

  /** From a non-delimiter, the next word runs up to the next delimiter. */
  lemma WordsTake(s: string, start: nat, d: string)
    requires start < |s| && s[start] !in d && Break(s, start + 1, d) < |s|
    ensures var i := Break(s, start + 1, d);
            Words(s, start, d) == [s[start..i]] + Words(s, i + 1, d)
  {
    var i := Break(s, start + 1, d);
    assert Break(s, start, d) == i;
    NonEmptyCons(s[start..i], Fields(s, i + 1, d));
  }

  lemma WordsTakeLast(s: string, start: nat, d: string)
    requires start < |s| && s[start] !in d && Break(s, start + 1, d) == |s|
    ensures Words(s, start, d) == [s[start..]]
  {
    assert Break(s, start, d) == |s|;
    assert s[start..|s|] == s[start..];
    assert Fields(s, start, d) == [s[start..]] + [];
    NonEmptyCons(s[start..], []);
  }

  lemma NothingLeft(s: string, d: string)
    ensures Words(s, |s|, d) == []
  {
    assert s[|s|..|s|] == "";
    assert Fields(s, |s|, d) == [""] + [];
    NonEmptyCons("", []);
  }

  lemma {:induction false} SpanToEnd(s: string, pos: nat, d: string)
    requires pos < |s| && Span(s, pos, d) == |s|
    ensures s[|s| - 1] in d
    decreases |s| - pos
  {
    if pos + 1 < |s| {
      SpanToEnd(s, pos + 1, d);
    }
  }

  lemma {:induction false} BreakAtEnd(s: string, pos: nat, d: string)
    requires pos < |s| && Break(s, pos, d) == |s|
    ensures s[|s| - 1] !in d
    decreases |s| - pos
  {
    if pos + 1 < |s| {
      BreakAtEnd(s, pos + 1, d);
    }
  }

  lemma SpanStops(s: string, pos: nat, d: string)
    requires pos <= |s|
    ensures Span(s, pos, d) < |s| ==> s[Span(s, pos, d)] !in d
    decreases |s| - pos
  {
    if pos < |s| && s[pos] in d {
      SpanStops(s, pos + 1, d);
    }
  }

  lemma TokensEnd(s: string, pos: nat, d: string)
    requires pos <= |s| && Span(s, pos, d) == |s|
    ensures Tokens(s, pos, d) == [""] && Words(s, pos, d) == [] && Tail(s, pos, d) == [""]
  {
    WordsSkip(s, pos, d);
    NothingLeft(s, d);
    assert s[|s|..|s|] == "";
    if pos < |s| {
      SpanToEnd(s, pos, d);
    }
  }

  lemma TokensLast(s: string, pos: nat, d: string)
    requires pos <= |s| && Span(s, pos, d) < |s| && NextToken(s, pos, d).next == -1
    ensures Tokens(s, pos, d) == [s[Span(s, pos, d)..]] == Words(s, pos, d) && Tail(s, pos, d) == []
  {
    var start := Span(s, pos, d);
    WordsSkip(s, pos, d);
    SpanStops(s, pos, d);
    WordsTakeLast(s, start, d);
    assert s[start..|s|] == s[start..];
    if start + 1 < |s| {
      BreakAtEnd(s, start + 1, d);
    }
  }

  lemma TokensMore(s: string, pos: nat, d: string)
    requires pos <= |s| && NextToken(s, pos, d).next != -1
    ensures var t := NextToken(s, pos, d);
            && Tokens(s, pos, d) == [s[t.start..t.end]] + Tokens(s, t.next, d)
            && Words(s, pos, d) == [s[t.start..t.end]] + Words(s, t.next, d)
            && Tail(s, pos, d) == Tail(s, t.next, d)
  {
    WordsMore(s, pos, d);
    TailMoves(s, pos, NextToken(s, pos, d).end, d);
  }

  lemma WordsMore(s: string, pos: nat, d: string)
    requires pos <= |s| && NextToken(s, pos, d).next != -1
    ensures var t := NextToken(s, pos, d); Words(s, pos, d) == [s[t.start..t.end]] + Words(s, t.next, d)
  {
    WordsSkip(s, pos, d);
    SpanStops(s, pos, d);
    WordsTake(s, NextToken(s, pos, d).start, d);
  }

  /** Behind a delimiter the last word is empty just when it is the last character. */
  lemma TailMoves(s: string, pos: nat, end: nat, d: string)
    requires pos <= end < |s| && s[end] in d
    ensures Tail(s, pos, d) == Tail(s, end + 1, d)
  {
    if end + 1 == |s| {
      assert s[|s| - 1] == s[end];
    }
  }

  lemma Reassociate(w: string, ws: seq<string>, tail: seq<string>)
    ensures [w] + (ws + tail) == ([w] + ws) + tail
  {
  }

  /**
   Main result: repeated strtok calls yield exactly the maximal delimiter-free runs, in
   order, and then one empty token exactly when the string is empty or ends in a delimiter.
   */
  lemma {:induction false} TokensAreTheWords(s: string, pos: nat, d: string)
    requires pos <= |s|
    ensures Tokens(s, pos, d) == Words(s, pos, d) + Tail(s, pos, d)
    decreases |s| - pos
  {
    var t := NextToken(s, pos, d);
    if t.start == |s| {
      TokensEnd(s, pos, d);
    } else if t.next == -1 {
      TokensLast(s, pos, d);
    } else {
      TokensMore(s, pos, d);
      TokensAreTheWords(s, t.next, d);
      Reassociate(s[t.start..t.end], Words(s, t.next, d), Tail(s, t.next, d));
    }
  }
}

/** strspn, strpbrk and strtok on the buffer itself. */
module StrtokImpl {
  import opened StrtokSpec

  const NUL: char := '\0'

  /** The buffer from p on reads as the C string s. */
  ghost predicate ReadsAs(b: seq<char>, p: nat, s: string) {
    && p + |s| < |b| && b[p + |s|] == NUL
    && forall i :: 0 <= i < |s| ==> b[p + i] == s[i] && s[i] != NUL
  }

  class Tokenizer {
    const buf: array<char>
    /** strtok's static pointer; -1 is null. */
    var ptr: int
    /** The string given to the first call. */
    ghost var text: string

    constructor (b: array<char>)
      ensures buf == b && ptr == -1
    {
      buf, ptr, text := b, -1, "";
    }

    /** From position p on, the buffer still holds the text. */
    ghost predicate Holds(p: int)
      reads this, buf
    {
      && buf.Length == |text| + 1 && buf[|text|] == NUL && (forall i :: 0 <= i < |text| ==> text[i] != NUL)
      && 0 <= p <= |text| && (forall i :: p <= i < |text| ==> buf[i] == text[i])
    }

    method Strlen(p: nat) returns (n: nat)
      requires Holds(p)
      ensures p + n == |text|
    {
      n := 0;
      while buf[p + n] != NUL
        invariant p + n <= |text|
        decreases |text| - (p + n)
      {
        n := n + 1;
      }
    }

    method Strspn(p: nat, d: string) returns (r: nat)
      requires Holds(p)
      ensures p + r == Span(text, p, d)
    {
      var n := Strlen(p);
      var i := 0;
      while i < n
        invariant 0 <= i <= n && Span(text, p + i, d) == Span(text, p, d)
      {
        if buf[p + i] !in d {
          return i;
        }
        i := i + 1;
      }
      return n;
    }

    /** The first delimiter after position p, which is itself not looked at; -1 if there is none. */
    method Strpbrk(p: nat, d: string) returns (r: int)
      requires Holds(p) && NUL !in d
      ensures r == if p == |text| || Break(text, p + 1, d) == |text| then -1 else Break(text, p + 1, d)
    {
      var s := p;
      while buf[s] != NUL
        invariant p <= s <= |text|
        invariant s > p ==> Break(text, s, d) == Break(text, p + 1, d)
        invariant s > p && s < |text| ==> text[s] !in d
        decreases |text| - s
      {
        s := s + 1;
        if buf[s] in d {
          return s;
        }
      }
      return -1;
    }

    /** The first call: `first` is the position of a fresh string in the buffer, here its start. */
    method Start(ghost s: string)
      requires buf.Length == |s| + 1 && ReadsAs(buf[..], 0, s)
      modifies this
      ensures text == s && ptr == 0 && Holds(0)
    {
      text, ptr := s, 0;
      assert forall i :: 0 <= i < |s| ==> buf[..][0 + i] == s[i];
    }

    /**
     strtok with a null first argument.  The token is cut off where it is; nothing before
     the pointer changes, so tokens returned earlier stay intact.
     */
    method Strtok(d: string) returns (tok: int)
      requires NUL !in d && (ptr != -1 ==> Holds(ptr))
      modifies this`ptr, buf
      ensures old(ptr) == -1 ==> tok == -1 && ptr == -1 && buf[..] == old(buf[..])
      ensures old(ptr) != -1 ==>
                var t := NextToken(text, old(ptr), d);
                && tok == t.start && ptr == t.next
                && ReadsAs(buf[..], t.start, text[t.start..t.end])
                && (ptr != -1 ==> Holds(ptr))
                && forall i :: 0 <= i < buf.Length && i != t.end ==> buf[i] == old(buf[i])
    {
      if ptr == -1 {
        return -1;
      }
      var k := Strspn(ptr, d);
      var t := Strpbrk(ptr + k, d);
      tok := ptr + k;
      Cut(tok, t);
    }

    /** Ends the token at the delimiter found, and moves the pointer behind it. */
    method Cut(start: nat, t: int)
      requires Holds(start) && (t == -1 || start < t < |text|)
      modifies this`ptr, buf
      ensures var end := if t == -1 then |text| else t;
              && ReadsAs(buf[..], start, text[start..end])
              && ptr == (if t == -1 then -1 else t + 1) && (ptr != -1 ==> Holds(ptr))
              && forall i :: 0 <= i < buf.Length && i != end ==> buf[i] == old(buf[i])
      ensures t == -1 ==> buf[..] == old(buf[..])
    {
      if t != -1 {
        buf[t] := NUL;
        ptr := t + 1;
      } else {
        ptr := -1;
      }
    }
  }
}
