/**
 How pass cuts the source into lines: a loop that records where lines start, in a list whose
 first entry is the text itself until it is written over.
 */
module LassLines {
  import opened LassProofs
  import opened LassSpec

  /** The line that starts at p ends at the next newline. */
  function LineAt(text: string, p: nat): (r: string)
    requires p <= |text|
  {
    var i := StrChr(text, '\n', p);
    if i == -1 then text[p..] else text[p..i]
  }

  predicate InText(text: string, starts: seq<nat>) {
    forall k :: 0 <= k < |starts| ==> starts[k] <= |text|
  }

  /** Where lines start behind position p: after every newline that is followed by anything. */
  function StartsBehind(text: string, p: nat): (r: seq<nat>)
    requires p <= |text|
    ensures InText(text, r)
    decreases |text| - p
  {
    if p == |text| then []
    else (if text[p] == '\n' && p + 1 < |text| then [p + 1] else []) + StartsBehind(text, p + 1)
  }

  function LinesAt(text: string, starts: seq<nat>): (r: seq<string>)
    requires InText(text, starts)
    ensures |r| == |starts|
  {
    seq(|starts|, k requires 0 <= k < |starts| => LineAt(text, starts[k]))
  }

  function Trim(all: seq<string>): (r: seq<string>) {
    if |all| > 1 && all[|all| - 1] == "" then all[..|all| - 1] else all
  }

  lemma {:induction false} StartsSkip(text: string, p: nat, i: nat)
    requires p <= i < |text| && i == StrChr(text, '\n', p)
    ensures StartsBehind(text, p) == (if i + 1 < |text| then [i + 1] else []) + StartsBehind(text, i + 1)
    decreases i - p
  {
    FoundThere(text, '\n', p);
    if p < i {
      StartsSkip(text, p + 1, i);
    }
  }

  lemma {:induction false} FoundThere(s: string, c: char, i: nat)
    requires i <= |s|
    ensures var r := StrChr(s, c, i); (r != -1 ==> s[r] == c) && (i < |s| && s[i] == c ==> r == i)
    decreases |s| - i
  {
    if i < |s| {
      FoundThere(s, c, i + 1);
    }
  }

  lemma {:induction false} NoStarts(text: string, p: nat)
    requires p <= |text| && StrChr(text, '\n', p) == -1
    ensures StartsBehind(text, p) == []
    decreases |text| - p
  {
    if p < |text| {
      NoStarts(text, p + 1);
    }
  }

  lemma TrimMore(a: string, all: seq<string>)
    requires all != [] && all != [""]
    ensures Trim([a] + all) == [a] + Trim(all)
  {
    var more := [a] + all;
    assert more[|more| - 1] == all[|all| - 1];
    if |all| > 1 && all[|all| - 1] == "" {
      assert more[..|more| - 1] == [a] + all[..|all| - 1];
    }
  }

  lemma MoreLines(text: string, a: string, all: seq<string>, s: nat, rest: seq<nat>)
    requires s <= |text| && InText(text, rest) && all != [] && all != [""]
    requires Trim(all) == [LineAt(text, s)] + LinesAt(text, rest)
    ensures InText(text, [s] + rest) && Trim([a] + all) == [a] + LinesAt(text, [s] + rest)
  {
    TrimMore(a, all);
    assert LinesAt(text, [s] + rest) == [LineAt(text, s)] + LinesAt(text, rest);
  }

  lemma SegmentsStep(text: string, p: nat, i: nat)
    requires p <= i < |text| && i == StrChr(text, '\n', p)
    ensures Segments(text, p) == [text[p..i]] + Segments(text, i + 1) && LineAt(text, p) == text[p..i]
    ensures i + 1 == |text| ==> Segments(text, i + 1) == [""]
  {
    if i + 1 == |text| {
      assert StrChr(text, '\n', i + 1) == -1 && text[i + 1..] == "";
    }
  }

  lemma NotOneEmpty(text: string, p: nat)
    requires p < |text|
    ensures Segments(text, p) != [""]
  {
    var j := StrChr(text, '\n', p);
    if j == -1 {
      assert |text[p..]| > 0;
    } else {
      assert |Segments(text, p)| >= 2;
    }
  }

  ghost predicate CutBody(text: string, p: nat, segs: seq<string>, starts: seq<nat>, key: nat)
    requires p <= |text|
  {
    InText(text, starts) && Trim(segs) == [LineAt(text, p)] + LinesAt(text, starts)
  }

  /** The pieces are the line at p and those at the starts; opened by an instance. */
  ghost predicate Cut(text: string, p: nat, segs: seq<string>, starts: seq<nat>)
    requires p <= |text|
  {
    forall key: nat :: CutBody(text, p, segs, starts, key)
  }

  lemma CutStep(text: string, p: nat, a: string, all: seq<string>, s: nat, rest: seq<nat>)
    requires p <= |text| && s <= |text| && all != [] && all != [""] && LineAt(text, p) == a && Cut(text, s, all, rest)
    ensures Cut(text, p, [a] + all, [s] + rest)
  {
    assert CutBody(text, s, all, rest, 0);
    MoreLines(text, a, all, s, rest);
  }

  lemma CutEnd(text: string, p: nat, a: string)
    requires p <= |text| && LineAt(text, p) == a
    ensures Cut(text, p, [a], []) && Cut(text, p, [a] + [""], [])
  {
    LastLine(a);
  }

  /** The lines are those at the start of the text and at the recorded starts. */
  lemma {:induction false} LinesAreStarts(text: string, p: nat)
    requires p <= |text|
    ensures Cut(text, p, Segments(text, p), StartsBehind(text, p))
    decreases |text| - p
  {
    var i := StrChr(text, '\n', p);
    if i == -1 {
      NoStarts(text, p);
      CutEnd(text, p, text[p..]);
    } else {
      StartsSkip(text, p, i);
      SegmentsStep(text, p, i);
      if i + 1 < |text| {
        LinesAreStarts(text, i + 1);
        NotOneEmpty(text, i + 1);
        CutStep(text, p, text[p..i], Segments(text, i + 1), i + 1, StartsBehind(text, i + 1));
      } else {
        CutEnd(text, p, text[p..i]);
      }
    }
  }

  lemma LastLine(a: string)
    ensures Trim([a] + [""]) == [a]
  {
    var all := [a] + [""];
    assert all[..|all| - 1] == [a];
  }

  /** The first loop of pass: the list starts with the whole text, and its first entry is written again. */
  method SplitLines(text: string) returns (lines: seq<string>)
    ensures lines == SourceLines(text)
  {
    var list: seq<nat>, n := [0], 0;
    ghost var found: seq<nat> := [];
    var i := 0;
    while i < |text|
      invariant 0 <= i <= |text| && n == |found| && list == (if n == 0 then [0] else found)
      invariant Recorded(text, found, i)
    {
      RecordedMore(text, found, i);
      if text[i] == '\n' {
        if i + 1 < |text| {
          list := if n == 0 then [i + 1] else list + [i + 1];
          n := n + 1;
          found := found + [i + 1];
        }
      }
      i := i + 1;
    }
    RecordedAll(text, found);
    AllLines(text, found);
    lines := LinesAt(text, list);
  }

  lemma AllLines(text: string, found: seq<nat>)
    requires found == StartsBehind(text, 0)
    ensures InText(text, found) && SourceLines(text) == LinesAt(text, if found == [] then [0] else found)
  {
    LinesAreStarts(text, 0);
    assert CutBody(text, 0, Segments(text, 0), found, 0);
    assert TextLines(text) == [LineAt(text, 0)] + LinesAt(text, found);
  }

  ghost predicate RecordedBody(text: string, found: seq<nat>, i: nat, key: nat)
    requires i <= |text|
  {
    found + StartsBehind(text, i) == StartsBehind(text, 0)
  }

  /** The starts found before position i, and those still to come, are all of them. */
  ghost predicate Recorded(text: string, found: seq<nat>, i: nat)
    requires i <= |text|
  {
    forall key: nat :: RecordedBody(text, found, i, key)
  }

  lemma RecordedMore(text: string, found: seq<nat>, i: nat)
    requires i < |text| && Recorded(text, found, i)
    ensures Recorded(text, if text[i] == '\n' && i + 1 < |text| then found + [i + 1] else found, i + 1)
  {
    assert RecordedBody(text, found, i, 0);
    var rest := StartsBehind(text, i + 1);
    if text[i] == '\n' && i + 1 < |text| {
      assert StartsBehind(text, i) == [i + 1] + rest;
      Reassociate(found, i + 1, rest);
    } else {
      assert StartsBehind(text, i) == [] + rest == rest;
    }
  }

  lemma Reassociate(a: seq<nat>, x: nat, b: seq<nat>)
    ensures a + ([x] + b) == (a + [x]) + b
  {
  }

  lemma RecordedAll(text: string, found: seq<nat>)
    requires Recorded(text, found, |text|)
    ensures found == StartsBehind(text, 0)
  {
    assert RecordedBody(text, found, |text|, 0);
    assert found + [] == found;
  }
}
