// The character classes, one by one, and what a line of a text is.

module Characters {
  import opened Text

  /** The 29 characters of str.isspace. */
  lemma SpacesExact(c: char)
    ensures IsSpace(c) <==> c in {
      '\t', '\n', '\U{0B}', '\U{0C}', '\r', '\U{1C}', '\U{1D}', '\U{1E}', '\U{1F}', ' ', '\U{85}', '\U{A0}', '\U{1680}',
      '\U{2000}', '\U{2001}', '\U{2002}', '\U{2003}', '\U{2004}', '\U{2005}', '\U{2006}', '\U{2007}', '\U{2008}', '\U{2009}',
      '\U{200A}', '\U{2028}', '\U{2029}', '\U{202F}', '\U{205F}', '\U{3000}'}
  {
  }

  /** The 10 characters str.splitlines breaks at. */
  lemma BreaksExact(c: char)
    ensures IsBreak(c) <==> c in {'\n', '\U{0B}', '\U{0C}', '\r', '\U{1C}', '\U{1D}', '\U{1E}', '\U{85}', '\U{2028}', '\U{2029}'}
  {
  }

  /** The characters of an identifier. */
  lemma IdentifierCharsExact(c: char)
    ensures IdentifierChar(c) <==> c in {
      'A', 'B', 'C', 'D', 'E', 'F', 'G', 'H', 'I', 'J', 'K', 'L', 'M', 'N', 'O', 'P', 'Q', 'R', 'S', 'T', 'U', 'V', 'W', 'X',
      'Y', 'Z', 'a', 'b', 'c', 'd', 'e', 'f', 'g', 'h', 'i', 'j', 'k', 'l', 'm', 'n', 'o', 'p', 'q', 'r', 's', 't', 'u', 'v',
      'w', 'x', 'y', 'z', '0', '1', '2', '3', '4', '5', '6', '7', '8', '9', '_', '.', '@', '/', '-'}
  {
  }

  // ---- lines ------------------------------------------------------------------------------------

  /** What ends a line: a carriage return and a newline together, or one break of any kind. */
  predicate EndsLine(b: string) {
    b == "\r\n" || (|b| == 1 && IsBreak(b[0]))
  }

  /** Lines, each followed by what ends it, and a rest. */
  function Lay(ls: seq<string>, ends: seq<string>, rest: string): string
    requires |ls| == |ends|
  {
    if ls == [] then rest else ls[0] + ends[0] + Lay(ls[1..], ends[1..], rest)
  }

  /** s is these lines and an unended rest; a carriage return alone stands before no newline. */
  predicate Laid(s: string, ls: seq<string>, ends: seq<string>, rest: string) {
    && |ls| == |ends| && s == Lay(ls, ends, rest) && NoBreaks(rest)
    && (forall k :: 0 <= k < |ls| ==> NoBreaks(ls[k]) && EndsLine(ends[k]))
    && (forall k :: 0 <= k < |ls| - 1 && ends[k] == "\r" ==> ls[k + 1] != "" || ends[k + 1][0] != '\n')
  }

  function Lines(ls: seq<string>, rest: string): seq<string> {
    if rest == "" then ls else ls + [rest]
  }

  lemma LayStart(ls: seq<string>, ends: seq<string>, rest: string)
    requires |ls| == |ends| && (ls != [] ==> ends[0] != "")
    ensures var s := Lay(ls, ends, rest);
      s != "" ==> s[0] == if ls == [] then rest[0] else if ls[0] == "" then ends[0][0] else ls[0][0]
  {
  }

  /** A line, what ends it, and text that does not go on with that end. */
  lemma OneLine(line: string, end: string, rest: string)
    requires NoBreaks(line) && EndsLine(end) && (end == "\r" && rest != "" ==> rest[0] != '\n')
    ensures SplitLines(line + end + rest) == [line] + SplitLines(rest)
  {
    var s := line + end + rest;
    EndAt(line, end + rest);
    assert s == line + (end + rest);
    assert s[|line|] == end[0] && (|line| + 1 < |s| ==> s[|line| + 1] == (end + rest)[1]);
    BreakIs(s, |line|, end, rest);
    assert s[..|line|] == line && s[|line| + |end|..] == rest;
  }

  lemma BreakIs(s: string, i: nat, end: string, rest: string)
    requires EndsLine(end) && (end == "\r" && rest != "" ==> rest[0] != '\n')
    requires i < |s| && s[i..] == end + rest
    ensures BreakLen(s, i) == |end|
  {
    assert s[i] == (end + rest)[0] && (i + 1 < |s| ==> s[i + 1] == (end + rest)[1]);
  }

  lemma {:induction false} EndAt(line: string, tail: string)
    requires NoBreaks(line) && tail != "" && IsBreak(tail[0])
    ensures LineEnd(line + tail) == |line|
    decreases |line|
  {
    if line == "" {
      assert line + tail == tail;
    } else {
      assert (line + tail)[0] == line[0] && (line + tail)[1..] == line[1..] + tail;
      EndAt(line[1..], tail);
    }
  }

  lemma {:induction false} LaidLines(s: string, ls: seq<string>, ends: seq<string>, rest: string)
    requires Laid(s, ls, ends, rest)
    ensures SplitLines(s) == Lines(ls, rest)
    decreases |ls|
  {
    if ls == [] {
      if rest != "" {
        SplitLinesOne(rest);
      }
    } else {
      var tail := Lay(ls[1..], ends[1..], rest);
      LaidTail(s, ls, ends, rest);
      LaidLines(tail, ls[1..], ends[1..], rest);
      OneLine(ls[0], ends[0], tail);
      LinesCons(ls, rest);
    }
  }

  lemma LaidTail(s: string, ls: seq<string>, ends: seq<string>, rest: string)
    requires Laid(s, ls, ends, rest) && ls != []
    ensures var tail := Lay(ls[1..], ends[1..], rest);
      Laid(tail, ls[1..], ends[1..], rest) && (ends[0] == "\r" && tail != "" ==> tail[0] != '\n')
  {
    LayStart(ls[1..], ends[1..], rest);
    assert forall k :: 0 <= k < |ls| - 1 ==> ls[1..][k] == ls[k + 1] && ends[1..][k] == ends[k + 1];
  }

  lemma LinesCons(ls: seq<string>, rest: string)
    requires ls != []
    ensures [ls[0]] + Lines(ls[1..], rest) == Lines(ls, rest)
  {
  }

  lemma {:induction false} LayOut(s: string) returns (ls: seq<string>, ends: seq<string>, rest: string)
    ensures Laid(s, ls, ends, rest)
    decreases |s|
  {
    var i := LineEnd(s);
    if i == |s| {
      assert s[..i] == s;
      return [], [], s;
    }
    var k := i + BreakLen(s, i);
    ls, ends, rest := LayOut(s[k..]);
    BreakEnds(s, i, k);
    LaidFront(s[..i], s[i..k], s[k..], ls, ends, rest);
    ThreeSlices(s, i, k);
    ls, ends := [s[..i]] + ls, [s[i..k]] + ends;
  }

  lemma ThreeSlices(s: string, i: nat, k: nat)
    requires i <= k <= |s|
    ensures s == s[..i] + s[i..k] + s[k..]
  {
  }

  lemma LaidFront(line: string, end: string, tail: string, ls: seq<string>, ends: seq<string>, rest: string)
    requires Laid(tail, ls, ends, rest) && NoBreaks(line) && EndsLine(end) && (end == "\r" && tail != "" ==> tail[0] != '\n')
    ensures Laid(line + end + tail, [line] + ls, [end] + ends, rest)
  {
    LayCons(line, end, ls, ends, rest);
    LayStart(ls, ends, rest);
    var all, closes := [line] + ls, [end] + ends;
    forall k | 0 <= k < |all| - 1 && closes[k] == "\r" ensures all[k + 1] != "" || closes[k + 1][0] != '\n' {
      assert all[k + 1] == ls[k] && closes[k + 1] == ends[k];
    }
  }

  lemma BreakEnds(s: string, i: nat, k: nat)
    requires i < |s| && IsBreak(s[i]) && k == i + BreakLen(s, i)
    ensures EndsLine(s[i..k]) && (s[i..k] == "\r" && k < |s| ==> s[k..][0] != '\n')
  {
    if BreakLen(s, i) == 2 {
      assert s[i..k] == [s[i], s[i + 1]];
    } else {
      assert s[i..k] == [s[i]];
    }
  }

  lemma LayCons(line: string, end: string, ls: seq<string>, ends: seq<string>, rest: string)
    requires |ls| == |ends|
    ensures Lay([line] + ls, [end] + ends, rest) == line + end + Lay(ls, ends, rest)
  {
    assert ([line] + ls)[1..] == ls && ([end] + ends)[1..] == ends;
  }

  /** The lines of a text are what its breaks leave between them, for every text. */
  lemma LinesExact(s: string, r: seq<string>)
    ensures SplitLines(s) == r <==> exists ls: seq<string>, ends: seq<string>, rest: string :: Laid(s, ls, ends, rest) && r == Lines(ls, rest)
  {
    if SplitLines(s) == r {
      var ls, ends, rest := LayOut(s);
      LaidLines(s, ls, ends, rest);
    }
    if ls: seq<string>, ends: seq<string>, rest: string :| Laid(s, ls, ends, rest) && r == Lines(ls, rest) {
      LaidLines(s, ls, ends, rest);
    }
  }
}
