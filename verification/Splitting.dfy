// okf_bundle.split_layers: telling the stored core and the learned overlay of an imported
// body apart, and exactly when an exported body comes apart into the layers it was merged from.

module Splitting {
  import opened Text
  import opened Layers

  /** [line for line in lines if line.strip() and line not in coreLines] */
  function Additions(lines: seq<string>, coreLines: seq<string>): (r: seq<string>)
    ensures forall l :: l in r <==> l in lines && Strip(l, IsSpace) != "" && l !in coreLines
  {
    if lines == [] then []
    else if Strip(lines[0], IsSpace) != "" && lines[0] !in coreLines then [lines[0]] + Additions(lines[1..], coreLines)
    else Additions(lines[1..], coreLines)
  }

  function SplitLayers(body: string, storedCore: string): (string, string) {
    if storedCore == "" then (body, "")
    else
      var trimmed := RStrip(storedCore, IsNewline);
      if StartsWith(body, trimmed) then (storedCore, TerminatedText(Strip(body[|trimmed|..], IsNewline)))
      else (storedCore, TerminatedText(Join(Additions(SplitLines(body), SplitLines(trimmed)), "\n")))
  }

  /** The body an export prints for two layers. */
  function ExportBody(core: string, overlay: string): string {
    RStrip(MergeLayers(core, overlay), IsSpace) + "\n"
  }

  /** No newline in front, one at the end, and no blank before that. */
  predicate Tidy(overlay: string) {
    var n := |overlay|;
    n >= 2 && overlay[0] != '\n' && overlay[n - 1] == '\n' && !IsSpace(overlay[n - 2])
  }

  function LastLine(s: string): string
    requires s != ""
  {
    var ls := SplitLines(s);
    ls[|ls| - 1]
  }

  /** Cutting the trailing blanks off the core leaves a last line the core has too. */
  predicate LastLineKept(core: string) {
    var r := RStrip(core, IsSpace);
    r == "" || LastLine(r) in SplitLines(RStrip(core, IsNewline))
  }

  /** The layers an export keeps apart. */
  predicate Splittable(core: string, overlay: string) {
    core != "" && if overlay == "" then LastLineKept(core) else Tidy(overlay)
  }

  // ---- stripping concatenations ----------------------------------------------------------

  lemma RStripThrough(a: string, b: string, p: char -> bool)
    requires RStrip(b, p) == ""
    ensures RStrip(a + b, p) == RStrip(a, p)
  {
    RStripSuffix(a, b, p);
  }

  lemma StripAll(s: string, p: char -> bool)
    requires forall i :: 0 <= i < |s| ==> p(s[i])
    ensures Strip(s, p) == ""
  {
    assert s + "" + "" == s;
    StripAround(s, "", "", p);
  }

  /** A string that strips to something has a character to keep. */
  lemma Keepsake(s: string, p: char -> bool) returns (i: nat)
    requires Strip(s, p) != ""
    ensures i < |s| && !p(s[i])
  {
    var a, b := StripParts(s, p);
    i := |a|;
    assert s[i] == (Strip(s, p) + b)[0] == Strip(s, p)[0];
  }

  // ---- lines of a prefix -----------------------------------------------------------------

  lemma {:induction false} LineEndPrefix(r: string, x: string)
    requires LineEnd(r) < |r|
    ensures LineEnd(r + x) == LineEnd(r)
  {
    assert (r + x)[0] == r[0];
    if !IsBreak(r[0]) {
      assert (r + x)[1..] == r[1..] + x;
      LineEndPrefix(r[1..], x);
    }
  }

  /** ext is ls with x added behind its last line, which ends in c. */
  predicate ExtendedLines(ls: seq<string>, ext: seq<string>, x: string, c: char) {
    && ls != [] && ext == ls[..|ls| - 1] + SplitLines(ls[|ls| - 1] + x)
    && ls[|ls| - 1] != "" && ls[|ls| - 1][|ls[|ls| - 1]| - 1] == c
  }

  /** Text added behind a line changes that line alone. */
  lemma {:induction false} LinesExtended(r: string, x: string)
    requires r != "" && !IsBreak(r[|r| - 1])
    ensures ExtendedLines(SplitLines(r), SplitLines(r + x), x, r[|r| - 1])
    decreases |r|
  {
    if LineEnd(r) == |r| {
      LineAlone(r);
      OneExtended(r, x);
    } else {
      var i := LineEnd(r);
      SameBreak(r, x, i);
      var k := i + BreakLen(r, i);
      RestEnds(r, k);
      LinesExtended(r[k..], x);
      LinesStep(r, x, k, r[..i], r[k..]);
      ExtendedCons(r[..i], SplitLines(r[k..]), SplitLines(r[k..] + x), x, r[|r| - 1]);
    }
  }

  lemma RestEnds(r: string, k: nat)
    requires k < |r|
    ensures r[k..] != "" && r[k..][|r[k..]| - 1] == r[|r| - 1]
  {
  }

  lemma OneExtended(r: string, x: string)
    requires r != ""
    ensures ExtendedLines([r], SplitLines(r + x), x, r[|r| - 1])
  {
    assert [r][..0] + SplitLines(r + x) == SplitLines(r + x);
  }

  lemma LineAlone(r: string)
    requires r != "" && LineEnd(r) == |r|
    ensures SplitLines(r) == [r]
  {
  }

  /** The first line and the rest. */
  lemma FirstLine(r: string, i: nat, k: nat, line: string, rest: string)
    requires r != "" && i == LineEnd(r) < |r| && k == i + BreakLen(r, i) && line == r[..i] && rest == r[k..]
    ensures SplitLines(r) == [line] + SplitLines(rest)
  {
    LineOff(r, i);
  }

  lemma LineOff(r: string, i: nat)
    requires r != "" && i == LineEnd(r) < |r|
    ensures SplitLines(r) == [r[..i]] + SplitLines(PastBreak(r, i))
  {
  }

  /** They are the same with text added behind. */
  lemma LinesStep(r: string, x: string, k: nat, line: string, rest: string)
    requires LineEnd(r) < |r| && BreakLen(r + x, LineEnd(r)) == BreakLen(r, LineEnd(r)) && k == LineEnd(r) + BreakLen(r, LineEnd(r))
    requires line == r[..LineEnd(r)] && rest == r[k..]
    ensures SplitLines(r) == [line] + SplitLines(rest) && SplitLines(r + x) == [line] + SplitLines(rest + x)
  {
    LineEndPrefix(r, x);
    PrefixSlices(r, x, LineEnd(r), k);
    FirstLine(r, LineEnd(r), k, line, rest);
    FirstLine(r + x, LineEnd(r), k, line, rest + x);
  }

  lemma PrefixSlices(r: string, x: string, i: nat, k: nat)
    requires i <= k <= |r|
    ensures (r + x)[..i] == r[..i] && (r + x)[k..] == r[k..] + x
  {
  }

  lemma SameBreak(r: string, x: string, i: nat)
    requires i < |r| && IsBreak(r[i]) && !IsBreak(r[|r| - 1])
    ensures BreakLen(r + x, i) == BreakLen(r, i) && i + BreakLen(r, i) < |r|
  {
    assert i + 1 < |r| && (r + x)[i] == r[i] && (r + x)[i + 1] == r[i + 1];
    assert IsBreak('\n');
  }

  lemma ExtendedCons(line: string, ls: seq<string>, ext: seq<string>, x: string, c: char)
    requires ExtendedLines(ls, ext, x, c)
    ensures ExtendedLines([line] + ls, [line] + ext, x, c)
  {
    var all := [line] + ls;
    assert all[|all| - 1] == ls[|ls| - 1] && all[..|all| - 1] == [line] + ls[..|ls| - 1];
  }

  // ---- with an overlay -------------------------------------------------------------------

  lemma OverlayBody(core: string, overlay: string)
    requires overlay != ""
    ensures var c, q := RStrip(core, IsNewline), RStrip(overlay, IsSpace);
      ExportBody(core, overlay) == if q == "" then RStrip(c, IsSpace) + "\n" else c + ("\n\n" + q + "\n")
  {
    var c, o := RStrip(core, IsNewline), RStrip(overlay, IsNewline);
    var q := RStrip(overlay, IsSpace);
    StripTwice(overlay);
    RStripSuffix(o, "\n", IsSpace);
    Assoc(c + "\n\n", o, "\n");
    if q == "" {
      RStripThrough(c + "\n\n", o + "\n", IsSpace);
      RStripSuffix(c, "\n\n", IsSpace);
    } else {
      RStripKeeps(c + "\n\n", o + "\n", IsSpace);
      TextAssoc(c, q);
    }
  }

  lemma StripTwice(s: string)
    ensures RStrip(RStrip(s, IsNewline), IsSpace) == RStrip(s, IsSpace)
  {
    var tail := RStripParts(s, IsNewline);
    assert forall i :: 0 <= i < |tail| ==> IsSpace(tail[i]);
    RStripSuffix(RStrip(s, IsNewline), tail, IsSpace);
  }

  lemma TextAssoc(c: string, o: string)
    ensures c + ("\n\n" + o + "\n") == (c + "\n\n" + o) + "\n"
  {
  }

  /** A body that is the trimmed core and then rest splits at that boundary. */
  lemma SplitAt(core: string, rest: string)
    requires core != ""
    ensures SplitLayers(RStrip(core, IsNewline) + rest, core) == (core, TerminatedText(Strip(rest, IsNewline)))
  {
    var c := RStrip(core, IsNewline);
    var body := c + rest;
    assert body[0..|c|] == c && body[|c|..] == rest;
    assert StartsWith(body, c);
  }

  lemma Remainder(q: string)
    requires q != "" && !IsNewline(q[|q| - 1])
    ensures Strip("\n\n" + q + "\n", IsNewline) == LStrip(q, IsNewline)
  {
    StripFront("\n\n", q, "\n", IsNewline);
  }

  /** The overlay that comes back is the stored one iff that was tidy. */
  lemma TidyExact(overlay: string)
    requires RStrip(overlay, IsSpace) != ""
    ensures LStrip(RStrip(overlay, IsSpace), IsNewline) + "\n" == overlay <==> Tidy(overlay)
  {
    var q := RStrip(overlay, IsSpace);
    SpaceIsNoNewline(q[|q| - 1]);
    LastStays(q, IsNewline);
    ClosedIsTidy(LStrip(q, IsNewline));
    if Tidy(overlay) {
      TidyComesBack(overlay);
    }
  }

  lemma ClosedIsTidy(l: string)
    requires l != "" && !IsNewline(l[0]) && !IsSpace(l[|l| - 1])
    ensures Tidy(l + "\n")
  {
  }

  lemma SpaceIsNoNewline(c: char)
    requires !IsSpace(c)
    ensures !IsNewline(c)
  {
  }

  lemma TidyComesBack(overlay: string)
    requires Tidy(overlay)
    ensures LStrip(RStrip(overlay, IsSpace), IsNewline) + "\n" == overlay
  {
    var t := overlay[..|overlay| - 1];
    assert overlay == t + "\n" && t[|t| - 1] == overlay[|overlay| - 2] && t[0] == overlay[0];
    RStripSuffix(t, "\n", IsSpace);
  }

  lemma SplitWithOverlay(core: string, overlay: string)
    requires core != "" && overlay != ""
    ensures SplitLayers(ExportBody(core, overlay), core) == (core, overlay) <==> Tidy(overlay)
  {
    var q := RStrip(overlay, IsSpace);
    OverlayBody(core, overlay);
    if q == "" {
      BlankOverlay(core, overlay);
    } else {
      SplitAt(core, "\n\n" + q + "\n");
      SpaceIsNoNewline(q[|q| - 1]);
      LastStays(q, IsNewline);
      Remainder(q);
      TidyExact(overlay);
    }
  }

  /** An overlay of blanks is lost. */
  lemma BlankOverlay(core: string, overlay: string)
    requires core != "" && overlay != "" && RStrip(overlay, IsSpace) == ""
    ensures SplitLayers(RStrip(RStrip(core, IsNewline), IsSpace) + "\n", core).1 != overlay && !Tidy(overlay)
  {
    assert forall i :: 0 <= i < |overlay| ==> IsSpace(overlay[i]);
    var c := RStrip(core, IsNewline);
    var body := RStrip(c, IsSpace) + "\n";
    if StartsWith(body, c) {
      ShortRemainder(c, RStrip(c, IsSpace));
    } else {
      var adds := Additions(SplitLines(body), SplitLines(c));
      if adds != [] {
        assert adds[0] in adds;
        var i := Keepsake(adds[0], IsSpace);
        JoinHead(adds);
        assert TerminatedText(Join(adds, "\n"))[i] == adds[0][i];
      }
    }
  }

  lemma JoinHead(parts: seq<string>)
    requires parts != []
    ensures parts[0] <= Join(parts, "\n")
  {
  }

  /** What follows the core in its own stripped body is at most a newline. */
  lemma ShortRemainder(c: string, r: string)
    requires r <= c && StartsWith(r + "\n", c) && (c != "" ==> c[|c| - 1] != '\n')
    ensures c == r && Strip((r + "\n")[|c|..], IsNewline) == ""
  {
    ShortPrefix(r, c);
    assert (r + "\n")[|r|..] == "\n";
    StripAll("\n", IsNewline);
  }

  lemma ShortPrefix(r: string, c: string)
    requires r <= c && StartsWith(r + "\n", c) && (c != "" ==> c[|c| - 1] != '\n')
    ensures r == c
  {
    var body := r + "\n";
    assert body[0..|c|] == c;
    assert c != "" ==> c[|c| - 1] == body[|c| - 1];
  }

  // ---- without an overlay ------------------------------------------------------------------

  lemma SplitWithoutOverlay(core: string)
    requires core != ""
    ensures SplitLayers(ExportBody(core, ""), core) == (core, "") <==> LastLineKept(core)
  {
    var c, r := RStrip(core, IsNewline), RStrip(core, IsSpace);
    StripTwice(core);
    if StartsWith(r + "\n", c) {
      ShortRemainder(c, r);
      if r != "" {
        assert LastLine(r) in SplitLines(r);
      }
    } else {
      AdditionsExact(c, r);
      var adds := Additions(SplitLines(r + "\n"), SplitLines(c));
      if adds != [] {
        assert adds[0] in adds;
        var i := Keepsake(adds[0], IsSpace);
        JoinHead(adds);
      }
    }
  }

  /** Of the lines of a stripped core only the last can be new. */
  lemma AdditionsExact(c: string, r: string)
    requires r == RStrip(c, IsSpace)
    ensures Additions(SplitLines(r + "\n"), SplitLines(c)) == [] <==> r == "" || LastLine(r) in SplitLines(c)
  {
    var adds := Additions(SplitLines(r + "\n"), SplitLines(c));
    if r == "" {
      SplitLinesCons("", "");
      assert "" + "\n" + "" == r + "\n";
      StripAll("", IsSpace);
      assert SplitLines(r + "\n") == [""];
      NothingAdded(adds);
    } else {
      StrippedLines(c, r);
      var last := LastLine(r);
      if last !in SplitLines(c) {
        assert last in adds;
      } else {
        NothingAdded(adds);
      }
    }
  }

  lemma NothingAdded(adds: seq<string>)
    ensures (forall l :: l !in adds) ==> adds == []
  {
    if adds != [] {
      assert adds[0] in adds;
    }
  }

  lemma StrippedLines(c: string, r: string)
    requires r == RStrip(c, IsSpace) && r != ""
    ensures Strip(LastLine(r), IsSpace) != "" && LastLine(r) in SplitLines(r + "\n")
    ensures forall l :: l in SplitLines(r + "\n") && l != LastLine(r) ==> l in SplitLines(c)
  {
    SpaceIsNoBreak(r[|r| - 1]);
    PrefixRest(c, r);
    LinesExtended(r, c[|r|..]);
    LinesExtended(r, "\n");
    LastLineClosed(r);
    LastIsSome(LastLine(r), IsSpace);
    AllButLast(SplitLines(r), SplitLines(r + "\n"), SplitLines(c), c[|r|..], r[|r| - 1]);
  }

  lemma PrefixRest(c: string, r: string)
    requires r <= c
    ensures c == r + c[|r|..]
  {
  }

  lemma LastIsSome(line: string, p: char -> bool)
    requires line != "" && !p(line[|line| - 1])
    ensures Strip(line, p) != ""
  {
    LastStays(line, p);
  }

  lemma AllButLast(ls: seq<string>, closed: seq<string>, ext: seq<string>, x: string, c: char)
    requires ExtendedLines(ls, closed, "\n", c) && ExtendedLines(ls, ext, x, c)
    requires SplitLines(ls[|ls| - 1] + "\n") == [ls[|ls| - 1]]
    ensures ls[|ls| - 1] in closed && forall l :: l in closed && l != ls[|ls| - 1] ==> l in ext
  {
    assert closed == ls[..|ls| - 1] + [ls[|ls| - 1]];
  }

  lemma SpaceIsNoBreak(c: char)
    requires !IsSpace(c)
    ensures !IsBreak(c)
  {
  }

  /** A final newline closes the last line and adds none. */
  lemma LastLineClosed(r: string)
    requires r != ""
    ensures SplitLines(LastLine(r) + "\n") == [LastLine(r)]
  {
    var last := LastLine(r);
    SplitLinesCons(last, "");
    assert last + "\n" + "" == last + "\n";
  }

  // ---- the whole condition -----------------------------------------------------------------

  /** An exported body splits back into the layers it was merged from iff they are splittable. */
  lemma SplitExact(core: string, overlay: string)
    ensures SplitLayers(ExportBody(core, overlay), core) == (core, overlay) <==> Splittable(core, overlay)
  {
    if core != "" {
      if overlay == "" {
        SplitWithoutOverlay(core);
      } else {
        SplitWithOverlay(core, overlay);
      }
    }
  }

  // ---- a body edited by hand ---------------------------------------------------------------

  /** A line that is not blank and no line of the core. */
  ghost function Addition(line: string, coreLines: seq<string>): seq<string> {
    if (exists i :: 0 <= i < |line| && !IsSpace(line[i])) && line !in coreLines then [line] else []
  }

  /** Lines are taken one by one, in their order. */
  lemma {:induction false} AdditionsSnoc(a: seq<string>, line: string, coreLines: seq<string>)
    ensures Additions(a + [line], coreLines) == Additions(a, coreLines) + Addition(line, coreLines)
  {
    if a == [] {
      assert a + [line] == [line];
      FirstAddition([line], coreLines);
    } else {
      AdditionsSnoc(a[1..], line, coreLines);
      FirstAddition(a, coreLines);
      LaterAddition(a, line, coreLines);
      Regroup(Addition(a[0], coreLines), Additions(a[1..], coreLines), Addition(line, coreLines));
    }
  }

  lemma Regroup(x: seq<string>, y: seq<string>, z: seq<string>)
    ensures x + (y + z) == (x + y) + z
  {
  }

  lemma LaterAddition(a: seq<string>, line: string, coreLines: seq<string>)
    requires a != []
    ensures Additions(a + [line], coreLines) == Addition(a[0], coreLines) + Additions(a[1..] + [line], coreLines)
  {
    assert (a + [line])[0] == a[0] && (a + [line])[1..] == a[1..] + [line];
    FirstAddition(a + [line], coreLines);
  }

  lemma FirstAddition(lines: seq<string>, coreLines: seq<string>)
    requires lines != []
    ensures Additions(lines, coreLines) == Addition(lines[0], coreLines) + Additions(lines[1..], coreLines)
  {
    AdditionIs(lines[0], coreLines);
    FirstTaken(lines, coreLines);
  }

  lemma AdditionIs(line: string, coreLines: seq<string>)
    ensures Addition(line, coreLines) == if Strip(line, IsSpace) != "" && line !in coreLines then [line] else []
  {
    BlankExact(line, IsSpace);
  }

  lemma FirstTaken(lines: seq<string>, coreLines: seq<string>)
    requires lines != []
    ensures Additions(lines, coreLines)
         == (if Strip(lines[0], IsSpace) != "" && lines[0] !in coreLines then [lines[0]] else []) + Additions(lines[1..], coreLines)
  {
  }

  lemma BlankExact(line: string, p: char -> bool)
    ensures Strip(line, p) != "" <==> exists i :: 0 <= i < |line| && !p(line[i])
  {
    if Strip(line, p) != "" {
      var i := Keepsake(line, p);
    }
    if forall i :: 0 <= i < |line| ==> p(line[i]) {
    } else {
      var i :| 0 <= i < |line| && !p(line[i]);
      StripKeepsSome(line, p, i);
    }
  }

  lemma StripKeepsSome(line: string, p: char -> bool, i: nat)
    requires i < |line| && !p(line[i])
    ensures Strip(line, p) != ""
  {
    var a, b := StripParts(line, p);
  }

  /**
   * A body that does not start with the core keeps the core, and its overlay holds exactly its
   * additions: line by line, in order.
   */
  lemma EditedExact(body: string, core: string)
    requires core != "" && !StartsWith(body, RStrip(core, IsNewline))
    ensures var (kept, overlay) := SplitLayers(body, core);
      kept == core && SplitLines(overlay) == Additions(SplitLines(body), SplitLines(RStrip(core, IsNewline)))
  {
    var ls := Additions(SplitLines(body), SplitLines(RStrip(core, IsNewline)));
    AdditionsAreLines(SplitLines(body), SplitLines(RStrip(core, IsNewline)));
    LinesTerminated(ls);
    EditedIs(body, core, ls);
  }

  lemma EditedIs(body: string, core: string, ls: seq<string>)
    requires core != "" && !StartsWith(body, RStrip(core, IsNewline))
    requires ls == Additions(SplitLines(body), SplitLines(RStrip(core, IsNewline)))
    ensures SplitLayers(body, core) == (core, TerminatedText(Join(ls, "\n")))
  {
  }

  lemma AdditionsAreLines(lines: seq<string>, coreLines: seq<string>)
    requires AllLines(lines)
    ensures var r := Additions(lines, coreLines); AllLines(r) && forall k :: 0 <= k < |r| ==> r[k] != ""
  {
    var r := Additions(lines, coreLines);
    forall k | 0 <= k < |r| ensures NoBreaks(r[k]) && r[k] != "" {
      assert r[k] in r;
      BlankIsEmpty(r[k], IsSpace);
    }
  }

  lemma LinesTerminated(ls: seq<string>)
    requires AllLines(ls) && forall k :: 0 <= k < |ls| ==> ls[k] != ""
    ensures SplitLines(TerminatedText(Join(ls, "\n"))) == ls
  {
    if ls != [] {
      JoinStarts(ls, "\n");
      SplitLinesJoin(ls);
    }
  }

  lemma BlankIsEmpty(line: string, p: char -> bool)
    ensures line == "" ==> Strip(line, p) == ""
  {
  }

  lemma JoinStarts(ls: seq<string>, sep: string)
    requires ls != [] && ls[0] != ""
    ensures Join(ls, sep) != ""
  {
  }

  /** Without a stored core the body is its own core. */
  lemma UnstoredExact(body: string)
    ensures SplitLayers(body, "") == (body, "")
  {
  }
}
