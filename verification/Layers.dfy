// The two layers of a concept document, the walk-owned core and the learned overlay:
// merging them and re-grounding the overlay against a new core (okf_walk.py).

module Layers {
  import opened Text

  function MergeLayers(core: string, overlay: string): string {
    if overlay == "" then core
    else RStrip(core, IsNewline) + "\n\n" + RStrip(overlay, IsNewline) + "\n"
  }

  // ---- re-grounding -----------------------------------------------------------

  /** re.findall of `([^`]+)`: each next pair of backticks with something between. */
  function References(line: string): (r: seq<string>)
    ensures forall k :: 0 <= k < |r| ==> r[k] != "" && FirstChar(r[k], '`', 0) == |r[k]|
    decreases |line|
  {
    var i := FirstChar(line, '`', 0);
    if i == |line| then [] else
    var j := FirstChar(line, '`', i + 1);
    if j == |line| then []
    else if j == i + 1 then References(line[i + 1..])
    else
      [line[i + 1..j]] + References(line[j + 1..])
  }

  /** The line references something the old core had and the new core lacks. */
  predicate Stale(line: string, oldCore: string, newCore: string) {
    var refs := References(line);
    exists k :: 0 <= k < |refs| && Contains(oldCore, refs[k]) && !Contains(newCore, refs[k])
  }

  /** The lines that are stale (want) or are not (!want), in order. */
  function Sift(lines: seq<string>, oldCore: string, newCore: string, want: bool): (r: seq<string>)
    ensures forall k :: 0 <= k < |r| ==> r[k] in lines && Stale(r[k], oldCore, newCore) == want
  {
    if lines == [] then []
    else
      var n := |lines| - 1;
      var front := Sift(lines[..n], oldCore, newCore, want);
      if Stale(lines[n], oldCore, newCore) == want then front + [lines[n]] else front
  }

  function TerminatedText(text: string): string {
    if text == "" then "" else text + "\n"
  }

  function Reground(overlay: string, oldCore: string, newCore: string): (string, seq<string>) {
    if overlay == "" then ("", [])
    else
      var lines := SplitLines(overlay);
      (TerminatedText(Strip(Join(Sift(lines, oldCore, newCore, false), "\n"), IsNewline)),
       Sift(lines, oldCore, newCore, true))
  }

  /** reground_overlay as written: one pass that appends to kept or to dropped. */
  method RegroundOverlay(overlay: string, oldCore: string, newCore: string)
    returns (keptOverlay: string, dropped: seq<string>)
    ensures (keptOverlay, dropped) == Reground(overlay, oldCore, newCore)
  {
    dropped := [];
    if overlay == "" {
      return "", [];
    }
    var kept: seq<string> := [];
    var lines := SplitLines(overlay);
    for n := 0 to |lines|
      invariant kept == Sift(lines[..n], oldCore, newCore, false)
      invariant dropped == Sift(lines[..n], oldCore, newCore, true)
    {
      assert lines[..n + 1][..n] == lines[..n];
      if Stale(lines[n], oldCore, newCore) {
        dropped := dropped + [lines[n]];
      } else {
        kept := kept + [lines[n]];
      }
    }
    assert lines[..|lines|] == lines;
    var text := Strip(Join(kept, "\n"), IsNewline);
    keptOverlay := if text != "" then text + "\n" else "";
  }

  /** Stored overlays look like this: "\n" line ends, closed by exactly one of them. */
  predicate NormalOverlay(o: string) {
    o != "" ==>
      |o| >= 2 && o[0] != '\n' && o[|o| - 2] != '\n' && o[|o| - 1] == '\n' && OnlyNewlines(o)
  }

  /** No line is lost: every overlay line is kept or is reported as dropped. */
  lemma {:induction false} SiftPartition(lines: seq<string>, oldCore: string, newCore: string)
    ensures multiset(lines) == multiset(Sift(lines, oldCore, newCore, false)) + multiset(Sift(lines, oldCore, newCore, true))
  {
    if lines != [] {
      var n := |lines| - 1;
      SiftPartition(lines[..n], oldCore, newCore);
      assert multiset(lines) == multiset(lines[..n]) + multiset{lines[n]} by {
        assert lines == lines[..n] + [lines[n]];
      }
    }
  }

  lemma StripOnlyNewlines(s: string, p: char -> bool)
    requires OnlyNewlines(s)
    ensures OnlyNewlines(Strip(s, p))
  {
    var a, b := StripParts(s, p);
    var r := Strip(s, p);
    forall i | 0 <= i < |r| && IsBreak(r[i]) ensures r[i] == '\n' {
      assert (r + b)[i] == r[i];
      assert s[|a| + i] == (r + b)[i];
    }
  }

  lemma TerminatedNormal(text: string)
    requires OnlyNewlines(text) && Trimmed(text, IsNewline)
    ensures NormalOverlay(TerminatedText(text))
  {
    OnlyNewlinesConcat(text, "\n");
  }

  /** Re-grounding always leaves a normal overlay. */
  lemma RegroundNormal(overlay: string, oldCore: string, newCore: string)
    ensures NormalOverlay(Reground(overlay, oldCore, newCore).0)
  {
    var kept := Sift(SplitLines(overlay), oldCore, newCore, false);
    JoinOnlyNewlines(kept);
    StripOnlyNewlines(Join(kept, "\n"), IsNewline);
    TerminatedNormal(Strip(Join(kept, "\n"), IsNewline));
  }

  lemma {:induction false} SiftSame(lines: seq<string>, core: string)
    ensures Sift(lines, core, core, false) == lines && Sift(lines, core, core, true) == []
  {
    if lines != [] {
      var n := |lines| - 1;
      SiftSame(lines[..n], core);
      assert lines == lines[..n] + [lines[n]];
    }
  }

  /** Against an unchanged core an overlay survives untouched iff it is normal. */
  lemma RegroundSameCore(overlay: string, core: string)
    ensures Reground(overlay, core, core) == (overlay, []) <==> NormalOverlay(overlay)
  {
    RegroundNormal(overlay, core, core);
    if overlay != "" && NormalOverlay(overlay) {
      NormalRegrounds(overlay, core);
    }
  }

  lemma NormalRegrounds(overlay: string, core: string)
    requires overlay != "" && NormalOverlay(overlay)
    ensures Reground(overlay, core, core) == (overlay, [])
  {
    SiftSame(SplitLines(overlay), core);
    JoinSplitLines(overlay);
    NormalText(overlay);
    StripTrimmed(DropFinalNewline(overlay), IsNewline);
  }

  lemma NormalText(overlay: string)
    requires overlay != "" && NormalOverlay(overlay)
    ensures var text := DropFinalNewline(overlay); Trimmed(text, IsNewline) && text != "" && overlay == text + "\n"
  {
    var text := overlay[..|overlay| - 1];
    assert text[0] == overlay[0] && text[|text| - 1] == overlay[|overlay| - 2];
  }

  // A kept line is only ever lost from the end of the overlay, and only if it is empty.

  predicate AllEmpty(ls: seq<string>) {
    forall k :: 0 <= k < |ls| ==> ls[k] == ""
  }

  function DropBlank(ls: seq<string>): (r: seq<string>)
    ensures r != [] ==> r[0] != ""
  {
    if ls != [] && ls[0] == "" then DropBlank(ls[1..]) else ls
  }

  lemma {:induction false} TrimLeft(ls: seq<string>)
    requires AllLines(ls)
    ensures LStrip(Join(ls, "\n"), IsNewline) == Join(DropBlank(ls), "\n")
  {
    if ls == [] || ls[0] != "" {
      NothingToTrim(ls);
    } else {
      LinesTail(ls);
      TrimLeft(ls[1..]);
      BlankFirst(ls);
    }
  }

  lemma {:induction false} DropBlankParts(ls: seq<string>) returns (blank: seq<string>)
    ensures ls == blank + DropBlank(ls) && AllEmpty(blank)
  {
    if ls == [] || ls[0] != "" {
      blank := [];
    } else {
      blank := DropBlankParts(ls[1..]);
      ConsPrefix(ls, blank, DropBlank(ls));
      blank := [ls[0]] + blank;
    }
  }

  lemma LinesTail(ls: seq<string>)
    requires AllLines(ls) && ls != []
    ensures AllLines(ls[1..])
  {
  }

  lemma NothingToTrim(ls: seq<string>)
    requires AllLines(ls) && (ls != [] ==> ls[0] != "")
    ensures LStrip(Join(ls, "\n"), IsNewline) == Join(ls, "\n")
  {
    if ls != [] {
      assert !IsBreak(ls[0][0]) && Join(ls, "\n")[0] == ls[0][0];
    }
  }

  lemma BlankFirst(ls: seq<string>)
    requires ls != [] && ls[0] == ""
    ensures LStrip(Join(ls, "\n"), IsNewline) == LStrip(Join(ls[1..], "\n"), IsNewline)
  {
    if |ls| > 1 {
      assert Join(ls, "\n") == "\n" + Join(ls[1..], "\n");
      LStripPrefix("\n", Join(ls[1..], "\n"), IsNewline);
    }
  }

  lemma {:induction false} TrimRight(ls: seq<string>) returns (rest: seq<string>, blank: seq<string>)
    requires AllLines(ls) && (ls != [] ==> ls[0] != "")
    ensures ls == rest + blank && AllEmpty(blank)
    ensures ls != [] ==> rest != [] && rest[0] == ls[0]
    ensures RStrip(Join(ls, "\n"), IsNewline) == Join(rest, "\n")
    decreases |ls|
  {
    if ls == [] {
      return [], [];
    }
    var front, last := ls[..|ls| - 1], ls[|ls| - 1];
    assert ls == front + [last];
    if last != "" {
      JoinEndsWith(front, last);
      assert !IsBreak(last[|last| - 1]);
      return ls, [];
    }
    rest, blank := TrimRight(front);
    BlankLast(front);
    blank := blank + [last];
  }

  lemma BlankLast(front: seq<string>)
    requires front != []
    ensures RStrip(Join(front + [""], "\n"), IsNewline) == RStrip(Join(front, "\n"), IsNewline)
  {
    JoinSnoc(front, "", "\n");
    assert Join(front + [""], "\n") == Join(front, "\n") + "\n";
    RStripSuffix(Join(front, "\n"), "\n", IsNewline);
  }

  lemma JoinEndsWith(front: seq<string>, last: string)
    requires last != ""
    ensures var s := Join(front + [last], "\n"); s != "" && s[|s| - 1] == last[|last| - 1]
  {
    if front == [] {
      assert front + [last] == [last];
    } else {
      JoinSnoc(front, last, "\n");
    }
  }

  /**
   * The carried overlay, line by line: exactly the non-stale lines in their order,
   * less empty lines at its two ends.
   */
  lemma CarriedLines(overlay: string, oldCore: string, newCore: string)
    returns (lead: seq<string>, trail: seq<string>)
    ensures Sift(SplitLines(overlay), oldCore, newCore, false)
         == lead + (SplitLines(Reground(overlay, oldCore, newCore).0) + trail)
    ensures AllEmpty(lead) && AllEmpty(trail)
  {
    var kept := Sift(SplitLines(overlay), oldCore, newCore, false);
    assert AllLines(kept);
    TrimLeft(kept);
    lead := DropBlankParts(kept);
    var rest, mid := DropBlank(kept), [];
    LinesOfParts(lead, rest);
    mid, trail := TrimRight(rest);
    LinesOfParts(mid, trail);
    if mid != [] {
      SplitLinesJoin(mid);
      JoinNonEmpty(mid);
    }
    assert SplitLines(TerminatedText(Join(mid, "\n"))) == mid;
  }

  lemma LinesOfParts(a: seq<string>, b: seq<string>)
    requires AllLines(a + b)
    ensures AllLines(a) && AllLines(b)
  {
    forall k | 0 <= k < |a| ensures NoBreaks(a[k]) {
      assert (a + b)[k] == a[k];
    }
    forall k | 0 <= k < |b| ensures NoBreaks(b[k]) {
      assert (a + b)[|a| + k] == b[k];
    }
  }

  lemma JoinNonEmpty(ls: seq<string>)
    requires ls != [] && ls[0] != ""
    ensures Join(ls, "\n") != ""
  {
  }
}
