// Which references a line of an overlay holds, stated without the scanner that finds them, and
// what that decides for the line when the core it refers to changes (okf_walk.py).

module LineReferences {
  import opened Text
  import opened Layers

  predicate Tickless(s: string) {
    forall i :: 0 <= i < |s| ==> s[i] != '`'
  }

  /** plains[0] `refs[0]` plains[1] `refs[1]` ..., each reference between two backticks. */
  function Weave(plains: seq<string>, refs: seq<string>): string
    requires |plains| == |refs| + 1
  {
    if refs == [] then plains[0] else plains[0] + "`" + refs[0] + "`" + Weave(plains[1..], refs[1..])
  }

  /** Text in front of a reference: its backticks, if any, are all at its end. */
  predicate Opening(p: string) {
    forall i, j :: 0 <= i < j < |p| && p[i] == '`' ==> p[j] == '`'
  }

  /** Text behind the last reference: its backticks, if any, stand together. */
  predicate Closing(p: string) {
    forall i, j, k :: 0 <= i < j < k < |p| && p[i] == '`' && p[k] == '`' ==> p[j] == '`'
  }

  /** line is plain text around these references, none of them empty. */
  predicate Woven(line: string, plains: seq<string>, refs: seq<string>) {
    && |plains| == |refs| + 1 && line == Weave(plains, refs)
    && (forall k :: 0 <= k < |refs| ==> Opening(plains[k]) && refs[k] != "" && Tickless(refs[k]))
    && Closing(plains[|refs|])
  }

  // ---- a woven line holds its references ---------------------------------------------------

  lemma TickAt(s: string, k: nat, m: nat)
    requires k <= m < |s| && s[m] == '`' && forall i :: k <= i < m ==> s[i] != '`'
    ensures FirstChar(s, '`', k) == m
  {
  }

  lemma FirstTick(a: string, b: string)
    requires Tickless(a)
    ensures FirstChar(a + "`" + b, '`', 0) == |a|
  {
    var s := a + "`" + b;
    assert s[|a|] == '`' && forall i :: 0 <= i < |a| ==> s[i] == a[i];
    TickAt(s, 0, |a|);
  }

  /** The backtick that follows text without one. */
  lemma NextTick(s: string, r: string, k: nat)
    requires k + |r| < |s| && s[k..k + |r|] == r && s[k + |r|] == '`' && Tickless(r)
    ensures FirstChar(s, '`', k) == k + |r|
  {
    forall i | k <= i < k + |r| ensures s[i] != '`' {
      assert s[i] == r[i - k];
    }
    TickAt(s, k, k + |r|);
  }

  /** Two backticks side by side hold nothing: the scanner goes on at the second. */
  lemma SkipTick(line: string, i: nat)
    requires FirstChar(line, '`', 0) == i && i + 1 < |line| && line[i + 1] == '`'
    ensures References(line) == References(line[i + 1..])
  {
    assert FirstChar(line, '`', i + 1) == i + 1;
  }

  lemma ReferenceParts(a: string, r: string, b: string)
    ensures var s, k := a + "`" + r + "`" + b, |a| + 1;
      s[k..k + |r|] == r && s[k + |r|] == '`' && s[k + |r| + 1..] == b
  {
  }

  lemma TakeReference(a: string, r: string, b: string)
    requires Tickless(a) && Tickless(r) && r != ""
    ensures References(a + "`" + r + "`" + b) == [r] + References(b)
  {
    var s := a + "`" + r + "`" + b;
    assert s == a + "`" + (r + "`" + b);
    FirstTick(a, r + "`" + b);
    ReferenceParts(a, r, b);
    NextTick(s, r, |a| + 1);
  }

  /** The text in front of a reference adds none. */
  lemma {:induction false} OpeningReference(p: string, r: string, b: string)
    requires Opening(p) && Tickless(r) && r != ""
    ensures References(p + "`" + r + "`" + b) == [r] + References(b)
    decreases |p|
  {
    var s := p + "`" + r + "`" + b;
    var i := FirstChar(p, '`', 0);
    if i == |p| {
      TakeReference(p, r, b);
    } else {
      SkipOpening(p, r, b, i);
      OpeningReference(p[i + 1..], r, b);
    }
  }

  lemma SkipOpening(p: string, r: string, b: string, i: nat)
    requires Opening(p) && i == FirstChar(p, '`', 0) < |p|
    ensures References(p + "`" + r + "`" + b) == References(p[i + 1..] + "`" + r + "`" + b)
  {
    var tail := "`" + (r + "`" + b);
    Behind(p, r, b);
    Behind(p[i + 1..], r, b);
    TickStays(p, tail, i);
    SkipTick(p + tail, i);
  }

  lemma Behind(p: string, r: string, b: string)
    ensures p + "`" + r + "`" + b == p + ("`" + (r + "`" + b))
  {
  }

  lemma TickStays(p: string, tail: string, i: nat)
    requires Opening(p) && i == FirstChar(p, '`', 0) < |p| && tail != "" && tail[0] == '`'
    ensures FirstChar(p + tail, '`', 0) == i && (p + tail)[i + 1] == '`' && (p + tail)[i + 1..] == p[i + 1..] + tail
  {
    var s := p + tail;
    assert forall k :: 0 <= k <= i ==> s[k] == p[k];
    TickAt(s, 0, i);
  }

  lemma {:induction false} ClosingEmpty(p: string)
    requires Closing(p)
    ensures References(p) == []
    decreases |p|
  {
    var i := FirstChar(p, '`', 0);
    if i < |p| && FirstChar(p, '`', i + 1) < |p| {
      var j := FirstChar(p, '`', i + 1);
      assert j == i + 1;
      ClosingEmpty(p[i + 1..]);
    }
  }

  lemma {:induction false} WovenReferences(line: string, plains: seq<string>, refs: seq<string>)
    requires Woven(line, plains, refs)
    ensures References(line) == refs
    decreases |refs|
  {
    if refs == [] {
      ClosingEmpty(plains[0]);
    } else {
      var rest := Weave(plains[1..], refs[1..]);
      WovenReferences(rest, plains[1..], refs[1..]);
      FirstReference(line, plains, refs, rest);
    }
  }

  lemma FirstReference(line: string, plains: seq<string>, refs: seq<string>, rest: string)
    requires Woven(line, plains, refs) && refs != [] && rest == Weave(plains[1..], refs[1..]) && References(rest) == refs[1..]
    ensures References(line) == refs
  {
    OpeningReference(plains[0], refs[0], rest);
    assert refs == [refs[0]] + refs[1..];
  }

  // ---- every line is woven ---------------------------------------------------------------------

  lemma WeaveCons(p: string, r: string, plains: seq<string>, refs: seq<string>)
    requires |plains| == |refs| + 1
    ensures Weave([p] + plains, [r] + refs) == p + "`" + r + "`" + Weave(plains, refs)
  {
    assert ([p] + plains)[1..] == plains && ([r] + refs)[1..] == refs;
  }

  lemma WeavePrefix(a: string, plains: seq<string>, refs: seq<string>)
    requires |plains| == |refs| + 1
    ensures Weave([a + plains[0]] + plains[1..], refs) == a + Weave(plains, refs)
  {
    if refs != [] {
      var rest := Weave(plains[1..], refs[1..]);
      assert ([a + plains[0]] + plains[1..])[1..] == plains[1..];
      assert (a + plains[0]) + "`" + refs[0] + "`" + rest == a + (plains[0] + "`" + refs[0] + "`" + rest);
    }
  }

  lemma WovenCons(a: string, r: string, rest: string, plains: seq<string>, refs: seq<string>)
    requires Tickless(a) && Tickless(r) && r != "" && Woven(rest, plains, refs)
    ensures Woven(a + "`" + r + "`" + rest, [a] + plains, [r] + refs)
  {
    WeaveCons(a, r, plains, refs);
  }

  /** A backtick in front of text that starts with one opens nothing. */
  lemma WovenSkip(a: string, rest: string, plains: seq<string>, refs: seq<string>)
    requires Tickless(a) && rest != "" && rest[0] == '`' && Woven(rest, plains, refs)
    ensures Woven(a + "`" + rest, [a + "`" + plains[0]] + plains[1..], refs)
  {
    var p := plains[0];
    WeavePrefix(a + "`", plains, refs);
    if refs == [] {
      assert rest == p;
      ClosingBehind(a, p);
    } else {
      assert p != "" ==> p[0] == '`' by { assert p != "" ==> Weave(plains, refs)[0] == p[0]; }
      OpeningBehind(a, p);
    }
  }

  lemma OpeningBehind(a: string, p: string)
    requires Tickless(a) && Opening(p) && (p != "" ==> p[0] == '`')
    ensures Opening(a + "`" + p)
  {
    var s := a + "`" + p;
    forall j | |a| <= j < |s| ensures s[j] == '`' {
      if j > |a| {
        assert s[j] == p[j - |a| - 1];
      }
    }
  }

  lemma TicksBehind(a: string, p: string, i: nat)
    requires Tickless(a) && i < |a + "`" + p| && (a + "`" + p)[i] == '`'
    ensures i >= |a|
  {
  }

  lemma ClosingBehind(a: string, p: string)
    requires Tickless(a) && Closing(p) && p != "" && p[0] == '`'
    ensures Closing(a + "`" + p)
  {
    var s, n := a + "`" + p, |a| + 1;
    forall i, j, k | 0 <= i < j < k < |s| && s[i] == '`' && s[k] == '`' ensures s[j] == '`' {
      TicksBehind(a, p, i);
      if j > n {
        assert s[j] == p[j - n] && s[k] == p[k - n];
      } else if j == n {
        assert s[j] == p[0];
      }
    }
  }

  lemma {:induction false} Unweave(line: string) returns (plains: seq<string>)
    ensures Woven(line, plains, References(line))
    decreases |line|
  {
    var i := FirstChar(line, '`', 0);
    plains := [line];
    if i < |line| {
      var j := FirstChar(line, '`', i + 1);
      if j == i + 1 < |line| {
        var rest := Unweave(line[i + 1..]);
        TickParts(line, i);
        SkipWoven(line, line[..i], line[i + 1..], rest);
        plains := [line[..i] + "`" + rest[0]] + rest[1..];
      } else if j < |line| {
        var rest := Unweave(line[j + 1..]);
        TakeWoven(line, i, j, rest);
        plains := [line[..i]] + rest;
      }
    }
  }

  lemma SkipWoven(line: string, a: string, tail: string, rest: seq<string>)
    requires line == a + "`" + tail && Tickless(a) && tail != "" && tail[0] == '`' && Woven(tail, rest, References(tail))
    ensures Woven(line, [a + "`" + rest[0]] + rest[1..], References(line))
  {
    SkipBehind(line, a, tail);
    WovenSkip(a, tail, rest, References(tail));
  }

  lemma SkipBehind(line: string, a: string, tail: string)
    requires line == a + "`" + tail && Tickless(a) && tail != "" && tail[0] == '`'
    ensures References(line) == References(tail)
  {
    FirstTick(a, tail);
    BehindTick(a, tail);
    SkipTick(line, |a|);
  }

  lemma BehindTick(a: string, tail: string)
    ensures (a + "`" + tail)[|a| + 1..] == tail
  {
  }

  lemma TakeWoven(line: string, i: nat, j: nat, rest: seq<string>)
    requires i == FirstChar(line, '`', 0) < |line| && i + 1 < j == FirstChar(line, '`', i + 1) < |line|
    requires Woven(line[j + 1..], rest, References(line[j + 1..]))
    ensures Woven(line, [line[..i]] + rest, References(line))
  {
    WovenCons(line[..i], line[i + 1..j], line[j + 1..], rest, References(line[j + 1..]));
    TwoTickParts(line, i, j);
  }

  lemma TickParts(line: string, i: nat)
    requires i < |line| && line[i] == '`'
    ensures line == line[..i] + "`" + line[i + 1..]
  {
  }

  lemma TwoTickParts(line: string, i: nat, j: nat)
    requires i < j < |line| && line[i] == '`' && line[j] == '`'
    ensures line == line[..i] + "`" + line[i + 1..j] + "`" + line[j + 1..]
  {
  }

  /** The references of a line are those it is woven from, for every line. */
  lemma ReferencesExact(line: string, refs: seq<string>)
    ensures References(line) == refs <==> exists plains: seq<string> :: Woven(line, plains, refs)
  {
    if References(line) == refs {
      var plains := Unweave(line);
    }
    if plains: seq<string> :| Woven(line, plains, refs) {
      WovenReferences(line, plains, refs);
    }
  }

  // ---- what that decides -------------------------------------------------------------------------

  /**
   * Re-grounding drops a line iff one of the references it is woven from is in the old core and not
   * in the new one, and keeps it for the carried overlay iff none is.
   */
  lemma DroppedExact(overlay: string, line: string, plains: seq<string>, refs: seq<string>, oldCore: string, newCore: string)
    requires Woven(line, plains, refs) && line in SplitLines(overlay)
    ensures line in Reground(overlay, oldCore, newCore).1 <==>
      exists k :: 0 <= k < |refs| && Contains(oldCore, refs[k]) && !Contains(newCore, refs[k])
    ensures line in Sift(SplitLines(overlay), oldCore, newCore, false) <==>
      forall k :: 0 <= k < |refs| && Contains(oldCore, refs[k]) ==> Contains(newCore, refs[k])
  {
    WovenReferences(line, plains, refs);
    SiftHolds(SplitLines(overlay), oldCore, newCore, line);
  }

  lemma {:induction false} SiftHolds(lines: seq<string>, oldCore: string, newCore: string, line: string)
    ensures forall want :: line in Sift(lines, oldCore, newCore, want) <==> line in lines && Stale(line, oldCore, newCore) == want
  {
    if lines != [] {
      var n := |lines| - 1;
      assert lines == lines[..n] + [lines[n]];
      SiftHolds(lines[..n], oldCore, newCore, line);
    }
  }
}
