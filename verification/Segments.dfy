// What sanitizing makes of a context-id segment, part by part (context_id.py).

module Segments {
  import opened Basics
  import opened Text
  import opened ContextId

  /** Parts with a run of characters between each two. */
  function Mixed(parts: seq<string>, runs: seq<string>): string
    requires |parts| == |runs| + 1
  {
    if runs == [] then parts[0] else parts[0] + runs[0] + Mixed(parts[1..], runs[1..])
  }

  /** The parts are safe and not empty, the runs are of colons and whitespace and not empty. */
  predicate PartsAndRuns(parts: seq<string>, runs: seq<string>) {
    && |parts| == |runs| + 1
    && (forall k :: 0 <= k < |parts| ==> parts[k] != "" && AllSafe(parts[k]))
    && (forall k :: 0 <= k < |runs| ==> runs[k] != "" && AllUnsafe(runs[k]))
  }

  predicate AllUnsafe(s: string) {
    forall i :: 0 <= i < |s| ==> s[i] == ':' || IsSpace(s[i])
  }

  lemma {:induction false} CollapseSafePart(a: string, rest: string)
    requires AllSafe(a)
    ensures Collapse(a + rest) == a + Collapse(rest)
    decreases |a|
  {
    if a == "" {
      assert a + rest == rest;
    } else {
      assert (a + rest)[0] == a[0] && (a + rest)[1..] == a[1..] + rest;
      CollapseSafePart(a[1..], rest);
    }
  }

  lemma CollapseRun(run: string, rest: string)
    requires run != "" && AllUnsafe(run) && rest != "" && !Unsafe(rest[0])
    ensures Collapse(run + rest) == "-" + Collapse(rest)
  {
    var s := run + rest;
    assert s[0] == run[0] && s[1..] == run[1..] + rest;
    LStripPrefix(run[1..], rest, Unsafe);
  }

  lemma MixedStarts(parts: seq<string>, runs: seq<string>)
    requires PartsAndRuns(parts, runs)
    ensures var s := Mixed(parts, runs); s != "" && s[0] == parts[0][0] && !Unsafe(s[0])
  {
  }

  lemma PartsTail(parts: seq<string>, runs: seq<string>)
    requires PartsAndRuns(parts, runs) && runs != []
    ensures PartsAndRuns(parts[1..], runs[1..])
  {
  }

  /** Every run becomes one dash, and nothing else changes. */
  lemma {:induction false} CollapseExact(parts: seq<string>, runs: seq<string>)
    requires PartsAndRuns(parts, runs)
    ensures Collapse(Mixed(parts, runs)) == Join(parts, "-")
    decreases |parts|
  {
    if runs == [] {
      CollapseSafe(parts[0]);
    } else {
      var rest := Mixed(parts[1..], runs[1..]);
      PartsTail(parts, runs);
      MixedStarts(parts[1..], runs[1..]);
      CollapseExact(parts[1..], runs[1..]);
      assert Mixed(parts, runs) == parts[0] + (runs[0] + rest);
      CollapseSafePart(parts[0], runs[0] + rest);
      CollapseRun(runs[0], rest);
    }
  }

  lemma {:induction false} MixedEnds(parts: seq<string>, runs: seq<string>)
    requires PartsAndRuns(parts, runs)
    ensures var s, last := Mixed(parts, runs), parts[|parts| - 1]; s != "" && s[|s| - 1] == last[|last| - 1] && !Unsafe(s[|s| - 1])
    decreases |parts|
  {
    if runs != [] {
      PartsTail(parts, runs);
      MixedEnds(parts[1..], runs[1..]);
    }
  }

  lemma MixedTrimmed(parts: seq<string>, runs: seq<string>)
    requires PartsAndRuns(parts, runs)
    ensures Strip(Mixed(parts, runs), IsSpace) == Mixed(parts, runs)
  {
    MixedStarts(parts, runs);
    MixedEnds(parts, runs);
    StripTrimmed(Mixed(parts, runs), IsSpace);
  }

  lemma {:induction false} JoinEnds(parts: seq<string>, sep: string)
    requires parts != [] && forall k :: 0 <= k < |parts| ==> parts[k] != ""
    ensures var s, last := Join(parts, sep), parts[|parts| - 1];
      s != "" && s[0] == parts[0][0] && s[|s| - 1] == last[|last| - 1]
  {
    if |parts| > 1 {
      JoinEnds(parts[1..], sep);
    }
  }

  /**
   * A segment of safe parts around runs of colons and whitespace, itself starting and ending with
   * no dash, sanitizes to the parts joined by one dash each.
   */
  lemma SanitizeExact(parts: seq<string>, runs: seq<string>)
    requires PartsAndRuns(parts, runs)
    requires parts[0][0] != '-' && parts[|parts| - 1][|parts[|parts| - 1]| - 1] != '-'
    ensures Sanitize(Mixed(parts, runs), None) == Join(parts, "-")
  {
    MixedTrimmed(parts, runs);
    CollapseExact(parts, runs);
    JoinEnds(parts, "-");
    StripTrimmed(Join(parts, "-"), IsDash);
  }

  /** A tag stays as it is iff it is a safe segment of at most 64 characters. */
  lemma TagExact(tag: string)
    ensures TagSegment(Some(tag)) == tag <==> SafeSegment(tag, Some(64))
    ensures TagSegment(None) == TagSegment(Some(""))
  {
    SanitizeFixed(tag, Some(64));
  }

  /** An id of another shape than three segments is not refused here; of three, the first decides. */
  lemma OwnershipMeans(me: string, id: string)
    ensures CheckOwnership(me, id) ==
      if |Split(id, "::")| == 3 && Split(id, "::")[0] != Sanitize(me, None) then Some(Forbidden) else None
  {
  }

  /** A safe segment longer than its limit is cut there and loses the dashes it then ends in; "_" stands for nothing. */
  lemma CutExact(value: string, limit: nat) returns (dashes: string)
    requires SafeSegment(value, None) && |value| > limit
    ensures forall i :: 0 <= i < |dashes| ==> dashes[i] == '-'
    ensures if value[..limit] == dashes then Sanitize(value, Some(limit)) == "_" else value[..limit] == Sanitize(value, Some(limit)) + dashes
  {
    CleanedSafe(value, None);
    SanitizeCuts(value, value[..limit], limit);
    CutStart(value, value[..limit], limit);
    dashes := CutDashes(value[..limit], IsDash);
  }

  lemma CutDashes(cut: string, p: char -> bool) returns (dashes: string)
    requires cut != "" ==> !p(cut[0])
    ensures forall i :: 0 <= i < |dashes| ==> p(dashes[i])
    ensures cut == Strip(cut, p) + dashes && (Strip(cut, p) == "" <==> cut == dashes)
  {
    LimitStrips(cut, p);
    dashes := RStripParts(cut, p);
    NothingLeft(cut, RStrip(cut, p), dashes);
  }

  lemma SanitizeCuts(value: string, cut: string, limit: nat)
    requires Cleaned(value) == value && |value| > limit && cut == value[..limit]
    ensures Sanitize(value, Some(limit)) == if Strip(cut, IsDash) == "" then "_" else Strip(cut, IsDash)
  {
  }

  lemma CutStart(value: string, cut: string, limit: nat)
    requires SafeSegment(value, None) && |value| > limit && cut == value[..limit]
    ensures cut != "" ==> !IsDash(cut[0])
  {
  }

  lemma NothingLeft(cut: string, kept: string, dashes: string)
    requires cut == kept + dashes
    ensures kept == "" <==> cut == dashes
  {
    assert |cut| == |kept| + |dashes|;
  }

  lemma LimitStrips(cut: string, p: char -> bool)
    requires cut != "" ==> !p(cut[0])
    ensures Strip(cut, p) == RStrip(cut, p)
  {
  }
}
