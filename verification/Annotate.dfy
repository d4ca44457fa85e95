// The overlay branch of memory_write._reconcile: how a note lands in a concept's
// learned overlay, and the one-time evidence labelling of old overlays.

module Annotate {
  import opened Basics
  import opened Text
  import opened Layers
  import opened Overlay

  datatype NoteAction = Created | Annotated | Regrounded | Superseded

  const MARK := "(unverified) "

  predicate AnyContains(blocks: seq<string>, w: string) {
    exists k :: 0 <= k < |blocks| && Contains(blocks[k], w)
  }

  function ReplaceEach(blocks: seq<string>, before: string, after: string): (r: seq<string>)
    requires before != ""
    ensures |r| == |blocks| && forall k :: 0 <= k < |r| ==> r[k] == Replace(blocks[k], before, after)
  {
    if blocks == [] then [] else [Replace(blocks[0], before, after)] + ReplaceEach(blocks[1..], before, after)
  }

  /** The form a note is stored in: its evidence status inline. */
  function NoteForm(note: string, sourced: bool): string {
    if sourced then note else MARK + note
  }

  /** Append the note, with its evidence status inline, unless a block already says it. */
  function WithNote(blocks: seq<string>, note: string, sourced: bool): seq<string> {
    if AnyContains(blocks, note) then blocks else blocks + [NoteForm(note, sourced)]
  }

  /** The block list the write stores, with its action; None when nothing is written. */
  function NoteBlocks(overlay: string, note: string, sourced: bool, fragment: Option<string>, lower: string -> string)
    : Option<(NoteAction, seq<string>, int)>
  {
    var (kept, retired) := RetireBlocks(overlay, fragment, lower);
    if sourced && AnyContains(kept, MARK + note) then
      Some((Regrounded, WithNote(ReplaceEach(kept, MARK + note, note), note, sourced), retired))
    else if retired == 0 && Contains(overlay, note) then None
    else Some((Annotated, WithNote(kept, note, sourced), retired))
  }

  function AnnotateOverlay(overlay: string, note: string, sourced: bool, fragment: Option<string>, lower: string -> string)
    : Option<(NoteAction, string, int)>
  {
    match NoteBlocks(overlay, note, sourced, fragment, lower)
    case None => None
    case Some(written) => Some((written.0, Render(written.1), written.2))
  }

  /** text.strip() of an accepted note. */
  predicate IsNote(note: string) {
    note != "" && Trimmed(note, IsSpace)
  }

  /** A block list the write path renders: not empty, and every block stripped. */
  predicate Renderable(bs: seq<string>) {
    bs != [] && forall k :: 0 <= k < |bs| ==> IsNote(bs[k])
  }

  // ---- replacing inside a block keeps it stripped ---------------------------------

  lemma {:induction false} ReplaceTail(s: string, before: string, after: string, p: char -> bool)
    requires before != "" && s != "" && !p(s[|s| - 1]) && after != "" && !p(after[|after| - 1])
    ensures var r := Replace(s, before, after); r != "" && !p(r[|r| - 1])
    decreases |s|
  {
    match Find(s, before)
    case None =>
    case Some(i) =>
      var rest := s[i + |before|..];
      var head, tail := s[..i] + after, Replace(rest, before, after);
      ReplaceStep(s, before, after, i);
      if rest != "" {
        assert rest[|rest| - 1] == s[|s| - 1];
        ReplaceTail(rest, before, after, p);
      } else {
        ReplaceNothing(before, after);
      }
      assert head[|head| - |after|..] == after;
      LastOf(head, tail, after);
  }

  lemma ReplaceNothing(before: string, after: string)
    requires before != ""
    ensures Replace("", before, after) == ""
  {
  }

  lemma LastOf(a: string, q: string, after: string)
    requires after != "" && |after| <= |a| && a[|a| - |after|..] == after
    ensures (a + q)[|a + q| - 1] == if q == "" then after[|after| - 1] else q[|q| - 1]
  {
  }

  lemma ReplaceHead(s: string, before: string, after: string, p: char -> bool)
    requires before != "" && s != "" && !p(s[0]) && after != "" && !p(after[0])
    ensures var r := Replace(s, before, after); r != "" && !p(r[0])
  {
    if Find(s, before).Some? {
      var i := Find(s, before).value;
      var r := s[..i] + after + Replace(s[i + |before|..], before, after);
      assert r[0] == if i == 0 then after[0] else s[0];
    }
  }

  /** A text in which something was replaced contains the replacement. */
  lemma ReplaceLeaves(s: string, before: string, after: string)
    requires before != "" && Contains(s, before)
    ensures Contains(Replace(s, before, after), after)
  {
    FindNone(s, before);
    var i := Find(s, before).value;
    ContainsConcat(s[..i], after, Replace(s[i + |before|..], before, after));
  }

  /** Only a block holding the marked note changes; one that is the marked note becomes the note. */
  lemma ReplaceWhole(b: string, before: string, after: string)
    requires before != ""
    ensures !Contains(b, before) ==> Replace(b, before, after) == b
    ensures Replace(before, before, after) == after
  {
    FindNone(b, before);
    assert OccursAt(before, before, 0);
    FindIs(before, before, 0);
    assert before[..0] + after + "" == after;
  }

  // ---- what is written --------------------------------------------------------------

  lemma WithNoteRenderable(blocks: seq<string>, note: string, sourced: bool)
    requires forall k :: 0 <= k < |blocks| ==> IsNote(blocks[k])
    requires IsNote(note)
    ensures Renderable(WithNote(blocks, note, sourced)) && AnyContains(WithNote(blocks, note, sourced), note)
  {
    if !AnyContains(blocks, note) {
      var form := if sourced then note else MARK + note;
      MarkedNote(note, sourced);
      var r := blocks + [form];
      assert r[|blocks|] == form;
    }
  }

  lemma MarkedNote(note: string, sourced: bool)
    requires IsNote(note)
    ensures var form := if sourced then note else MARK + note; IsNote(form) && Contains(form, note)
  {
    if sourced {
      assert note == "" + note + "";
      ContainsConcat("", note, "");
    } else {
      var form := MARK + note;
      assert MARK[0] == '(' && form[|form| - 1] == note[|note| - 1];
      assert form == MARK + note + "";
      ContainsConcat(MARK, note, "");
    }
  }

  /** Every rendered block list is non-empty, stripped block by block, and says the note. */
  lemma NoteBlocksRenderable(overlay: string, note: string, sourced: bool, fragment: Option<string>, lower: string -> string)
    requires IsNote(note)
    ensures var w := NoteBlocks(overlay, note, sourced, fragment, lower);
      w.Some? ==> Renderable(w.value.1) && AnyContains(w.value.1, note) && w.value.2 >= 0
  {
    KeptNotes(overlay, fragment, lower);
    var kept := RetireBlocks(overlay, fragment, lower).0;
    var marked := MARK + note;
    if sourced && AnyContains(kept, marked) {
      ReplacedNotes(kept, marked, note);
      WithNoteRenderable(ReplaceEach(kept, marked, note), note, sourced);
    } else {
      WithNoteRenderable(kept, note, sourced);
    }
  }

  lemma KeptNotes(overlay: string, fragment: Option<string>, lower: string -> string)
    ensures var (kept, retired) := RetireBlocks(overlay, fragment, lower);
      retired >= 0 && forall k :: 0 <= k < |kept| ==> IsNote(kept[k])
  {
    RetireExact(overlay, fragment, lower);
  }

  lemma ReplacedNotes(kept: seq<string>, marked: string, note: string)
    requires marked != "" && IsNote(note) && forall k :: 0 <= k < |kept| ==> IsNote(kept[k])
    ensures forall k :: 0 <= k < |kept| ==> IsNote(ReplaceEach(kept, marked, note)[k])
  {
    forall k | 0 <= k < |kept| ensures IsNote(ReplaceEach(kept, marked, note)[k]) {
      ReplaceHead(kept[k], marked, note, IsSpace);
      ReplaceTail(kept[k], marked, note, IsSpace);
    }
  }

  lemma {:induction false} JoinEnds(bs: seq<string>)
    requires Renderable(bs)
    ensures var s := Join(bs, SEPARATOR); s != "" && s[0] == bs[0][0] && s[|s| - 1] == bs[|bs| - 1][|bs[|bs| - 1]| - 1]
  {
    if |bs| > 1 {
      JoinEnds(bs[1..]);
      var s, t := Join(bs, SEPARATOR), Join(bs[1..], SEPARATOR);
      assert s == bs[0] + SEPARATOR + t;
      assert s[|s| - 1] == t[|t| - 1];
    }
  }

  /** A written overlay closes with exactly one newline, and is normal iff "\n" is its only break. */
  lemma RenderedShape(bs: seq<string>)
    requires Renderable(bs)
    ensures var o := Render(bs); o != "" && RStrip(o, IsNewline) + "\n" == o
    ensures NormalOverlay(Render(bs)) <==> OnlyNewlines(Render(bs))
  {
    JoinEnds(bs);
    var s := Join(bs, SEPARATOR);
    RStripSuffix(s, "\n", IsNewline);
    var o := s + "\n";
    assert o[0] == s[0] && o[|o| - 2] == s[|s| - 1];
  }

  lemma MarkBreaks(note: string)
    ensures OnlyNewlines(MARK + note) <==> OnlyNewlines(note)
  {
    assert forall i :: 0 <= i < |MARK| ==> ' ' <= MARK[i] <= 'z';
    OnlyNewlinesParts(MARK, note);
  }

  predicate AllPlain(bs: seq<string>) {
    forall k :: 0 <= k < |bs| ==> OnlyNewlines(bs[k])
  }

  /** The breaks of a text are those of the note and of the blocks the correction leaves. */
  predicate PlainBreaks(overlay: string, note: string, fragment: Option<string>, lower: string -> string) {
    var kept := RetireBlocks(overlay, fragment, lower).0;
    OnlyNewlines(note) && AllPlain(kept)
  }

  /** The overlay a note write stores breaks lines with newlines only iff the note and the kept blocks do. */
  lemma WrittenBreaks(overlay: string, note: string, sourced: bool, fragment: Option<string>, lower: string -> string)
    requires AnnotateOverlay(overlay, note, sourced, fragment, lower).Some?
    ensures OnlyNewlines(AnnotateOverlay(overlay, note, sourced, fragment, lower).value.1) <==> PlainBreaks(overlay, note, fragment, lower)
  {
    RenderBreaks(NoteBlocks(overlay, note, sourced, fragment, lower).value.1);
    BlockBreaks(overlay, note, sourced, fragment, lower);
  }

  lemma RenderBreaks(bs: seq<string>)
    ensures OnlyNewlines(Render(bs)) <==> AllPlain(bs)
  {
    OnlyNewlinesParts(Join(bs, SEPARATOR), "\n");
    JoinBreaks(bs, SEPARATOR);
  }

  lemma BlockBreaks(overlay: string, note: string, sourced: bool, fragment: Option<string>, lower: string -> string)
    requires NoteBlocks(overlay, note, sourced, fragment, lower).Some?
    ensures AllPlain(NoteBlocks(overlay, note, sourced, fragment, lower).value.1) <==> PlainBreaks(overlay, note, fragment, lower)
  {
    var kept, marked := RetireBlocks(overlay, fragment, lower).0, MARK + note;
    MarkBreaks(note);
    ReplacedBreaks(kept, marked, note);
    WithNoteBreaks(ReplaceEach(kept, marked, note), note, sourced);
    WithNoteBreaks(kept, note, sourced);
  }

  lemma ReplacedBreaks(kept: seq<string>, marked: string, note: string)
    requires marked != "" && (OnlyNewlines(marked) <==> OnlyNewlines(note))
    ensures AllPlain(ReplaceEach(kept, marked, note)) <==> AllPlain(kept)
  {
    forall k | 0 <= k < |kept| ensures OnlyNewlines(ReplaceEach(kept, marked, note)[k]) <==> OnlyNewlines(kept[k]) {
      ReplaceBreaks(kept[k], marked, note);
    }
  }

  lemma WithNoteBreaks(bs: seq<string>, note: string, sourced: bool)
    ensures AllPlain(WithNote(bs, note, sourced)) <==> AllPlain(bs) && OnlyNewlines(note)
  {
    MarkBreaks(note);
    if AnyContains(bs, note) {
      var k :| 0 <= k < |bs| && Contains(bs[k], note);
      var a, b := ContainsParts(bs[k], note);
      OnlyNewlinesParts(a + note, b);
      OnlyNewlinesParts(a, note);
    } else {
      var r := bs + [NoteForm(note, sourced)];
      assert r[|bs|] == NoteForm(note, sourced) && forall k :: 0 <= k < |bs| ==> r[k] == bs[k];
    }
  }

  /** The text a note write stores is the merge of the two layers it stores. */
  lemma WrittenText(core: string, bs: seq<string>)
    requires Renderable(bs)
    ensures RStrip(core, IsNewline) + "\n\n" + Render(bs) == MergeLayers(core, Render(bs))
  {
    RenderedShape(bs);
    var o := Render(bs);
    Assoc(RStrip(core, IsNewline) + "\n\n", RStrip(o, IsNewline), "\n");
  }

  /** Writing the same note again, without evidence or correction, changes nothing. */
  lemma RewriteUnchanged(overlay: string, note: string, sourced: bool, fragment: Option<string>, lower: string -> string)
    requires IsNote(note)
    ensures var w := AnnotateOverlay(overlay, note, sourced, fragment, lower);
      w.Some? ==> Contains(w.value.1, note) && AnnotateOverlay(w.value.1, note, false, None, lower).None?
  {
    NoteBlocksRenderable(overlay, note, sourced, fragment, lower);
    var w := NoteBlocks(overlay, note, sourced, fragment, lower);
    if w.Some? {
      var bs := w.value.1;
      var k :| 0 <= k < |bs| && Contains(bs[k], note);
      JoinContains(bs, SEPARATOR, k);
      ContainsTrans(Join(bs, SEPARATOR), bs[k], note);
      ContainsClosed(Join(bs, SEPARATOR), note);
    }
  }

  lemma ContainsClosed(s: string, w: string)
    requires Contains(s, w)
    ensures Contains(s + "\n", w)
  {
    assert s + "\n" == "" + s + "\n";
    ContainsConcat("", s, "\n");
    ContainsTrans(s + "\n", s, w);
  }

  /**
   * Annotating: the stored overlay reads back as the kept blocks and then, unless one of them
   * already says the note, the blocks of the note, the mark of an unsourced one once, in front of
   * the first. That is the note as one block iff the note has no blank line.
   */
  lemma AnnotatedReadsBack(overlay: string, note: string, sourced: bool, fragment: Option<string>,
                           lower: string -> string, written: (NoteAction, string, int))
    requires IsNote(note)
    requires AnnotateOverlay(overlay, note, sourced, fragment, lower) == Some(written) && written.0 == Annotated
    ensures var kept := RetireBlocks(overlay, fragment, lower).0;
      Blocks(written.1) == kept + (if AnyContains(kept, note) then [] else FormBlocks(note, sourced))
    ensures written.2 == RetireBlocks(overlay, fragment, lower).1
    ensures FormBlocks(note, sourced) == [NoteForm(note, sourced)] <==> !Contains(note, SEPARATOR)
    ensures |FormBlocks(note, sourced)| >= 2 <==> Contains(note, SEPARATOR)
  {
    var kept := RetireBlocks(overlay, fragment, lower).0;
    KeptValid(overlay, fragment, lower);
    NoteReadsBack(kept, note, sourced);
    FormBlocksExact(note, sourced);
    OneBlockExact(note, sourced);
  }

  /** The blocks of a note, the mark in front of the first. */
  function FormBlocks(note: string, sourced: bool): seq<string> {
    var bs := Blocks(note);
    if sourced || bs == [] then bs else [MARK + bs[0]] + bs[1..]
  }

  lemma FormBlocksExact(note: string, sourced: bool)
    requires IsNote(note)
    ensures Blocks(NoteForm(note, sourced)) == FormBlocks(note, sourced)
  {
    if !sourced {
      BlocksPrefixed(MARK, note);
    }
  }

  lemma OneBlockExact(note: string, sourced: bool)
    requires IsNote(note)
    ensures FormBlocks(note, sourced) == [NoteForm(note, sourced)] <==> !Contains(note, SEPARATOR)
    ensures |FormBlocks(note, sourced)| >= 2 <==> Contains(note, SEPARATOR)
  {
    FormCount(note, sourced);
    if Contains(note, SEPARATOR) {
      ManyBlocks(note);
    } else {
      OneBlock(note);
    }
  }

  lemma FormCount(note: string, sourced: bool)
    ensures |FormBlocks(note, sourced)| == |Blocks(note)|
    ensures Blocks(note) == [note] ==> FormBlocks(note, sourced) == [NoteForm(note, sourced)]
  {
  }

  lemma NoteReadsBack(kept: seq<string>, note: string, sourced: bool)
    requires ValidBlocks(kept) && IsNote(note)
    ensures Blocks(Render(WithNote(kept, note, sourced))) == kept + (if AnyContains(kept, note) then [] else Blocks(NoteForm(note, sourced)))
  {
    if AnyContains(kept, note) {
      RoundTrip(kept);
    } else {
      MarkedNote(note, sourced);
      BlocksSnoc(kept, NoteForm(note, sourced));
    }
  }

  lemma KeptValid(overlay: string, fragment: Option<string>, lower: string -> string)
    ensures ValidBlocks(RetireBlocks(overlay, fragment, lower).0)
  {
    RetireExact(overlay, fragment, lower);
  }

  lemma MarkedValid(note: string)
    requires ValidBlock(note)
    ensures ValidBlock(MARK + note)
  {
    var s := MARK + note;
    assert MARK[0] == '(' && s[|s| - 1] == note[|note| - 1];
    forall j: nat ensures !OccursAt(s, SEPARATOR, j) {
      OccursHead(s, SEPARATOR, j);
      if j < |MARK| {
        assert s[j] == MARK[j] != '\n';
      } else if j + 2 <= |s| {
        assert s[j..j + 2] == note[j - |MARK|..j - |MARK| + 2];
        assert !OccursAt(note, SEPARATOR, j - |MARK|);
      }
    }
  }

  /**
   * A sourced note whose marked form a kept block contains upgrades the store in place: every kept
   * block stays where it is, with the note put for each marked occurrence (a block that is the
   * marked note becomes the note, a block without it stays), and nothing is appended.
   */
  lemma EvidenceUpgrades(overlay: string, note: string, fragment: Option<string>, lower: string -> string)
    requires IsNote(note)
    ensures var (kept, retired) := RetireBlocks(overlay, fragment, lower);
      var w := NoteBlocks(overlay, note, true, fragment, lower);
      && (w.Some? && w.value.0 == Regrounded <==> AnyContains(kept, MARK + note))
      && (AnyContains(kept, MARK + note) ==>
            && w.value.2 == retired && |w.value.1| == |kept|
            && forall k :: 0 <= k < |kept| ==> Upgraded(kept[k], w.value.1[k], note))
  {
    var kept := RetireBlocks(overlay, fragment, lower).0;
    KeptNotes(overlay, fragment, lower);
    AllUpgraded(kept, note);
  }

  lemma AllUpgraded(kept: seq<string>, note: string)
    requires IsNote(note) && forall k :: 0 <= k < |kept| ==> IsNote(kept[k])
    ensures var r := ReplaceEach(kept, MARK + note, note);
      && (forall k :: 0 <= k < |kept| ==> Upgraded(kept[k], r[k], note))
      && (AnyContains(kept, MARK + note) ==> AnyContains(r, note))
  {
    var r := ReplaceEach(kept, MARK + note, note);
    forall k | 0 <= k < |kept| ensures Upgraded(kept[k], r[k], note) {
      BlockUpgraded(kept[k], note);
    }
    if i :| 0 <= i < |kept| && Contains(kept[i], MARK + note) {
      assert Contains(r[i], note);
    }
  }

  predicate Upgraded(before: string, after: string, note: string) {
    var marked := MARK + note;
    && after == Join(Split(before, marked), note)
    && (before == marked ==> after == note)
    && (if Contains(before, marked) then Contains(after, note) else after == before)
  }

  lemma BlockUpgraded(block: string, note: string)
    requires IsNote(block) && IsNote(note)
    ensures Upgraded(block, Replace(block, MARK + note, note), note)
  {
    ReplaceIsJoin(block, MARK + note, note);
    if Contains(block, MARK + note) {
      ReplaceLeaves(block, MARK + note, note);
    }
    ReplaceWhole(block, MARK + note, note);
  }

  // ---- memory_migrate_labels ---------------------------------------------------------

  /** The block says how it was proved, so it carries no mark. */
  predicate Labelled(block: string) {
    StartsWith(block, "(unverified)") || Contains(block, "| working form:") || StartsWith(block, "Proven query,")
  }

  function LabelAll(blocks: seq<string>): (r: seq<string>)
    ensures |r| == |blocks|
    ensures forall k :: 0 <= k < |r| ==> r[k] == if Labelled(blocks[k]) then blocks[k] else MARK + blocks[k]
  {
    if blocks == [] then []
    else
      var n := |blocks| - 1;
      LabelAll(blocks[..n]) + [if Labelled(blocks[n]) then blocks[n] else MARK + blocks[n]]
  }

  function Unlabelled(blocks: seq<string>): nat {
    if blocks == [] then 0
    else Unlabelled(blocks[..|blocks| - 1]) + if Labelled(blocks[|blocks| - 1]) then 0 else 1
  }

  function Migrated(overlay: string): (string, nat) {
    var blocks := Blocks(overlay);
    if blocks == [] then ("", 0) else (Render(LabelAll(blocks)), Unlabelled(blocks))
  }

  /** migrate_overlay as written: one pass that appends to migrated and counts changes. */
  method MigrateOverlay(overlay: string) returns (newOverlay: string, changed: nat)
    ensures (newOverlay, changed) == Migrated(overlay)
  {
    var blocks := Blocks(overlay);
    changed := 0;
    var migrated: seq<string> := [];
    for n := 0 to |blocks|
      invariant migrated == LabelAll(blocks[..n]) && changed == Unlabelled(blocks[..n])
    {
      LabelStep(blocks, n);
      if Labelled(blocks[n]) {
        migrated := migrated + [blocks[n]];
      } else {
        migrated := migrated + [MARK + blocks[n]];
        changed := changed + 1;
      }
    }
    assert blocks[..|blocks|] == blocks;
    if migrated == [] {
      return "", 0;
    }
    newOverlay := Join(migrated, "\n\n") + "\n";
  }

  lemma LabelStep(blocks: seq<string>, n: nat)
    requires n < |blocks|
    ensures LabelAll(blocks[..n + 1])
         == LabelAll(blocks[..n]) + [if Labelled(blocks[n]) then blocks[n] else MARK + blocks[n]]
    ensures Unlabelled(blocks[..n + 1]) == Unlabelled(blocks[..n]) + if Labelled(blocks[n]) then 0 else 1
  {
    assert blocks[..n + 1][..n] == blocks[..n];
  }

  lemma {:induction false} AllLabelled(blocks: seq<string>)
    requires forall k :: 0 <= k < |blocks| ==> Labelled(blocks[k])
    ensures Unlabelled(blocks) == 0
  {
    if blocks != [] {
      AllLabelled(blocks[..|blocks| - 1]);
    }
  }

  /** Migrating twice is migrating once, the second pass changes nothing, and no block is lost. */
  lemma MigrateIdempotent(overlay: string)
    ensures var once := Migrated(overlay).0;
      && Migrated(once) == (once, 0)
      && Blocks(once) == LabelAll(Blocks(overlay))
  {
    var blocks := Blocks(overlay);
    BlocksValid(overlay);
    if blocks == [] {
      EmptyBlocks();
    } else {
      LabelsValid(blocks);
      RoundTrip(LabelAll(blocks));
      LabelsStay(LabelAll(blocks));
    }
  }

  lemma LabelsValid(blocks: seq<string>)
    requires ValidBlocks(blocks)
    ensures ValidBlocks(LabelAll(blocks)) && forall k :: 0 <= k < |LabelAll(blocks)| ==> Labelled(LabelAll(blocks)[k])
  {
    var r := LabelAll(blocks);
    forall k | 0 <= k < |r| ensures ValidBlock(r[k]) && Labelled(r[k]) {
      MarkedValid(blocks[k]);
      MarkedLabelled(blocks[k]);
    }
  }

  lemma LabelsStay(r: seq<string>)
    requires forall k :: 0 <= k < |r| ==> Labelled(r[k])
    ensures LabelAll(r) == r && Unlabelled(r) == 0
  {
    AllLabelled(r);
  }

  lemma MarkedLabelled(block: string)
    ensures Labelled(MARK + block)
  {
    assert (MARK + block)[0..12] == MARK[..12] == "(unverified)";
  }

  /** The block is marked, pairs a failure with its working form, or is a proven query. */
  predicate SaysHow(block: string) {
    || (|block| >= 12 && block[..12] == "(unverified)")
    || Contains(block, "| working form:")
    || (|block| >= 13 && block[..13] == "Proven query,")
  }

  lemma SaysHowExact(block: string)
    ensures Labelled(block) <==> SaysHow(block)
  {
    Prefix(block, "(unverified)");
    Prefix(block, "Proven query,");
  }

  lemma Prefix(block: string, w: string)
    ensures StartsWith(block, w) <==> |block| >= |w| && block[..|w|] == w
  {
  }

  ghost function Changed(before: seq<string>, after: seq<string>): set<int>
    requires |before| == |after|
  {
    set k | 0 <= k < |before| && after[k] != before[k]
  }

  /** Each block is where it was: as it was if it says how it was proved, else marked, and these are counted. */
  ghost predicate Relabels(before: seq<string>, after: seq<string>, count: nat) {
    && |after| == |before|
    && (forall k :: 0 <= k < |before| ==> after[k] == if SaysHow(before[k]) then before[k] else "(unverified) " + before[k])
    && count == |Changed(before, after)|
  }

  /** Migrating relabels the blocks of an overlay. */
  lemma MigratedExact(overlay: string)
    ensures Relabels(Blocks(overlay), Blocks(Migrated(overlay).0), Migrated(overlay).1)
  {
    MigrateIdempotent(overlay);
    LabelsRelabel(Blocks(overlay));
    MigratedCount(overlay);
  }

  lemma MigratedCount(overlay: string)
    ensures Migrated(overlay).1 == Unlabelled(Blocks(overlay))
  {
  }

  lemma LabelsRelabel(blocks: seq<string>)
    ensures Relabels(blocks, LabelAll(blocks), Unlabelled(blocks))
  {
    LabelsExact(blocks);
    UnlabelledCount(blocks, LabelAll(blocks));
  }

  lemma LabelsExact(blocks: seq<string>)
    ensures forall k :: 0 <= k < |blocks| ==> LabelAll(blocks)[k] == if SaysHow(blocks[k]) then blocks[k] else MARK + blocks[k]
  {
    forall k | 0 <= k < |blocks| ensures LabelAll(blocks)[k] == if SaysHow(blocks[k]) then blocks[k] else MARK + blocks[k] {
      SaysHowExact(blocks[k]);
    }
  }

  lemma {:induction false} UnlabelledCount(before: seq<string>, after: seq<string>)
    requires |after| == |before| && forall k :: 0 <= k < |before| ==> after[k] == if Labelled(before[k]) then before[k] else MARK + before[k]
    ensures Unlabelled(before) == |Changed(before, after)|
  {
    if before != [] {
      var n := |before| - 1;
      UnlabelledCount(before[..n], after[..n]);
      ChangedSnoc(before, after);
      MarkLengthens(MARK, before[n]);
    }
  }

  lemma MarkLengthens(mark: string, block: string)
    requires mark != ""
    ensures mark + block != block
  {
    assert |mark + block| > |block|;
  }

  lemma ChangedSnoc(before: seq<string>, after: seq<string>)
    requires |after| == |before| > 0
    ensures var n := |before| - 1;
      |Changed(before, after)| == |Changed(before[..n], after[..n])| + if after[n] == before[n] then 0 else 1
  {
    var n := |before| - 1;
    var front := Changed(before[..n], after[..n]);
    assert Changed(before, after) == if after[n] == before[n] then front else front + {n};
  }

  lemma EmptyBlocks()
    ensures Blocks("") == []
  {
    assert Find("", SEPARATOR).None?;
    assert Split("", SEPARATOR) == [""];
    assert StripAll([""]) == [];
  }
}
