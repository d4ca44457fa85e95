// What happens to learned knowledge across passes: notes written twice, notes under a
// re-walked catalog, and concepts exported and imported again.

module Survival {
  import opened Basics
  import opened Text
  import opened Layers
  import opened Overlay
  import opened Annotate
  import opened Rows
  import opened Reconcile
  import opened NoteWrite
  import opened Splitting
  import Bundle

  /** The same request without evidence and without a correction. */
  function Plain(req: Request): Request {
    req.(sourceQuery := None, fragment := None)
  }

  /** A standalone row whose text is the note. */
  predicate IsNoteFor(row: Row, req: Request) {
    !WalkOwned(row) && Strip(row.text, IsSpace) == Note(req)
  }

  lemma StandaloneSettled(row: Row, req: Request, later: Time, lower: string -> string)
    ensures IsNoteFor(row, req) ==> Says(row, req, later, lower)
  {
    StandaloneContains(row, req);
    StandaloneNoChange(row, Plain(req), later, lower);
  }

  lemma StandaloneContains(row: Row, req: Request)
    ensures IsNoteFor(row, req) ==> Contains(NoteText(Some(row)), Note(req))
  {
    StripContained(row.text, IsSpace);
  }

  lemma StandaloneNoChange(row: Row, req: Request, later: Time, lower: string -> string)
    ensures IsNoteFor(row, req) && !Sourced(req) ==> Decide(Some(row), req, later, lower).NoChange?
  {
  }

  lemma AuthoredNote(row: Row, author: Option<string>, req: Request)
    ensures IsNoteFor(row, req) ==> IsNoteFor(Authored(row, author), req)
  {
  }

  lemma StripContained(s: string, p: char -> bool)
    ensures Contains(s, Strip(s, p))
  {
    var a, b := StripParts(s, p);
    Assoc(a, Strip(s, p), b);
    ContainsConcat(a, Strip(s, p), b);
  }

  /** The stored text says the note, and reconciling the plain note decides on no change. */
  ghost predicate Says(row: Row, req: Request, later: Time, lower: string -> string) {
    Contains(NoteText(Some(row)), Note(req)) && Decide(Some(row), Plain(req), later, lower).NoChange?
  }

  lemma SaidWritesNothing(row: Row, req: Request, later: Time, lex: Lexicon)
    requires Says(row, req, later, lex.lower)
    ensures NoteWrites(Some(row), Plain(req), later, lex) == []
  {
    assert Note(Plain(req)) == Note(req);
    assert Refused(Some(row), Plain(req), lex).None?;
  }

  lemma AnnotatedSays(row: Row, req: Request, now: Time, later: Time, lower: string -> string)
    requires WalkOwned(row) && Note(req) != "" && Decide(Some(row), req, now, lower).Rewrite?
    ensures Says(Authored(Decide(Some(row), req, now, lower).row, req.author), req, later, lower)
  {
    NoteIsNote(req);
    RewriteUnchanged(OldOverlay(row), Note(req), Sourced(req), Fragment(req), lower);
  }

  lemma StandaloneSays(existing: Option<Row>, req: Request, now: Time, later: Time, lex: Lexicon)
    requires Note(req) != "" && (existing.Some? ==> !WalkOwned(existing.value)) && Decide(existing, req, now, lex.lower).Rewrite?
    ensures Says(Authored(Decide(existing, req, now, lex.lower).row, req.author), req, later, lex.lower)
  {
    StandaloneText(existing, req, now, lex.lower);
    AuthoredNote(Decide(existing, req, now, lex.lower).row, req.author, req);
    StandaloneSettled(Authored(Decide(existing, req, now, lex.lower).row, req.author), req, later, lex.lower);
  }

  /** A note that was written is said by the row it was written to. */
  lemma WrittenSays(existing: Option<Row>, req: Request, now: Time, later: Time, lex: Lexicon)
    requires Note(req) != "" && Decide(existing, req, now, lex.lower).Rewrite?
    ensures Says(Authored(Decide(existing, req, now, lex.lower).row, req.author), req, later, lex.lower)
  {
    if existing.Some? && WalkOwned(existing.value) {
      AnnotatedSays(existing.value, req, now, later, lex.lower);
    } else {
      StandaloneSays(existing, req, now, later, lex);
    }
  }

  /** A note that was written says nothing new: writing it again touches no row. */
  lemma RewritingWritesNothing(existing: Option<Row>, req: Request, now: Time, later: Time, lex: Lexicon)
    requires Note(req) != "" && Decide(existing, req, now, lex.lower).Rewrite?
    ensures NoteWrites(Some(Authored(Decide(existing, req, now, lex.lower).row, req.author)), Plain(req), later, lex) == []
  {
    WrittenSays(existing, req, now, later, lex);
    SaidWritesNothing(Authored(Decide(existing, req, now, lex.lower).row, req.author), req, later, lex);
  }

  lemma StandaloneText(existing: Option<Row>, req: Request, now: Time, lower: string -> string)
    requires Note(req) != "" && (existing.Some? ==> !WalkOwned(existing.value)) && Decide(existing, req, now, lower).Rewrite?
    ensures IsNoteFor(Decide(existing, req, now, lower).row, req)
  {
    NoteTypeIsNotWalked();
    StandaloneParts(existing, req, now, lower);
    StrippedIsTrimmed(req.text, IsSpace);
    StripTrimmed(Note(req), IsSpace);
  }

  lemma StandaloneParts(existing: Option<Row>, req: Request, now: Time, lower: string -> string)
    requires (existing.Some? ==> !WalkOwned(existing.value)) && Decide(existing, req, now, lower).Rewrite?
    ensures var row := Decide(existing, req, now, lower).row;
      && row.typ == (if existing.Some? then existing.value.typ else NOTE)
      && (row.text == Note(req) || (existing.Some? && row.text == existing.value.text && Strip(row.text, IsSpace) == Note(req)))
  {
  }

  // ---- a replaced note ------------------------------------------------------------------------

  lemma ReplacedIs(row: Row, req: Request, now: Time, lower: string -> string)
    requires !WalkOwned(row) && Strip(row.text, IsSpace) != Note(req)
    ensures Decide(Some(row), req, now, lower)
      == Rewrite(Superseded, WithOptional(row.(id := RowId(req.subject, now), validFrom := now, text := Note(req)), req, now), 0)
  {
  }

  /** A standalone note replaced without evidence keeps the proof of the text it replaced. */
  lemma EvidenceInherited(row: Row, req: Request, now: Time, lower: string -> string)
    requires !WalkOwned(row) && Strip(row.text, IsSpace) != Note(req)
    ensures var d := Decide(Some(row), req, now, lower);
      d.Rewrite? && d.row.text == Note(req)
      && (d.row.sourceQuery == row.sourceQuery <==> !Sourced(req) || row.sourceQuery == req.sourceQuery)
  {
    ReplacedIs(row, req, now, lower);
  }

  // ---- a learned note under a re-walk -------------------------------------------------------

  /**
   * After a note is written on a catalog concept, a walk that brings the same core leaves it
   * alone iff the core is not empty and the note and the blocks it kept break lines with newlines
   * only.
   */
  lemma NoteSurvivesSameCore(row: Row, req: Request, now: Time, lower: string -> string, doc: Doc)
    requires WalkOwned(row) && Note(req) != "" && Decide(Some(row), req, now, lower).Rewrite?
    requires doc.overlay.None? && NewCore(doc) == OldCore(row)
    ensures Unchanged(doc, Some(Decide(Some(row), req, now, lower).row)) <==>
      NewCore(doc) != "" && PlainBreaks(OldOverlay(row), Note(req), Fragment(req), lower)
  {
    WrittenBreaks(OldOverlay(row), Note(req), Sourced(req), Fragment(req), lower);
    if NewCore(doc) == "" {
      EmptyCoreReread(row, req, now, lower);
    } else {
      NoteReread(row, req, now, lower, doc);
    }
  }

  /** Over an empty core the noted text is not empty, and it is what the next look takes for the core. */
  lemma EmptyCoreReread(row: Row, req: Request, now: Time, lower: string -> string)
    requires WalkOwned(row) && Note(req) != "" && Decide(Some(row), req, now, lower).Rewrite? && OldCore(row) == ""
    ensures OldCore(Decide(Some(row), req, now, lower).row) != ""
  {
    NoteIsNote(req);
    AnnotatedRowLayered(row, req, now, lower);
    NoteBlocksRenderable(OldOverlay(row), Note(req), Sourced(req), Fragment(req), lower);
    RenderedShape(NoteBlocks(OldOverlay(row), Note(req), Sourced(req), Fragment(req), lower).value.1);
  }

  lemma NoteReread(row: Row, req: Request, now: Time, lower: string -> string, doc: Doc)
    requires WalkOwned(row) && Note(req) != "" && Decide(Some(row), req, now, lower).Rewrite?
    requires doc.overlay.None? && NewCore(doc) == OldCore(row) && NewCore(doc) != ""
    ensures var noted := Decide(Some(row), req, now, lower).row;
      Unchanged(doc, Some(noted)) <==> OnlyNewlines(OldOverlay(noted))
  {
    NoteIsNote(req);
    AnnotatedRowLayered(row, req, now, lower);
    NoteBlocksRenderable(OldOverlay(row), Note(req), Sourced(req), Fragment(req), lower);
    var bs := NoteBlocks(OldOverlay(row), Note(req), Sourced(req), Fragment(req), lower).value.1;
    RenderedShape(bs);
    RegroundNormal(Render(bs), NewCore(doc), NewCore(doc));
    RegroundSameCore(Render(bs), NewCore(doc));
  }

  /** The overlay lines the walk reports as dropped. */
  function DroppedLines(doc: Doc, row: Row): seq<string> {
    Reground(OldOverlay(row), OldCore(row), NewCore(doc)).1
  }

  /**
   * Under a changed core the new row carries, in order, exactly the lines without a reference
   * that the core lost (less empty lines at the ends); every other line was dropped for such a
   * reference, and is still in the superseded row.
   */
  lemma NoteSurvivesNewCore(doc: Doc, row: Row, now: Time) returns (lead: seq<string>, trail: seq<string>)
    requires doc.overlay.None?
    ensures var lines := SplitLines(OldOverlay(row));
      var kept := Sift(lines, OldCore(row), NewCore(doc), false);
      && kept == lead + (SplitLines(OldOverlay(NewRow(doc, Some(row), now))) + trail) && AllEmpty(lead) && AllEmpty(trail)
      && (forall k :: 0 <= k < |kept| ==> !Stale(kept[k], OldCore(row), NewCore(doc)))
      && multiset(lines) == multiset(kept) + multiset(DroppedLines(doc, row))
    ensures forall k :: 0 <= k < |DroppedLines(doc, row)| ==>
      Stale(DroppedLines(doc, row)[k], OldCore(row), NewCore(doc))
      && DroppedLines(doc, row)[k] in SplitLines(OldOverlay(Closed(row, now)))
  {
    lead, trail := CarriedLines(OldOverlay(row), OldCore(row), NewCore(doc));
    SiftPartition(SplitLines(OldOverlay(row)), OldCore(row), NewCore(doc));
    EmptyOverlayLines(OldOverlay(row), OldCore(row), NewCore(doc));
  }

  lemma EmptyOverlayLines(overlay: string, oldCore: string, newCore: string)
    ensures Reground(overlay, oldCore, newCore).1 == Sift(SplitLines(overlay), oldCore, newCore, true)
  {
  }

  // ---- export and import -----------------------------------------------------------------------

  /** The document import builds from a parsed file: its body split against the stored core. */
  function Imported(subject: string, typ: string, body: string, storedCore: string): Doc {
    var (core, overlay) := SplitLayers(body, storedCore);
    Doc(subject, typ, Some(core), body, Some(overlay), None, map[])
  }

  /** An import leaves a concept with a core alone iff the split gives its own layers back. */
  lemma ImportUnchanged(row: Row, core: string, body: string)
    requires row.core == Some(core) && core != ""
    ensures Unchanged(Imported(row.subject, row.typ, body, core), Some(row)) <==> SplitLayers(body, core) == (core, OldOverlay(row))
  {
  }

  /**
   * Importing an untouched export of a layered concept, whoever owns it, restores its metadata and
   * reconciles as unchanged iff its layers are splittable.
   */
  lemma ImportIsNoOp<V(!new)>(row: Row, core: string, keys: seq<string>, meta: map<string, V>, related: seq<(string, string)>,
                              enc: V -> string, read: string -> V)
    requires row.core == Some(core) && core != "" && Layered(row)
    requires Bundle.GoodKeys(keys) && Bundle.Codec(enc, read) && Bundle.Select(keys, meta) != map[]
    requires var t := RStrip(row.text, IsSpace); Bundle.PlainBody(t) && (t != "" ==> t[0] != '\n')
    requires forall k :: 0 <= k < |related| ==> NoBreaks(related[k].0) && NoBreaks(related[k].1)
    ensures var parsed := Bundle.ParseFrontmatter(Bundle.RenderConcept(keys, meta, row.text, related, enc), read);
      && parsed.0 == Bundle.Select(keys, meta)
      && (Unchanged(Imported(row.subject, row.typ, Bundle.DropRelated(parsed.1), core), Some(row)) <==> Splittable(core, OldOverlay(row)))
  {
    var parsed := Bundle.ParseFrontmatter(Bundle.RenderConcept(keys, meta, row.text, related, enc), read);
    Bundle.ExportImport(keys, meta, core, OldOverlay(row), related, enc, read);
    ImportUnchanged(row, core, Bundle.DropRelated(parsed.1));
  }

  /** Whatever a bundle file says, an import never changes a stored core: edits become overlay. */
  lemma ImportKeepsCore(row: Row, core: string, body: string, now: Time)
    requires row.core == Some(core) && core != ""
    ensures var doc := Imported(row.subject, row.typ, body, core);
      NewRow(doc, Some(row), now).core == row.core
      && (Unchanged(doc, Some(row)) <==> SplitLayers(body, core).1 == OldOverlay(row))
  {
  }
}
