// Learned knowledge in the store: what a second note, a following replay of proofs and a following
// walk do to the row a note wrote, over the whole store they find it in.

module Rewalks {
  import opened Basics
  import opened Text
  import opened Layers
  import opened Annotate
  import opened Rows
  import opened Reconcile
  import opened Walks
  import opened NoteWrite
  import opened Survival
  import opened Upkeep

  /** A note that is written, on a subject with at most one current row in the tenant's view. */
  ghost predicate Noting(rows: Store, found: seq<Row>, req: Request, clock: Time, now: Time, lex: Lexicon, p: Principal) {
    && Inv(rows, clock) && clock < now && p != GLOBAL
    && SubjectView(rows, found, req.subject, p) && |found| <= 1 && Note(req) != ""
    && Refused(First(found), req, lex).None? && Decide(First(found), req, now, lex.lower).Rewrite?
  }

  /** The row it writes, as the store keeps it. */
  function NotedRow(found: seq<Row>, req: Request, now: Time, lex: Lexicon, p: Principal): Row
    requires Decide(First(found), req, now, lex.lower).Rewrite?
  {
    Tag(Authored(Decide(First(found), req, now, lex.lower).row, req.author), p)
  }

  function AfterNote(rows: Store, found: seq<Row>, req: Request, now: Time, lex: Lexicon, p: Principal): Store {
    ApplyAll(rows, NoteWrites(First(found), req, now, lex), p)
  }

  lemma NoteWritten(rows: Store, found: seq<Row>, req: Request, clock: Time, now: Time, lex: Lexicon, p: Principal)
    requires Noting(rows, found, req, clock, now, lex, p)
    ensures Inv(AfterNote(rows, found, req, now, lex, p), now)
    ensures Written(rows, NoteWrites(First(found), req, now, lex), p, AfterNote(rows, found, req, now, lex, p))
  {
    NoteWriteSafe(rows, found, req, clock, now, lex, p);
    PassWritten(rows, NoteWrites(First(found), req, now, lex), clock, now, p);
  }

  lemma PassWritten(rows: Store, ws: seq<Write>, clock: Time, now: Time, p: Principal)
    requires Inv(rows, clock) && clock < now && SafePass(rows, ws, p, now) && p != GLOBAL
    ensures Inv(ApplyAll(rows, ws, p), now) && Written(rows, ws, p, ApplyAll(rows, ws, p))
  {
    SafePassKeeps(rows, ws, |ws|, p, now);
    assert ws[..|ws|] == ws;
    SafePassWrites(rows, ws, p, now);
  }

  lemma SucceedAt(stored: Option<Row>, row: Row, now: Time)
    ensures var ws := Succeed(stored, row, now);
      && |ws| >= 1 && ws[|ws| - 1] == Insert(row)
      && (stored.Some? ==> |ws| == 2 && ws[0] == Upsert(stored.value.(validTo := Some(now))))
      && (stored.None? ==> |ws| == 1)
  {
  }

  lemma SucceedStored(rows: Store, stored: Option<Row>, row: Row, now: Time, p: Principal, after: Store)
    requires Written(rows, Succeed(stored, row, now), p, after)
    ensures row.id in after && after[row.id] == Tag(row, p)
    ensures stored.Some? ==> stored.value.id in after && after[stored.value.id] == Tag(stored.value.(validTo := Some(now)), p)
    ensures forall j :: j in after && j != row.id && (stored.Some? ==> j != stored.value.id) ==> j in rows && after[j] == rows[j]
  {
    SucceedAt(stored, row, now);
    var ws := Succeed(stored, row, now);
    assert ws[|ws| - 1].row == row;
    assert stored.Some? ==> ws[0].row == stored.value.(validTo := Some(now));
  }

  /** The noted row is filed under the subject at now, and what it replaced is closed. */
  lemma NoteStored(rows: Store, found: seq<Row>, req: Request, clock: Time, now: Time, lex: Lexicon, p: Principal)
    requires Noting(rows, found, req, clock, now, lex, p)
    ensures var after, i := AfterNote(rows, found, req, now, lex, p), RowId(req.subject, now);
      && i in after && after[i] == NotedRow(found, req, now, lex, p) && after[i].id == i
      && Current(after[i]) && after[i].subject == req.subject
      && (found != [] ==> found[0].id in after && !Current(after[found[0].id]))
      && forall j :: j in after && j != i && (found != [] ==> j != found[0].id) ==> j in rows && after[j] == rows[j]
  {
    var row := Authored(Decide(First(found), req, now, lex.lower).row, req.author);
    DecidedRow(First(found), req, now, lex.lower);
    NoteWritten(rows, found, req, clock, now, lex, p);
    SucceedStored(rows, First(found), row, now, p, AfterNote(rows, found, req, now, lex, p));
  }

  /** The next look at the subject finds the noted row first. */
  lemma NoteFound(rows: Store, found: seq<Row>, req: Request, clock: Time, now: Time, lex: Lexicon, p: Principal, next: seq<Row>)
    requires Noting(rows, found, req, clock, now, lex, p)
    requires SubjectView(AfterNote(rows, found, req, now, lex, p), next, req.subject, p)
    ensures First(next) == Some(NotedRow(found, req, now, lex, p))
  {
    var after, i := AfterNote(rows, found, req, now, lex, p), RowId(req.subject, now);
    NoteStored(rows, found, req, clock, now, lex, p);
    assert after[i] in next && next != [];
    var j := next[0].id;
    if j != i {
      assert after[j] == next[0];
      OnlyOne(rows, found, req.subject, p, j);
    }
  }

  lemma OnlyOne(rows: Store, found: seq<Row>, subject: string, p: Principal, j: RowId)
    requires SubjectView(rows, found, subject, p) && |found| <= 1
    ensures j in rows && rows[j].id == j && Current(rows[j]) && Seen(rows[j], p) && rows[j].subject == subject ==>
      found != [] && found[0].id == j
  {
  }

  lemma TaggedSays(row: Row, req: Request, later: Time, lower: string -> string, p: Principal)
    requires Says(row, req, later, lower)
    ensures Says(Tag(row, p), req, later, lower)
  {
    TaggedText(row, p);
    TaggedSettled(row, Plain(req), later, lower, p);
  }

  lemma TaggedText(row: Row, p: Principal)
    ensures NoteText(Some(Tag(row, p))) == NoteText(Some(row))
  {
  }

  lemma TaggedSettled(row: Row, req: Request, later: Time, lower: string -> string, p: Principal)
    ensures Decide(Some(Tag(row, p)), req, later, lower).NoChange? <==> Decide(Some(row), req, later, lower).NoChange?
  {
  }

  /** A note written twice is written once: over the store the first left, the second has no writes. */
  lemma SecondNoteWritesNothing(rows: Store, found: seq<Row>, req: Request, clock: Time, now: Time, later: Time, lex: Lexicon,
                                p: Principal, next: seq<Row>)
    requires Noting(rows, found, req, clock, now, lex, p)
    requires SubjectView(AfterNote(rows, found, req, now, lex, p), next, req.subject, p)
    ensures NoteWrites(First(next), Plain(req), later, lex) == []
  {
    NoteFound(rows, found, req, clock, now, lex, p, next);
    WrittenSays(First(found), req, now, later, lex);
    TaggedSays(Authored(Decide(First(found), req, now, lex.lower).row, req.author), req, later, lex.lower, p);
    SaidWritesNothing(NotedRow(found, req, now, lex, p), req, later, lex);
  }

  // ---- a following replay -----------------------------------------------------------------------

  /** The query a note over a standalone row is proved by from then on: its own, or the one it inherits. */
  function ProvingQuery(row: Row, req: Request): string {
    if Sourced(req) then req.sourceQuery.value else row.sourceQuery.GetOr("")
  }

  /** The query ran, gave rows, and they contradict the text. */
  predicate Contradicts(run: string -> Option<seq<string>>, conflicts: (string, seq<string>) -> seq<string>, query: string, text: string) {
    run(query).Some? && run(query).value != [] && conflicts(text, run(query).value) != []
  }

  lemma ProofRefutes(row: Row, run: string -> Option<seq<string>>, conflicts: (string, seq<string>) -> seq<string>)
    ensures Refuted(ProofOf(row, run, conflicts)) <==> Contradicts(run, conflicts, row.sourceQuery.GetOr(""), row.text)
  {
  }

  lemma ReplacedRow(row: Row, req: Request, now: Time, lower: string -> string)
    requires !WalkOwned(row) && Strip(row.text, IsSpace) != Note(req)
    ensures var d := Decide(Some(row), req, now, lower);
      d.Rewrite? && d.row.typ == row.typ && d.row.text == Note(req) && d.row.sourceQuery.GetOr("") == ProvingQuery(row, req)
  {
    ReplacedIs(row, req, now, lower);
  }

  lemma StoredParts(row: Row, author: Option<string>, p: Principal)
    ensures var stored := Tag(Authored(row, author), p);
      stored.typ == row.typ && stored.text == row.text && stored.sourceQuery == row.sourceQuery
  {
  }

  /**
   * A note that replaces another is tried by the query it came with, and without one by the query
   * of the text it replaced: a replay that reaches it closes it iff that query contradicts the new
   * text, however the old text fared.
   */
  lemma InheritedProofDecides(rows: Store, found: seq<Row>, req: Request, clock: Time, now: Time, lex: Lexicon, p: Principal,
                              xs: seq<Replay>, x: Replay, then_: Time,
                              run: string -> Option<seq<string>>, conflicts: (string, seq<string>) -> seq<string>)
    requires Noting(rows, found, req, clock, now, lex, p)
    requires found != [] && found[0].typ == NOTE && Strip(found[0].text, IsSpace) != Note(req) && ProvingQuery(found[0], req) != ""
    requires ReplayInput(AfterNote(rows, found, req, now, lex, p), xs, p)
    requires x in xs && x.row.id == RowId(req.subject, now) && x.delivered && x.proof == ProofOf(x.row, run, conflicts)
    ensures var i := RowId(req.subject, now);
      var end := ApplyAll(AfterNote(rows, found, req, now, lex, p), Upserts(Revalidated(xs, then_)), p);
      && Replayable(x.row) && x.row.text == Note(req)
      && i in end && (!Current(end[i]) <==> Contradicts(run, conflicts, ProvingQuery(found[0], req), Note(req)))
  {
    var after := AfterNote(rows, found, req, now, lex, p);
    NoteStored(rows, found, req, clock, now, lex, p);
    NoteTypeIsNotWalked();
    ReplacedRow(found[0], req, now, lex.lower);
    StoredParts(Decide(First(found), req, now, lex.lower).row, req.author, p);
    ReplayExact(after, xs, p, then_, x);
    ProofRefutes(x.row, run, conflicts);
  }

  // ---- a following walk ------------------------------------------------------------------------

  /** The store a note on a catalog concept left, and a walk of it that brings the concept. */
  ghost predicate Rewalking(rows: Store, found: seq<Row>, req: Request, clock: Time, now: Time, lex: Lexicon, p: Principal,
                            bundle: seq<Doc>, current: seq<Row>, then_: Time, doc: Doc)
  {
    && Noting(rows, found, req, clock, now, lex, p)
    && found != [] && WalkOwned(found[0]) && found[0].kind == SEMANTIC
    && WalkInput(AfterNote(rows, found, req, now, lex, p), bundle, current, now, then_, p)
    && doc in bundle && doc.subject == req.subject && doc.overlay.None?
  }

  lemma NotedInView(rows: Store, found: seq<Row>, req: Request, clock: Time, now: Time, lex: Lexicon, p: Principal,
                    bundle: seq<Doc>, current: seq<Row>, then_: Time, doc: Doc)
    requires Rewalking(rows, found, req, clock, now, lex, p, bundle, current, then_, doc)
    ensures var noted := NotedRow(found, req, now, lex, p);
      noted in current && noted.id == RowId(req.subject, now) && noted.subject == doc.subject && Current(noted)
  {
    NoteStored(rows, found, req, clock, now, lex, p);
    DecidedRow(First(found), req, now, lex.lower);
  }

  /**
   * A walk with the core the note was written on leaves the noted row exactly as it is, iff the
   * core is not empty and the note and the blocks it kept break lines with newlines only.
   */
  lemma NoteSurvivesWalk(rows: Store, found: seq<Row>, req: Request, clock: Time, now: Time, lex: Lexicon, p: Principal,
                         bundle: seq<Doc>, current: seq<Row>, then_: Time, scope: Option<string>, doc: Doc)
    requires Rewalking(rows, found, req, clock, now, lex, p, bundle, current, then_, doc) && NewCore(doc) == OldCore(found[0])
    ensures var before := AfterNote(rows, found, req, now, lex, p);
      var after, i := AfterWalk(before, bundle, current, then_, scope, p), RowId(req.subject, now);
      && i in before && i in after
      && (after[i] == before[i] <==>
            NewCore(doc) != "" && PlainBreaks(OldOverlay(found[0]), Note(req), Fragment(req), lex.lower))
  {
    var before, noted := AfterNote(rows, found, req, now, lex, p), NotedRow(found, req, now, lex, p);
    NoteStored(rows, found, req, clock, now, lex, p);
    NotedInView(rows, found, req, clock, now, lex, p, bundle, current, then_, doc);
    DocWalked(before, bundle, current, now, then_, scope, p, doc, noted);
    NoteSurvivesSameCore(found[0], req, now, lex.lower, doc);
    TaggedUnchanged(doc, Decide(First(found), req, now, lex.lower).row, req.author, p);
  }

  lemma TaggedUnchanged(doc: Doc, row: Row, author: Option<string>, p: Principal)
    ensures Unchanged(doc, Some(Tag(Authored(row, author), p))) <==> Unchanged(doc, Some(row))
  {
  }

  /**
   * A walk with another core closes the noted row, overlay and all, and files a successor that
   * carries, in order, exactly the lines without a reference the core lost; every line it dropped
   * has one, and is still in the closed row.
   */
  lemma NoteCarriedByWalk(rows: Store, found: seq<Row>, req: Request, clock: Time, now: Time, lex: Lexicon, p: Principal,
                          bundle: seq<Doc>, current: seq<Row>, then_: Time, scope: Option<string>, doc: Doc)
    returns (lead: seq<string>, trail: seq<string>)
    requires Rewalking(rows, found, req, clock, now, lex, p, bundle, current, then_, doc)
    requires NewCore(doc) != OldCore(NotedRow(found, req, now, lex, p))
    ensures var after := AfterWalk(AfterNote(rows, found, req, now, lex, p), bundle, current, then_, scope, p);
      var noted, i, j := NotedRow(found, req, now, lex, p), RowId(req.subject, now), RowId(req.subject, then_);
      var kept := Sift(SplitLines(OldOverlay(noted)), OldCore(noted), NewCore(doc), false);
      && i in after && !Current(after[i]) && OldOverlay(after[i]) == OldOverlay(noted)
      && j in after && Current(after[j])
      && kept == lead + (SplitLines(OldOverlay(after[j])) + trail) && AllEmpty(lead) && AllEmpty(trail)
      && multiset(SplitLines(OldOverlay(noted))) == multiset(kept) + multiset(DroppedLines(doc, noted))
      && forall k :: 0 <= k < |DroppedLines(doc, noted)| ==>
           Stale(DroppedLines(doc, noted)[k], OldCore(noted), NewCore(doc)) && DroppedLines(doc, noted)[k] in SplitLines(OldOverlay(after[i]))
  {
    var noted := NotedRow(found, req, now, lex, p);
    NotedInView(rows, found, req, clock, now, lex, p, bundle, current, then_, doc);
    DocWalked(AfterNote(rows, found, req, now, lex, p), bundle, current, now, then_, scope, p, doc, noted);
    lead, trail := NoteSurvivesNewCore(doc, noted, then_);
  }
}
