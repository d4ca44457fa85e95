// What an accepted note leaves in the store, field by field, for each thing it may find under its
// subject: nothing, a catalog concept, a standalone row with the same text, or one with another.

module NotedRows {
  import opened Basics
  import opened Text
  import opened Rows
  import opened NoteWrite
  import opened Rewalks
  import opened Survival
  import opened Annotate

  /** A note that is not refused, over the rows its tenant sees. */
  ghost predicate Accepted(rows: Store, found: seq<Row>, req: Request, clock: Time, now: Time, lex: Lexicon, p: Principal) {
    && Inv(rows, clock) && clock < now && p != GLOBAL
    && SubjectView(rows, found, req.subject, p) && Note(req) != "" && Refused(First(found), req, lex).None?
  }

  predicate HasAuthor(req: Request) {
    req.author.Some? && req.author.value != ""
  }

  /** The attributes are those there were, full trust, the request's own, and its author. */
  ghost predicate Bears(before: map<string, string>, after: map<string, string>, req: Request) {
    && (forall k :: k in after <==> k in before || k == "trust" || k in req.attrs || (k == "author" && HasAuthor(req)))
    && forall k :: k in after ==>
         after[k] == if k == "author" && HasAuthor(req) then req.author.value
                     else if k in req.attrs then req.attrs[k]
                     else if k == "trust" then "1.0"
                     else before[k]
  }

  /** The fields every new version of a row takes over from the old one, and those that are now's. */
  predicate Renews(old_: Row, row: Row, now: Time, p: Principal) {
    && row.id == RowId(old_.subject, now) && row.validFrom == now && row.lastUsed == Some(now) && row.principal == Some(p)
    && row.subject == old_.subject && row.typ == old_.typ && row.kind == old_.kind && row.validTo == None
    && row.recallCount == old_.recallCount && row.lastRecalled == old_.lastRecalled
  }

  // ---- from the decision to the store ---------------------------------------------------------

  lemma Lands(rows: Store, found: seq<Row>, req: Request, clock: Time, now: Time, lex: Lexicon, p: Principal)
    requires Accepted(rows, found, req, clock, now, lex, p) && Decide(First(found), req, now, lex.lower).Rewrite?
    ensures var after, i := AfterNote(rows, found, req, now, lex, p), RowId(req.subject, now);
      i in after && after[i] == NotedRow(found, req, now, lex, p)
  {
    NoteWriteSafe(rows, found, req, clock, now, lex, p);
    PassWritten(rows, NoteWrites(First(found), req, now, lex), clock, now, p);
    var row := Authored(Decide(First(found), req, now, lex.lower).row, req.author);
    SucceedStored(rows, First(found), row, now, p, AfterNote(rows, found, req, now, lex, p));
  }

  lemma OptionalBears(row: Row, req: Request, now: Time)
    ensures Bears(row.attrs, Authored(WithOptional(row, req, now), req.author).attrs, req)
  {
  }

  // ---- nothing there --------------------------------------------------------------------------

  /** A first note is filed as a semantic Note of this tenant, with its text, its evidence and its attributes. */
  lemma CreatedExact(rows: Store, req: Request, clock: Time, now: Time, lex: Lexicon, p: Principal)
    requires Accepted(rows, [], req, clock, now, lex, p)
    ensures var after, i := AfterNote(rows, [], req, now, lex, p), RowId(req.subject, now);
      && i in after
      && after[i] == Row(i, req.subject, "Note", "semantic", None, None, Strip(req.text, IsSpace), now, None, Some(p),
                         if req.sourceQuery == Some("") then None else req.sourceQuery, 0, None, Some(now), after[i].attrs)
      && Bears(map[], after[i].attrs, req)
  {
    Lands(rows, [], req, clock, now, lex, p);
    CreatedRow(req, now, lex.lower);
  }

  lemma CreatedRow(req: Request, now: Time, lower: string -> string)
    ensures var row := Authored(Decide(None, req, now, lower).row, req.author);
      && Bears(map[], row.attrs, req)
      && row == Row(RowId(req.subject, now), req.subject, "Note", "semantic", None, None, Strip(req.text, IsSpace), now, None, None,
                    if req.sourceQuery == Some("") then None else req.sourceQuery, 0, None, Some(now), row.attrs)
  {
    OptionalBears(Row(RowId(req.subject, now), req.subject, NOTE, SEMANTIC, None, None, Note(req), now, None, None, None, 0, None,
                      None, map[]), req, now);
  }

  // ---- a standalone row -------------------------------------------------------------------------

  /** Evidence for a note that had none. */
  predicate BringsEvidence(row: Row, req: Request) {
    req.sourceQuery.GetOr("") != "" && row.sourceQuery.GetOr("") == ""
  }

  /** A row that already has the note's text is left alone unless the note brings evidence it lacks. */
  lemma SameTextExact(row: Row, req: Request, now: Time, lex: Lexicon)
    requires !WalkOwned(row) && Strip(row.text, IsSpace) == Strip(req.text, IsSpace)
    ensures NoteWrites(Some(row), req, now, lex) == [] <==> !BringsEvidence(row, req)
    ensures Refused(Some(row), req, lex).None?
  {
    Unrefused(row, req, lex);
    SameTextDecision(row, req, now, lex.lower);
    UnrefusedWrites(Some(row), req, now, lex);
  }

  lemma Unrefused(row: Row, req: Request, lex: Lexicon)
    requires !WalkOwned(row) && Strip(row.text, IsSpace) == Note(req)
    ensures Refused(Some(row), req, lex).None?
  {
    StripContained(row.text, IsSpace);
    ContainedUnrefused(row, req, lex);
  }

  lemma ContainedUnrefused(row: Row, req: Request, lex: Lexicon)
    requires Contains(NoteText(Some(row)), Note(req))
    ensures Refused(Some(row), req, lex).None?
  {
  }

  lemma UnrefusedWrites(existing: Option<Row>, req: Request, now: Time, lex: Lexicon)
    requires Refused(existing, req, lex).None?
    ensures NoteWrites(existing, req, now, lex) == [] <==> Decide(existing, req, now, lex.lower).NoChange?
  {
  }

  lemma SameTextDecision(row: Row, req: Request, now: Time, lower: string -> string)
    requires !WalkOwned(row) && Strip(row.text, IsSpace) == Note(req)
    ensures Decide(Some(row), req, now, lower).Rewrite? <==> BringsEvidence(row, req)
  {
    SameTextIs(row, req, now, lower);
  }

  lemma SameTextIs(row: Row, req: Request, now: Time, lower: string -> string)
    requires !WalkOwned(row) && Strip(row.text, IsSpace) == Note(req)
    ensures Decide(Some(row), req, now, lower)
      == if BringsEvidence(row, req) then
           Rewrite(Regrounded, WithOptional(row.(id := RowId(req.subject, now), validFrom := now), req, now), 0)
         else NoChange
  {
  }

  /**
   * A standalone row gets a new version iff the note has another text or brings evidence it lacks.
   * That one has the note's text if it is another, the note's query if it has one and else the old
   * one, and the attributes of both.
   */
  lemma RenewedExact(rows: Store, found: seq<Row>, req: Request, clock: Time, now: Time, lex: Lexicon, p: Principal)
    requires Accepted(rows, found, req, clock, now, lex, p) && found != [] && !WalkOwned(found[0])
    requires Strip(found[0].text, IsSpace) != Strip(req.text, IsSpace) || BringsEvidence(found[0], req)
    ensures var after, i, old_ := AfterNote(rows, found, req, now, lex, p), RowId(req.subject, now), found[0];
      && i in after && Renews(old_, after[i], now, p) && Bears(old_.attrs, after[i].attrs, req)
      && after[i].core == old_.core && after[i].overlay == old_.overlay
      && after[i].text == (if Strip(old_.text, IsSpace) == Strip(req.text, IsSpace) then old_.text else Strip(req.text, IsSpace))
      && after[i].sourceQuery == (if req.sourceQuery.GetOr("") != "" then req.sourceQuery else old_.sourceQuery)
  {
    var old_ := found[0];
    RenewedRow(old_, req, now, lex.lower);
    Lands(rows, found, req, clock, now, lex, p);
    OptionalBears(Renewed(old_, req, now), req, now);
    OptionalKeeps(Renewed(old_, req, now), req, now, p);
  }

  function Renewed(row: Row, req: Request, now: Time): Row {
    row.(id := RowId(req.subject, now), validFrom := now,
         text := if Strip(row.text, IsSpace) == Note(req) then row.text else Note(req))
  }

  lemma RenewedRow(row: Row, req: Request, now: Time, lower: string -> string)
    requires !WalkOwned(row) && (Strip(row.text, IsSpace) != Note(req) || BringsEvidence(row, req))
    ensures var d := Decide(Some(row), req, now, lower); d.Rewrite? && d.row == WithOptional(Renewed(row, req, now), req, now)
  {
  }

  lemma OptionalKeeps(row: Row, req: Request, now: Time, p: Principal)
    ensures var stored := Tag(Authored(WithOptional(row, req, now), req.author), p);
      stored == row.(lastUsed := Some(now), principal := Some(p), attrs := stored.attrs,
                     sourceQuery := if req.sourceQuery.GetOr("") != "" then req.sourceQuery else row.sourceQuery)
  {
  }

  // ---- a catalog concept -------------------------------------------------------------------------

  /** A note on a catalog concept changes its overlay and text: its core is fixed, its query and attributes stay. */
  lemma ConceptKept(rows: Store, found: seq<Row>, req: Request, clock: Time, now: Time, lex: Lexicon, p: Principal)
    requires Accepted(rows, found, req, clock, now, lex, p) && found != [] && WalkOwned(found[0])
    requires Decide(First(found), req, now, lex.lower).Rewrite?
    ensures var after, i, old_ := AfterNote(rows, found, req, now, lex, p), RowId(req.subject, now), found[0];
      && i in after && Renews(old_, after[i], now, p) && after[i].core == Some(OldCore(old_)) && after[i].sourceQuery == old_.sourceQuery
      && after[i].attrs == if HasAuthor(req) then old_.attrs["author" := req.author.value] else old_.attrs
  {
    Lands(rows, found, req, clock, now, lex, p);
    ConceptRow(found[0], req, now, lex.lower);
  }

  lemma ConceptRow(row: Row, req: Request, now: Time, lower: string -> string)
    requires WalkOwned(row) && Decide(Some(row), req, now, lower).Rewrite?
    ensures var r := Decide(Some(row), req, now, lower).row;
      r == row.(id := RowId(req.subject, now), validFrom := now, lastUsed := Some(now), core := Some(OldCore(row)),
                overlay := r.overlay, text := r.text)
  {
  }
}
