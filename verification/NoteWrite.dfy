// memory_write: one agent note against what is stored under its subject.
//
// Token extraction and lower-casing are parameters; the subject is already canonical.

module NoteWrite {
  import opened Basics
  import opened Text
  import opened Layers
  import opened Overlay
  import opened Annotate
  import opened Rows
  import opened Upkeep

  const MAX_TEXT_LEN := 4000
  const MAX_LINKS := 16

  /** The text functions whose tables are not part of this model. */
  datatype Lexicon = Lexicon(lower: string -> string, tokens: string -> set<string>, numbers: string -> set<string>)

  datatype Request = Request(
    subject: string,
    text: string,
    links: seq<string>,
    attrs: map<string, string>,
    sourceQuery: Option<string>,
    fragment: Option<string>,
    author: Option<string>)

  function Note(req: Request): string {
    Strip(req.text, IsSpace)
  }

  predicate Sourced(req: Request) {
    req.sourceQuery.GetOr("") != ""
  }

  function Fragment(req: Request): Option<string> {
    match req.fragment
    case None => None
    case Some(f) => Some(Strip(f, IsSpace))
  }

  /** The pre-flight checks, in their order. */
  function Validate(writeEnabled: bool, req: Request): Option<ErrorType> {
    if !writeEnabled then Some(Forbidden)
    else if Note(req) == "" || |Note(req)| > MAX_TEXT_LEN then Some(InvalidParameter)
    else if !Identifier(req.subject) || (exists k :: 0 <= k < |req.links| && !Identifier(req.links[k])) then Some(InvalidParameter)
    else if |req.links| > MAX_LINKS then Some(InvalidParameter)
    else if Fragment(req) == Some("") then Some(InvalidParameter)
    else None
  }

  // ---- near duplicates -----------------------------------------------------------

  /** At least four fifths of the note's tokens are in the block, and all of its numbers. */
  predicate Covers(block: string, note: string, lex: Lexicon) {
    && block != ""
    && lex.numbers(note) <= lex.tokens(block)
    && 5 * |lex.tokens(note) * lex.tokens(block)| >= 4 * |lex.tokens(note)|
  }

  function FirstCovering(pieces: seq<string>, note: string, lex: Lexicon): (r: Option<string>)
    ensures r.Some? ==> Covers(r.value, note, lex) && exists piece :: piece in pieces && r.value == Strip(piece, IsSpace)
    ensures r.None? ==> forall piece :: piece in pieces ==> !Covers(Strip(piece, IsSpace), note, lex)
  {
    if pieces == [] then None
    else
      var block := Strip(pieces[0], IsSpace);
      if Covers(block, note, lex) then
        assert Strip(pieces[0], IsSpace) == block;
        Some(block)
      else FirstCovering(pieces[1..], note, lex)
  }

  /** near_duplicate_block: the first stored block the note paraphrases. */
  function NearDuplicateBlock(note: string, storedText: string, lex: Lexicon): Option<string> {
    if lex.tokens(note) == {} then None else FirstCovering(Split(storedText, SEPARATOR), note, lex)
  }

  function NoteText(existing: Option<Row>): string {
    match existing
    case None => ""
    case Some(row) => if WalkOwned(row) then OldOverlay(row) else row.text
  }

  predicate BlockGrounded(block: string, row: Row) {
    if WalkOwned(row) then !Contains(block, "(unverified)") else row.sourceQuery.GetOr("") != ""
  }

  /** The paraphrase that makes memory_write refuse the note, if there is one. */
  function Refused(existing: Option<Row>, req: Request, lex: Lexicon): (r: Option<string>)
    ensures r.Some? ==> existing.Some?
  {
    if existing.None? || Fragment(req).Some? || Contains(NoteText(existing), Note(req)) then None
    else
      match NearDuplicateBlock(Note(req), NoteText(existing), lex)
      case None => None
      case Some(block) => if req.sourceQuery.None? || BlockGrounded(block, existing.value) then Some(block) else None
  }

  // ---- _reconcile ------------------------------------------------------------------

  datatype Decision = NoChange | Rewrite(action: NoteAction, row: Row, retired: int)

  function WithOptional(row: Row, req: Request, now: Time): Row {
    row.(lastUsed := Some(now), attrs := row.attrs["trust" := "1.0"] + req.attrs,
         sourceQuery := if Sourced(req) then req.sourceQuery else row.sourceQuery)
  }

  function Decide(existing: Option<Row>, req: Request, now: Time, lower: string -> string): (d: Decision)
    ensures d.Rewrite? ==> d.row.id == RowId(req.subject, now) && d.row.validFrom == now
    ensures d.Rewrite? && existing.None? ==> d.row.subject == req.subject && d.row.typ == NOTE && Current(d.row)
    ensures d.Rewrite? && existing.Some? ==>
      && d.row.subject == existing.value.subject && d.row.typ == existing.value.typ && d.row.kind == existing.value.kind
      && d.row.validTo == existing.value.validTo
  {
    var note := Note(req);
    match existing
    case None =>
      Rewrite(Created, WithOptional(Row(RowId(req.subject, now), req.subject, NOTE, SEMANTIC, None, None, note, now, None,
                                        None, None, 0, None, None, map[]), req, now), 0)
    case Some(row) =>
      var renewed := row.(id := RowId(req.subject, now), validFrom := now);
      if WalkOwned(row) then
        match AnnotateOverlay(OldOverlay(row), note, Sourced(req), Fragment(req), lower)
        case None => NoChange
        case Some(written) =>
          Rewrite(written.0,
                  renewed.(core := Some(OldCore(row)), overlay := Some(written.1),
                           text := RStrip(OldCore(row), IsNewline) + "\n\n" + written.1, lastUsed := Some(now)),
                  written.2)
      else if Strip(row.text, IsSpace) == note then
        if Sourced(req) && row.sourceQuery.GetOr("") == "" then Rewrite(Regrounded, WithOptional(renewed, req, now), 0)
        else NoChange
      else Rewrite(Superseded, WithOptional(renewed.(text := note), req, now), 0)
  }

  function Authored(row: Row, author: Option<string>): Row {
    if author.GetOr("") == "" then row else row.(attrs := row.attrs["author" := author.value])
  }

  /** The writes of one accepted request: reinforce the paraphrased row, or supersede then insert. */
  function WritesFor(existing: Option<Row>, refused: bool, decision: Decision, author: Option<string>, now: Time): seq<Write>
    requires refused ==> existing.Some?
  {
    if refused then Upserts([Bumped(existing.value, now)])
    else
      match decision
      case NoChange => []
      case Rewrite(_, row, _) => Succeed(existing, Authored(row, author), now)
  }

  function NoteWrites(existing: Option<Row>, req: Request, now: Time, lex: Lexicon): seq<Write> {
    WritesFor(existing, Refused(existing, req, lex).Some?, Decide(existing, req, now, lex.lower), req.author, now)
  }

  // ---- what a note write keeps ---------------------------------------------------------

  /** The rows _CURRENT_QUERY returns: every current row of the subject the tenant sees. */
  ghost predicate SubjectView(rows: Store, found: seq<Row>, subject: string, p: Principal) {
    && Selection(rows, found, p)
    && (forall k :: 0 <= k < |found| ==> Current(found[k]) && found[k].subject == subject)
    && (forall i :: i in rows && Current(rows[i]) && Seen(rows[i], p) && rows[i].subject == subject ==> rows[i] in found)
  }

  function First(found: seq<Row>): (r: Option<Row>)
    ensures r.Some? ==> r.value in found
    ensures r.None? ==> found == []
  {
    if found == [] then None else Some(found[0])
  }

  lemma NoteIsNote(req: Request)
    requires Note(req) != ""
    ensures IsNote(Note(req))
  {
    StrippedIsTrimmed(req.text, IsSpace);
  }

  /** A written row is filed under its subject at now, current, of the old row's kind and type, layered if walk-owned. */
  lemma DecidedRow(existing: Option<Row>, req: Request, now: Time, lower: string -> string)
    requires Note(req) != "" && Decide(existing, req, now, lower).Rewrite?
    requires existing.Some? ==> existing.value.subject == req.subject && Current(existing.value)
    ensures var row := Decide(existing, req, now, lower).row;
      && row.id == RowId(row.subject, now) && row.subject == req.subject && row.validFrom == now && Current(row)
      && WalkLayered(row) && (existing.Some? ==> row.kind == existing.value.kind && row.typ == existing.value.typ)
  {
    if existing.None? {
      NoteTypeIsNotWalked();
    } else if WalkOwned(existing.value) {
      AnnotatedRowLayered(existing.value, req, now, lower);
    }
  }

  lemma NoteTypeIsNotWalked()
    ensures !StartsWith(NOTE, "AsterixDB ")
  {
  }

  /** Annotating never touches the walk-owned core, and keeps text = merge of the layers. */
  lemma AnnotatedRowLayered(row: Row, req: Request, now: Time, lower: string -> string)
    requires WalkOwned(row) && Note(req) != "" && Decide(Some(row), req, now, lower).Rewrite?
    ensures var r := Decide(Some(row), req, now, lower).row;
      r.core == Some(OldCore(row)) && r.text == MergeLayers(OldCore(row), OldOverlay(r))
  {
    NoteIsNote(req);
    NoteBlocksRenderable(OldOverlay(row), Note(req), Sourced(req), Fragment(req), lower);
    WrittenText(OldCore(row), NoteBlocks(OldOverlay(row), Note(req), Sourced(req), Fragment(req), lower).value.1);
  }

  /** The note leaves this row's layers under its text. */
  predicate KeepsLayers(row: Row, req: Request) {
    WalkOwned(row) || row.core.None? || Strip(row.text, IsSpace) == Note(req)
  }

  /**
   * Only walk-owned rows get their text merged anew: the row a note writes over a layered one is
   * layered iff that is walk-owned, has no core, or already says exactly the note.
   */
  lemma NoteLayersExact(existing: Option<Row>, req: Request, now: Time, lower: string -> string)
    requires Note(req) != "" && Decide(existing, req, now, lower).Rewrite? && (existing.Some? ==> Layered(existing.value))
    ensures Layered(Decide(existing, req, now, lower).row) <==> existing.None? || KeepsLayers(existing.value, req)
  {
    if existing.Some? {
      if WalkOwned(existing.value) {
        AnnotatedRowLayered(existing.value, req, now, lower);
      } else {
        StandaloneLayers(existing.value, req, now, lower);
      }
    }
  }

  lemma StandaloneLayers(row: Row, req: Request, now: Time, lower: string -> string)
    requires !WalkOwned(row) && Layered(row) && Decide(Some(row), req, now, lower).Rewrite?
    ensures Layered(Decide(Some(row), req, now, lower).row) <==> row.core.None? || Strip(row.text, IsSpace) == Note(req)
  {
    StripsToNote(row.text, req);
    StandaloneRow(row, req, now, lower);
  }

  lemma StandaloneRow(row: Row, req: Request, now: Time, lower: string -> string)
    requires !WalkOwned(row) && Decide(Some(row), req, now, lower).Rewrite?
    ensures var r := Decide(Some(row), req, now, lower).row;
      r.core == row.core && r.overlay == row.overlay && r.text == if Strip(row.text, IsSpace) == Note(req) then row.text else Note(req)
  {
  }

  /** A row the note does not leave layered is superseded, not left alone. */
  lemma UnlayeredIsRewritten(row: Row, req: Request, now: Time, lower: string -> string)
    ensures !KeepsLayers(row, req) ==> Decide(Some(row), req, now, lower).Rewrite?
  {
  }

  lemma WrittenInserts(existing: Option<Row>, refused: bool, decision: Decision, author: Option<string>, now: Time, cut: nat)
    requires (refused ==> existing.Some?) && cut <= |WritesFor(existing, refused, decision, author, now)|
    ensures var ws := WritesFor(existing, refused, decision, author, now);
      (forall k :: 0 <= k < cut && ws[k].Insert? ==> Layered(ws[k].row)) <==>
      (refused || decision.NoChange? || Layered(decision.row) || cut < |ws|)
    ensures !refused && decision.Rewrite? ==>
      |WritesFor(existing, refused, decision, author, now)| == if existing.Some? then 2 else 1
  {
    var ws := WritesFor(existing, refused, decision, author, now);
    if !refused && decision.Rewrite? {
      var row := Authored(decision.row, author);
      assert Layered(row) <==> Layered(decision.row);
      assert ws[|ws| - 1] == Insert(row);
    }
  }

  /** A note supersedes a layered row of foreign type by another text. */
  predicate Unlayers(existing: Option<Row>, req: Request, lex: Lexicon) {
    existing.Some? && Refused(existing, req, lex).None? && !KeepsLayers(existing.value, req)
  }

  /** The rows a note write inserted are layered iff it is not such a note, or stopped before its insert. */
  lemma NoteInserts(existing: Option<Row>, req: Request, now: Time, lex: Lexicon, cut: nat)
    requires Note(req) != "" && (existing.Some? ==> Layered(existing.value)) && cut <= |NoteWrites(existing, req, now, lex)|
    ensures var ws := NoteWrites(existing, req, now, lex);
      (forall k :: 0 <= k < cut && ws[k].Insert? ==> Layered(ws[k].row)) <==> !(Unlayers(existing, req, lex) && cut == 2)
  {
    DecidedLayers(existing, req, now, lex.lower);
    InsertsIf(existing, Refused(existing, req, lex).Some?, Decide(existing, req, now, lex.lower), req.author, now, cut,
              existing.None? || KeepsLayers(existing.value, req));
  }

  lemma DecidedLayers(existing: Option<Row>, req: Request, now: Time, lower: string -> string)
    requires Note(req) != "" && (existing.Some? ==> Layered(existing.value))
    ensures var decision := Decide(existing, req, now, lower);
      (decision.NoChange? || Layered(decision.row)) <==> existing.None? || KeepsLayers(existing.value, req)
  {
    if Decide(existing, req, now, lower).Rewrite? {
      NoteLayersExact(existing, req, now, lower);
    } else if existing.Some? {
      UnlayeredIsRewritten(existing.value, req, now, lower);
    }
  }

  lemma InsertsIf(existing: Option<Row>, refused: bool, decision: Decision, author: Option<string>, now: Time, cut: nat, keeps: bool)
    requires (refused ==> existing.Some?) && cut <= |WritesFor(existing, refused, decision, author, now)|
    requires (decision.NoChange? || Layered(decision.row)) <==> keeps
    requires existing.None? ==> keeps
    ensures var ws := WritesFor(existing, refused, decision, author, now);
      (forall k :: 0 <= k < cut && ws[k].Insert? ==> Layered(ws[k].row)) <==> !(!refused && !keeps && cut == 2)
  {
    WrittenInserts(existing, refused, decision, author, now, cut);
  }

  lemma StripsToNote(text: string, req: Request)
    ensures text == Note(req) ==> Strip(text, IsSpace) == Note(req)
  {
    StrippedIsTrimmed(req.text, IsSpace);
    StripTrimmed(Note(req), IsSpace);
  }

  /** A note write keeps every promise, at every point it may fail. */
  lemma NoteWriteSafe(rows: Store, found: seq<Row>, req: Request, clock: Time, now: Time, lex: Lexicon, p: Principal)
    requires Inv(rows, clock) && clock < now && SubjectView(rows, found, req.subject, p) && Note(req) != ""
    ensures SafePass(rows, NoteWrites(First(found), req, now, lex), p, now)
  {
    var decision := Decide(First(found), req, now, lex.lower);
    if decision.Rewrite? {
      RewriteSafe(rows, found, req, clock, now, lex, p);
    }
    WritesForSafe(rows, found, req.subject, Refused(First(found), req, lex).Some?, decision, req.author, now, p);
  }

  lemma WritesForSafe(rows: Store, found: seq<Row>, subject: string, refused: bool, decision: Decision, author: Option<string>,
                      now: Time, p: Principal)
    requires SubjectView(rows, found, subject, p) && (refused ==> First(found).Some?)
    requires decision.Rewrite? ==> SafePass(rows, Succeed(First(found), Authored(decision.row, author), now), p, now)
    ensures SafePass(rows, WritesFor(First(found), refused, decision, author, now), p, now)
  {
    if refused {
      UpdatesSafe(rows, [Bumped(found[0], now)], p, now);
    }
  }

  lemma RewriteSafe(rows: Store, found: seq<Row>, req: Request, clock: Time, now: Time, lex: Lexicon, p: Principal)
    requires Inv(rows, clock) && clock < now && SubjectView(rows, found, req.subject, p) && Note(req) != ""
    requires Decide(First(found), req, now, lex.lower).Rewrite?
    ensures SafePass(rows, Succeed(First(found), Authored(Decide(First(found), req, now, lex.lower).row, req.author), now), p, now)
  {
    DecidedRow(First(found), req, now, lex.lower);
    SuccessorSafe(rows, found, Decide(First(found), req, now, lex.lower).row, req.author, req.subject, clock, now, p);
  }

  lemma SuccessorSafe(rows: Store, found: seq<Row>, row: Row, author: Option<string>, subject: string, clock: Time, now: Time, p: Principal)
    requires Inv(rows, clock) && clock < now && SubjectView(rows, found, subject, p)
    requires row.id == RowId(row.subject, now) && row.subject == subject && row.validFrom == now && Current(row) && WalkLayered(row)
    requires First(found).Some? ==> row.kind == First(found).value.kind
    ensures SafePass(rows, Succeed(First(found), Authored(row, author), now), p, now)
  {
    forall i | i in rows && Live(rows[i]) && Seen(rows[i], p) && rows[i].subject == row.subject && Live(row)
      ensures First(found).Some? && First(found).value.id == i
    {
      OnlyCurrent(rows, found, subject, clock, p, i);
    }
    SucceedSafe(rows, First(found), Authored(row, author), clock, now, p);
  }

  /** A live row of the subject is the first the query found, if that is live too. */
  lemma OnlyCurrent(rows: Store, found: seq<Row>, subject: string, clock: Time, p: Principal, i: RowId)
    requires Inv(rows, clock) && SubjectView(rows, found, subject, p)
    requires i in rows && Live(rows[i]) && Seen(rows[i], p) && rows[i].subject == subject
    ensures found != [] && (Live(found[0]) ==> found[0].id == i)
  {
    assert rows[i] in found && found != [];
    assert Live(found[0]) ==> Rival(rows[i], rows[found[0].id]);
  }
}
