// Inputs that show each expected property failing where its exact condition does: the conditions
// are reachable, one by one, from ordinary values.

module Counterexamples {
  import opened Basics
  import opened Text
  import opened Layers
  import opened Overlay
  import opened Annotate
  import opened Splitting
  import opened Rows
  import opened Reconcile
  import opened Walks
  import opened NoteWrite
  import opened Survival
  import opened Upkeep
  import Adoption
  import AsyncLifecycle
  import AuditLog
  import LinkSearch
  import Runs

  const CATALOG := "AsterixDB Dataset"

  /** A semantic row of subject s, current since time 1. */
  function SomeRow(typ: string, core: Option<string>, text: string, principal: Option<string>): Row {
    Row(RowId("s", 1), "s", typ, SEMANTIC, core, None, text, 1, None, principal, None, 0, None, None, map[])
  }

  function SomeNote(text: string): Request {
    Request("s", text, [], map[], None, None, None)
  }

  /** A concept the catalog walk brings. */
  function SomeDoc(typ: string, core: string, overlay: Option<string>): Doc {
    Doc("s", typ, Some(core), core, overlay, None, map[])
  }

  // ---- text ------------------------------------------------------------------------------

  /** One letter. */
  predicate Letter(s: string) {
    |s| == 1 && 'a' <= s[0] <= 'z'
  }

  lemma LetterIsNoSpace(s: string)
    requires Letter(s)
    ensures !IsSpace(s[0])
  {
  }

  lemma OneStrips(s: string, p: char -> bool)
    requires |s| == 1 && !p(s[0])
    ensures Strip(s, p) == s && RStrip(s, p) == s
  {
    StripTrimmed(s, p);
  }

  lemma LetterStrips(s: string)
    requires Letter(s)
    ensures Strip(s, IsSpace) == s
  {
    LetterIsNoSpace(s);
    OneStrips(s, IsSpace);
  }

  lemma LetterIdentifies(s: string)
    requires Letter(s)
    ensures Identifier(s)
  {
    assert IdentifierChar(s[0]) && s[|s| - 1] != '\n';
  }

  lemma LetterBlock(b: string)
    requires Letter(b)
    ensures Piece(b) == [b] && Blocks(b) == [b]
  {
    LetterStrips(b);
    NoneInLetter(b);
    OnePiece(b);
  }

  lemma NoneInLetter(b: string)
    requires |b| == 1
    ensures Find(b, SEPARATOR).None?
  {
    FindNone(b, SEPARATOR);
  }

  /** An accepted identifier that holds a newline. */
  lemma NewlineIdentifier(s: string)
    requires s == "a\n"
    ensures Identifier(s) && exists i :: 0 <= i < |s| && !IdentifierChar(s[i])
  {
    assert IdentifierChar(s[0]) && s[..1] == [s[0]];
    assert !IdentifierChar(s[1]);
  }

  /** A note that becomes two blocks, only the first marked. */
  lemma TwoBlockNote(note: string)
    requires note == "a\n\nb"
    ensures FormBlocks(note, false) == [MARK + "a", "b"]
  {
    SeparatorAt(note, SEPARATOR);
    assert note[..1] == "a" && note[3..] == "b";
    SplitsAt(note, 1, note[..1], note[3..]);
    PartsOf(note, note[..1], note[3..]);
    MarksFirst(note, "a", "b");
  }

  lemma SeparatorAt(note: string, w: string)
    requires |note| == 4 && w == SEPARATOR && note[0] != '\n' && note[1] == '\n' && note[2] == '\n'
    ensures Find(note, w) == Some(1)
  {
    OccursPair(note, 0);
    OccursPair(note, 1);
    FindIs(note, w, 1);
  }

  lemma PartsOf(note: string, a: string, b: string)
    requires Blocks(note) == Piece(a) + Blocks(b) && Letter(a) && Letter(b)
    ensures Blocks(note) == [a] + [b]
  {
    LetterBlock(a);
    LetterBlock(b);
  }

  lemma MarksFirst(note: string, a: string, b: string)
    requires Blocks(note) == [a] + [b]
    ensures FormBlocks(note, false) == [MARK + a, b]
  {
  }

  /** A core that does not come back from its own export: it ends in a blank. */
  lemma BlankEndedCore(core: string)
    requires core == "a "
    ensures SplitLayers(ExportBody(core, ""), core) != (core, "")
  {
    SplitExact(core, "");
    BlankIsCut(core, core[..1], IsSpace);
    BlankStays(core, IsNewline);
    SplitLinesOne(core[..1]);
    SplitLinesOne(core);
    LosesLastLine(core, core[..1]);
  }

  lemma BlankIsCut(core: string, front: string, p: char -> bool)
    requires |core| == 2 && front == core[..1] && p(core[1]) && !p(core[0])
    ensures RStrip(core, p) == front
  {
    assert RStrip(front, p) == front;
  }

  lemma BlankStays(core: string, p: char -> bool)
    requires core != "" && !p(core[|core| - 1])
    ensures RStrip(core, p) == core
  {
  }

  lemma LosesLastLine(core: string, front: string)
    requires front != "" && RStrip(core, IsSpace) == front && RStrip(core, IsNewline) == core
    requires SplitLines(front) == [front] && SplitLines(core) == [core] && front != core
    ensures !LastLineKept(core)
  {
  }

  // ---- rows --------------------------------------------------------------------------------

  /** An imported overlay over an empty core is rewritten by the next look. */
  lemma EmptyCoreRewritten(now: Time, p: Principal)
    ensures var doc := SomeDoc(CATALOG, "", Some("n\n")); !Unchanged(doc, Some(NextStored(doc, None, now, p)))
  {
    SecondLook(SomeDoc(CATALOG, "", Some("n\n")), None, now, p);
  }

  /** A note with a carriage return does not survive a walk that brings the same core. */
  lemma CarriageReturnRewritten(row: Row, req: Request, doc: Doc, now: Time, lower: string -> string)
    requires row == SomeRow(CATALOG, Some("c"), "c", Some("p")) && req == SomeNote("a\rb") && doc == SomeDoc(CATALOG, "c", None)
    ensures Unchanged(doc, Some(row)) && Decide(Some(row), req, now, lower).Rewrite?
    ensures !Unchanged(doc, Some(Decide(Some(row), req, now, lower).row))
  {
    StripTrimmed(req.text, IsSpace);
    assert req.text[1] == '\r';
    CatalogIsWalked(row);
    NothingToCarry(row, doc);
    NoteSurvivesSameCore(row, req, now, lower, doc);
  }

  /** Nor does a note on a concept with an empty core. */
  lemma EmptyCoreNoted(row: Row, req: Request, doc: Doc, now: Time, lower: string -> string)
    requires row == SomeRow(CATALOG, Some(""), "", Some("p")) && req == SomeNote("n") && doc == SomeDoc(CATALOG, "", None)
    ensures Unchanged(doc, Some(row)) && Decide(Some(row), req, now, lower).Rewrite?
    ensures !Unchanged(doc, Some(Decide(Some(row), req, now, lower).row))
  {
    NoteOfLetter(req);
    CatalogIsWalked(row);
    NothingToCarry(row, doc);
    FirstNote(row, req, now, lower, doc);
  }

  lemma NothingToCarry(row: Row, doc: Doc)
    requires row.overlay.None? && doc.overlay.None? && NewCore(doc) == OldCore(row)
    ensures Unchanged(doc, Some(row))
  {
  }

  lemma CatalogIsWalked(row: Row)
    requires row.typ == CATALOG
    ensures WalkOwned(row)
  {
  }

  lemma FirstNote(row: Row, req: Request, now: Time, lower: string -> string, doc: Doc)
    requires WalkOwned(row) && row.overlay.None? && Note(req) != "" && req.fragment.None?
    requires doc.overlay.None? && NewCore(doc) == "" == OldCore(row)
    ensures Decide(Some(row), req, now, lower).Rewrite? && !Unchanged(doc, Some(Decide(Some(row), req, now, lower).row))
  {
    FirstAnnotates(OldOverlay(row), Note(req), Sourced(req), lower);
    AnnotatedIsWritten(row, req, now, lower);
    NoteSurvivesSameCore(row, req, now, lower, doc);
  }

  lemma FirstAnnotates(overlay: string, note: string, sourced: bool, lower: string -> string)
    requires overlay == "" && note != ""
    ensures AnnotateOverlay(overlay, note, sourced, None, lower).Some?
  {
  }

  lemma AnnotatedIsWritten(row: Row, req: Request, now: Time, lower: string -> string)
    requires WalkOwned(row) && AnnotateOverlay(OldOverlay(row), Note(req), Sourced(req), Fragment(req), lower).Some?
    ensures Decide(Some(row), req, now, lower).Rewrite?
  {
  }

  /** A new note without evidence is left with the proving query of the one it replaced. */
  lemma QueryOfAnotherNote(row: Row, req: Request, now: Time, lower: string -> string)
    requires row == SomeRow(NOTE, None, "o", Some("p")).(sourceQuery := Some("q")) && req == SomeNote("n")
    ensures var d := Decide(Some(row), req, now, lower);
      d.Rewrite? && d.row.text == "n" && d.row.sourceQuery == Some("q")
  {
    LetterStrips(row.text);
    LetterStrips(req.text);
    NoteTypeIsNotWalked();
    EvidenceInherited(row, req, now, lower);
  }

  /** Writing a carried copy back reopens the row that was closed meanwhile. */
  lemma ReopenedRow(now: Time)
    ensures var carried := SomeRow(NOTE, None, "n", Some("p"));
      var rows := map[carried.id := Closed(carried, now)];
      !History(rows, ApplyAll(rows, Upserts(Reinforced([carried], map[], now)), "p"))
  {
    var carried := SomeRow(NOTE, None, "n", Some("p"));
    CarriedWriteBack(map[carried.id := Closed(carried, now)], carried, map[], "p", now);
  }

  /** Adopting an unowned row beside an owned one of its subject leaves two current ones in view. */
  lemma AdoptedTwin(row: Row, twin: Row, rows: Store)
    requires row == SomeRow(NOTE, None, "n", None)
    requires twin == row.(id := RowId("s", 2), validFrom := 2, principal := Some("p"))
    requires rows == map[row.id := row, twin.id := twin]
    ensures OneCurrent(rows) && !OneCurrent(Adoption.AfterAdopting(rows, [row], "p"))
  {
    NoteTypeIsNotWalked();
    assert rows[row.id] == row && rows[twin.id] == twin;
    assert Adoption.Clashes(rows[row.id], rows[twin.id], "p");
    assert !Adoption.Fits(rows, "p");
    Adoption.AdoptFits(rows, [row], "p", 2);
  }

  // ---- runs -------------------------------------------------------------------------------------

  /** One tenant's reinforcement takes a global row out of another tenant's sight. */
  lemma SharedRowTaken(lex: Lexicon)
    ensures var row := SomeRow(NOTE, None, "n", Some(GLOBAL));
      var s, e := Runs.State(map[row.id := row], 1), Runs.Reinforce("p", 2, 1, [row], map[]);
      Runs.Kept(s) && Runs.Enabled(s, e, lex) && Seen(row, "q") && !Seen(Runs.Next(s, e, lex).rows[row.id], "q")
  {
    var row := SomeRow(NOTE, None, "n", Some(GLOBAL));
    var s, e := Runs.State(map[row.id := row], 1), Runs.Reinforce("p", 2, 1, [row], map[]);
    NoteTypeIsNotWalked();
    Runs.SharedRowsChangeHands(s, e, lex, 0, "q");
  }

  /** An import of a concept no walk owns, and a note on it by another text. */
  const Empty := Runs.State(map[], 0)

  function Guide(core: string): Doc {
    SomeDoc("Guide", core, None)
  }

  function GuideRow(core: string): Row {
    Tag(NewRow(Guide(core), None, 1), "p")
  }

  function GuideNote(text: string): Request {
    SomeNote(text).(fragment := Some(text))
  }

  function Import(core: string): Runs.Event {
    Runs.Walk("p", 1, 1, [Guide(core)], [], None)
  }

  function Supersede(core: string, text: string): Runs.Event {
    Runs.WriteNote("p", 2, 2, [GuideRow(core)], GuideNote(text))
  }

  lemma ImportStep(core: string, lex: Lexicon)
    ensures Runs.Kept(Empty) && Runs.Enabled(Empty, Import(core), lex)
    ensures Runs.Next(Empty, Import(core), lex) == Runs.State(map[RowId("s", 1) := GuideRow(core)], 1)
  {
    ImportWrites(Guide(core));
    ImportEvent(core, lex);
    OneInsert(NewRow(Guide(core), None, 1), "p");
    GuideId(core);
    FirstStep(Import(core), NewRow(Guide(core), None, 1), lex);
  }

  lemma FirstStep(e: Runs.Event, row: Row, lex: Lexicon)
    requires Runs.Writes(e, lex) == [Insert(row)] && e.cut == 1
    ensures Runs.Next(Empty, e, lex) == Runs.State(ApplyAll(map[], [Insert(row)], e.p), e.now)
  {
    assert [Insert(row)][..1] == [Insert(row)];
  }

  lemma ImportEvent(core: string, lex: Lexicon)
    ensures Runs.Writes(Import(core), lex) == WalkWrites([Guide(core)], [], 1, None)
  {
  }

  lemma GuideId(core: string)
    ensures NewRow(Guide(core), None, 1).id == RowId("s", 1)
  {
  }

  lemma OneInsert(row: Row, p: Principal)
    ensures ApplyAll(map[], [Insert(row)], p) == map[row.id := Tag(row, p)]
  {
    assert [Insert(row)][..0] == [];
  }

  lemma ImportWrites(doc: Doc)
    ensures WalkWrites([doc], [], 1, None) == [Insert(NewRow(doc, None, 1))]
  {
    assert [doc][..0] == [];
    BundleStep([doc], 0, [], 1);
    assert [doc][..1] == [doc];
    assert Inserts([doc], [], 1) == [NewRow(doc, None, 1)];
  }

  lemma NotWalked(row: Row)
    requires row.typ == "Guide"
    ensures !WalkOwned(row)
  {
    assert row.typ[0] == 'G';
  }

  lemma GuideParts(core: string)
    ensures var row := GuideRow(core);
      && row.text == core && row.core == Some(core) && row.typ == "Guide" && row.subject == "s" && row.id == RowId("s", 1)
      && Current(row) && Seen(row, "p")
  {
  }

  lemma NoteOfLetter(req: Request)
    requires Letter(req.text)
    ensures Note(req) == req.text
  {
    LetterStrips(req.text);
  }

  lemma FragmentOfLetter(req: Request, f: string)
    requires Letter(f) && req.fragment == Some(f)
    ensures Fragment(req) == Some(f)
  {
    LetterStrips(f);
  }

  /** What Validate looks at, in its parts. */
  predicate Fits(note: string, subject: string, links: seq<string>, fragment: Option<string>) {
    |note| == 1 && Identifier(subject) && links == [] && fragment.Some? && fragment.value != ""
  }

  lemma ValidRequest(req: Request)
    requires Fits(Note(req), req.subject, req.links, Fragment(req))
    ensures Validate(true, req).None?
  {
  }

  lemma FitsLetters(text: string, subject: string)
    requires Letter(text) && Letter(subject)
    ensures Fits(text, subject, [], Some(text))
  {
    LetterIdentifies(subject);
  }

  lemma TwoWrites(row: Row, req: Request, lex: Lexicon)
    requires Fragment(req).Some? && Decide(Some(row), req, 2, lex.lower).Rewrite?
    ensures |NoteWrites(Some(row), req, 2, lex)| == 2
  {
  }

  lemma AloneInView(rows: Store, row: Row, p: Principal)
    requires rows == map[row.id := row] && Current(row) && Seen(row, p)
    ensures SubjectView(rows, [row], row.subject, p)
  {
  }

  lemma NoteEvent(rows: Store, row: Row, req: Request, lex: Lexicon)
    requires SubjectView(rows, [row], req.subject, "p") && Validate(true, req).None? && |NoteWrites(Some(row), req, 2, lex)| == 2
    ensures Runs.Enabled(Runs.State(rows, 1), Runs.WriteNote("p", 2, 2, [row], req), lex)
  {
  }

  /** A request in letters, with a fragment. */
  predicate InLetters(req: Request) {
    Letter(req.subject) && Letter(req.text) && req.links == [] && req.fragment == Some(req.text)
  }

  lemma LettersAreValid(req: Request)
    requires InLetters(req)
    ensures Validate(true, req).None?
  {
    NoteOfLetter(req);
    FragmentOfLetter(req, req.text);
    FitsLetters(req.text, req.subject);
    ValidRequest(req);
  }

  lemma OtherText(row: Row, req: Request)
    requires !WalkOwned(row) && row.core.Some? && Strip(row.text, IsSpace) == row.text && row.text != Note(req)
    ensures !KeepsLayers(row, req)
  {
  }

  lemma SupersedeStep(rows: Store, row: Row, req: Request, lex: Lexicon)
    requires rows == map[row.id := row] && Current(row) && Seen(row, "p") && row.subject == req.subject
    requires !WalkOwned(row) && row.core.Some? && Letter(row.text) && InLetters(req) && row.text != req.text
    ensures var e := Runs.WriteNote("p", 2, 2, [row], req);
      Runs.Enabled(Runs.State(rows, 1), e, lex) && Runs.Unmerges(e, lex)
  {
    LettersAreValid(req);
    FragmentOfLetter(req, req.text);
    NoteOfLetter(req);
    LetterStrips(row.text);
    OtherText(row, req);
    SupersedesRow(rows, row, req, lex);
  }

  lemma SupersedesRow(rows: Store, row: Row, req: Request, lex: Lexicon)
    requires rows == map[row.id := row] && Current(row) && Seen(row, "p") && row.subject == req.subject
    requires Validate(true, req).None? && Fragment(req).Some? && !KeepsLayers(row, req)
    ensures var e := Runs.WriteNote("p", 2, 2, [row], req);
      Runs.Enabled(Runs.State(rows, 1), e, lex) && Runs.Unmerges(e, lex)
  {
    AloneInView(rows, row, "p");
    UnlayeredIsRewritten(row, req, 2, lex.lower);
    TwoWrites(row, req, lex);
    NoteEvent(rows, row, req, lex);
  }

  lemma TwoEvents(s: Runs.State, a: Runs.Event, b: Runs.Event, lex: Lexicon)
    requires Runs.Enabled(s, a, lex) && Runs.Enabled(Runs.Next(s, a, lex), b, lex)
    ensures Runs.Valid(s, [a, b], lex)
  {
    assert [a, b][1..] == [b] && [b][1..] == [];
  }

  /**
   * From the empty store: an import files a concept no walk owns, and a note with another text over
   * it leaves a row that does not read as the merge of its layers.
   */
  lemma UnmergedRun(core: string, text: string, lex: Lexicon)
    requires core == "c" && text == "n"
    ensures var es := [Import(core), Supersede(core, text)];
      Runs.Kept(Empty) && AllLayered(Empty.rows) && Runs.Valid(Empty, es, lex) && !AllLayered(Runs.Run(Empty, es, lex).rows)
  {
    ImportStep(core, lex);
    GuideParts(core);
    NotWalked(GuideRow(core));
    SupersedeStep(map[RowId("s", 1) := GuideRow(core)], GuideRow(core), GuideNote(text), lex);
    TwoEvents(Empty, Import(core), Supersede(core, text), lex);
    assert [Import(core), Supersede(core, text)][1] == Supersede(core, text);
    Runs.RunLayers(Empty, [Import(core), Supersede(core, text)], lex);
  }

  // ---- components -------------------------------------------------------------------------------

  /** A link to a hit the limit cut is not followed. */
  lemma CutHitUnlinked(g: LinkSearch.Graph, a: string, b: string)
    requires a == "a" && b == "b" && g == map[a := LinkSearch.Concept(a, [b]), b := LinkSearch.Concept(b, [])]
    ensures LinkSearch.Reach(g, {a}, {b}, 1) != LinkSearch.Reach(g, {a}, {}, 1)
  {
    LetterIdentifies(b);
    assert LinkSearch.Edge(g, a, b);
    assert a in LinkSearch.Reach(g, {a}, {}, 0);
    assert b in LinkSearch.Reach(g, {a}, {}, 1);
  }

  /** A submission cancelled while a wait on it polls can be fetched again. */
  lemma CancelledReturns(mine: AsyncLifecycle.Ids, entry: AuditLog.AuditEntry)
    requires entry == AuditLog.AuditEntry("id", "me", 0.0, Some("h"), None, None) && mine("id")
    ensures var run := [AsyncLifecycle.Submitted(entry), AsyncLifecycle.WaitStarted(0, "id"), AsyncLifecycle.Forgot("id")];
      AsyncLifecycle.PossibleRun(mine, run) && !AsyncLifecycle.StaysForgotten(mine, AsyncLifecycle.After(run), "id")
  {
    var submit, wait, cancel := AsyncLifecycle.Submitted(entry), AsyncLifecycle.WaitStarted(0, "id"), AsyncLifecycle.Forgot("id");
    WaitedRun(mine, entry, entry.clientContextId);
    assert [submit, wait, cancel] == [submit, wait] + [cancel];
    StepPossible(mine, [submit, wait], cancel);
    var s := AsyncLifecycle.State([AuditLog.Recorded(entry)], map[0 := entry], {"id"});
    assert s.waits[0].clientContextId == "id";
    AsyncLifecycle.CancelForgetsForGood(mine, s, "id");
  }

  lemma WaitedRun(mine: AsyncLifecycle.Ids, entry: AuditLog.AuditEntry, id: string)
    requires entry.clientContextId == id && entry.handle.Some? && entry.resultHandle.None? && mine(id)
    ensures var run := [AsyncLifecycle.Submitted(entry), AsyncLifecycle.WaitStarted(0, id)];
      AsyncLifecycle.PossibleRun(mine, run)
      && AsyncLifecycle.After(run) == AsyncLifecycle.State([AuditLog.Recorded(entry)], map[0 := entry], {id})
  {
    var submit, wait := AsyncLifecycle.Submitted(entry), AsyncLifecycle.WaitStarted(0, id);
    assert [submit, wait] == [submit] + [wait] && [submit] == [] + [submit];
    StepPossible(mine, [], submit);
    KnownAlone(entry);
    StepPossible(mine, [submit], wait);
  }

  lemma StepPossible(mine: AsyncLifecycle.Ids, run: seq<AsyncLifecycle.Event>, e: AsyncLifecycle.Event)
    requires AsyncLifecycle.PossibleRun(mine, run) && AsyncLifecycle.Possible(mine, AsyncLifecycle.After(run), e)
    ensures AsyncLifecycle.PossibleRun(mine, run + [e])
    ensures AsyncLifecycle.After(run + [e]) == AsyncLifecycle.Next(AsyncLifecycle.After(run), e)
  {
    assert (run + [e])[..|run|] == run;
  }

  lemma KnownAlone(entry: AuditLog.AuditEntry)
    ensures AuditLog.Known([AuditLog.Recorded(entry)], entry.clientContextId) == Some(entry)
  {
  }
}
