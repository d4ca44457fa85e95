// Which requests a note write turns away, which ones it answers as duplicates, and what its answer
// says happened, stated apart from the checks themselves (memory_write.py).

module NoteGate {
  import opened Basics
  import opened Text
  import opened Overlay
  import opened Annotate
  import opened Rows
  import opened NoteWrite
  import Passes

  // ---- the pre-flight checks -------------------------------------------------------------------

  /** A request that reaches the store. */
  ghost predicate WellFormed(req: Request) {
    && 1 <= |Strip(req.text, IsSpace)| <= 4000
    && Identifier(req.subject) && (forall link :: link in req.links ==> Identifier(link)) && |req.links| <= 16
    && (req.fragment.Some? ==> Strip(req.fragment.value, IsSpace) != "")
  }

  /** With writing off every request is forbidden; otherwise exactly the ill-formed are invalid. */
  lemma ValidateExact(writeEnabled: bool, req: Request)
    ensures Validate(writeEnabled, req) ==
      if !writeEnabled then Some(Forbidden) else if WellFormed(req) then None else Some(InvalidParameter)
  {
    LinksExact(req.links);
  }

  lemma LinksExact(links: seq<string>)
    ensures (forall link :: link in links ==> Identifier(link)) <==> !(exists k :: 0 <= k < |links| && !Identifier(links[k]))
  {
    if link :| link in links && !Identifier(link) {
      var k :| 0 <= k < |links| && links[k] == link;
    }
  }

  // ---- duplicates ----------------------------------------------------------------------------------

  /** Four fifths of the note's tokens are in the block, and each of its numbers. */
  ghost predicate Paraphrases(note: string, block: string, lex: Lexicon) {
    && block != ""
    && (forall n :: n in lex.numbers(note) ==> n in lex.tokens(block))
    && 10 * |set t | t in lex.tokens(note) && t in lex.tokens(block)| >= 8 * |lex.tokens(note)|
  }

  lemma ParaphrasesExact(note: string, block: string, lex: Lexicon)
    ensures Paraphrases(note, block, lex) <==> Covers(block, note, lex)
  {
    assert (set t | t in lex.tokens(note) && t in lex.tokens(block)) == lex.tokens(note) * lex.tokens(block);
  }

  /** Piece k of the shown text is the first that the note paraphrases. */
  ghost predicate FirstParaphrased(note: string, pieces: seq<string>, k: nat, lex: Lexicon) {
    && k < |pieces| && Paraphrases(note, Strip(pieces[k], IsSpace), lex)
    && forall j :: 0 <= j < k ==> !Paraphrases(note, Strip(pieces[j], IsSpace), lex)
  }

  lemma {:induction false} FirstCoveringExact(pieces: seq<string>, note: string, lex: Lexicon, block: string)
    ensures FirstCovering(pieces, note, lex) == Some(block) <==>
      exists k: nat :: FirstParaphrased(note, pieces, k, lex) && block == Strip(pieces[k], IsSpace)
  {
    if pieces != [] {
      ParaphrasesExact(note, Strip(pieces[0], IsSpace), lex);
      FirstCoveringExact(pieces[1..], note, lex, block);
      if Paraphrases(note, Strip(pieces[0], IsSpace), lex) {
        if block == Strip(pieces[0], IsSpace) {
          assert FirstParaphrased(note, pieces, 0, lex);
        }
      } else {
        if k: nat :| FirstParaphrased(note, pieces[1..], k, lex) && block == Strip(pieces[1..][k], IsSpace) {
          ParaphrasedCons(note, pieces, k, lex);
        }
        if k: nat :| FirstParaphrased(note, pieces, k, lex) && block == Strip(pieces[k], IsSpace) {
          ParaphrasedTail(note, pieces, k, lex);
        }
      }
    }
  }

  lemma ParaphrasedCons(note: string, pieces: seq<string>, k: nat, lex: Lexicon)
    requires pieces != [] && !Paraphrases(note, Strip(pieces[0], IsSpace), lex) && FirstParaphrased(note, pieces[1..], k, lex)
    ensures FirstParaphrased(note, pieces, k + 1, lex)
  {
    forall j | 0 <= j < k + 1 ensures !Paraphrases(note, Strip(pieces[j], IsSpace), lex) {
      assert j > 0 ==> pieces[1..][j - 1] == pieces[j];
    }
  }

  lemma ParaphrasedTail(note: string, pieces: seq<string>, k: nat, lex: Lexicon)
    requires pieces != [] && !Paraphrases(note, Strip(pieces[0], IsSpace), lex) && FirstParaphrased(note, pieces, k, lex)
    ensures k > 0 && FirstParaphrased(note, pieces[1..], k - 1, lex)
  {
    assert k > 0;
    forall j | 0 <= j < k - 1 ensures !Paraphrases(note, Strip(pieces[1..][j], IsSpace), lex) {
      assert pieces[1..][j] == pieces[j + 1];
    }
  }

  /** What a note is compared with: the overlay of a catalog concept, the text of any other row. */
  function Shown(row: Row): string {
    if WalkOwned(row) then row.overlay.GetOr("") else row.text
  }

  /** A query stands behind this block of the row. */
  predicate Proven(row: Row, block: string) {
    if WalkOwned(row) then !Contains(block, "(unverified)") else row.sourceQuery.Some? && row.sourceQuery.value != ""
  }

  /** The block is the first piece of the shown text that the note paraphrases, and there is something to compare. */
  ghost predicate Repeats(note: string, shown: string, block: string, lex: Lexicon) {
    && lex.tokens(note) != {}
    && exists k: nat :: FirstParaphrased(note, Split(shown, "\n\n"), k, lex) && block == Strip(Split(shown, "\n\n")[k], IsSpace)
  }

  lemma NearDuplicateExact(note: string, shown: string, block: string, lex: Lexicon)
    ensures NearDuplicateBlock(note, shown, lex) == Some(block) <==> Repeats(note, shown, block, lex)
  {
    FirstCoveringExact(Split(shown, SEPARATOR), note, lex, block);
  }

  lemma ShownExact(row: Row, req: Request)
    ensures NoteText(Some(row)) == Shown(row) && (Fragment(req).None? <==> req.fragment.None?)
  {
  }

  lemma ProvenExact(row: Row, block: string)
    ensures BlockGrounded(block, row) <==> Proven(row, block)
  {
  }

  /**
   * A note is answered as a duplicate of a block iff it corrects nothing, is not in the stored text
   * word for word, repeats the block, and brings no evidence or the block has some already. Nothing
   * stored is never a duplicate.
   */
  lemma RefusedExact(row: Row, req: Request, lex: Lexicon, block: string)
    ensures Refused(Some(row), req, lex) == Some(block) <==>
      && req.fragment.None? && !Contains(Shown(row), Strip(req.text, IsSpace))
      && Repeats(Strip(req.text, IsSpace), Shown(row), block, lex)
      && (req.sourceQuery.Some? ==> Proven(row, block))
    ensures Refused(None, req, lex) == None
  {
    ShownExact(row, req);
    ProvenExact(row, block);
    NearDuplicateExact(Note(req), Shown(row), block, lex);
    RefusedIs(row, req, lex, block);
  }

  lemma RefusedIs(row: Row, req: Request, lex: Lexicon, block: string)
    ensures Refused(Some(row), req, lex) == Some(block) <==>
      && Fragment(req).None? && !Contains(NoteText(Some(row)), Note(req))
      && NearDuplicateBlock(Note(req), NoteText(Some(row)), lex) == Some(block)
      && (req.sourceQuery.None? || BlockGrounded(block, row))
  {
  }

  // ---- the answer ------------------------------------------------------------------------------------

  /** A sourced note finds its own unverified form among the blocks that stay. */
  ghost predicate UpgradesOverlay(row: Row, req: Request, lower: string -> string) {
    req.sourceQuery.GetOr("") != "" && AnyContains(RetireBlocks(row.overlay.GetOr(""), Fragment(req), lower).0, "(unverified) " + Note(req))
  }

  /** The overlay has the note already, and nothing was corrected. */
  ghost predicate OverlayHasIt(row: Row, req: Request, lower: string -> string) {
    RetireBlocks(row.overlay.GetOr(""), Fragment(req), lower).1 == 0 && Contains(row.overlay.GetOr(""), Note(req))
  }

  /** What the answer to a note over a catalog concept says: how the overlay changed, and how many blocks were retired. */
  lemma ConceptAnswer(row: Row, req: Request, now: Time, lower: string -> string)
    requires WalkOwned(row)
    ensures Passes.AnswerOf(None, Decide(Some(row), req, now, lower)) ==
      var retired := RetireBlocks(row.overlay.GetOr(""), Fragment(req), lower).1;
      if UpgradesOverlay(row, req, lower) then Passes.Written(Regrounded, retired)
      else if OverlayHasIt(row, req, lower) then Passes.AlreadyThere
      else Passes.Written(Annotated, retired)
  {
  }

  /** And over nothing, or over a standalone row, which retires no block. */
  lemma StandaloneAnswer(row: Row, req: Request, now: Time, lower: string -> string)
    requires !WalkOwned(row)
    ensures Passes.AnswerOf(None, Decide(None, req, now, lower)) == Passes.Written(Created, 0)
    ensures Passes.AnswerOf(None, Decide(Some(row), req, now, lower)) ==
      if Strip(row.text, IsSpace) != Strip(req.text, IsSpace) then Passes.Written(Superseded, 0)
      else if req.sourceQuery.GetOr("") != "" && row.sourceQuery.GetOr("") == "" then Passes.Written(Regrounded, 0)
      else Passes.AlreadyThere
  {
  }

  /** A duplicate is answered as such, whatever the note would have changed. */
  lemma DuplicateAnswer(block: string, decision: Decision)
    ensures Passes.AnswerOf(Some(block), decision) == Passes.Duplicate(block)
  {
  }
}
