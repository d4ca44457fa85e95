# The AsterixDB MCP gateway's agent memory, modelled and proved

The gateway keeps an agent memory in AsterixDB: rows filed by subject and time, each current or
closed, catalog concepts split into a walk-owned `core` and a learned `overlay` that `text` merges.
A catalog walk, agent notes, recall reinforcement, decay, proof replay, deduplication and adoption
all rewrite that store. This project models the store as a map, every pass as the writes it makes,
and proves what any run of any passes keeps, including passes cut short by a failed write. Around
the store it models the string layer underneath it (merging, re-grounding, overlay blocks, the
bundle file format), link search, plan authorization, the permit pool, the audit log with the async
query lifecycle, distillation and error-to-fix capture, the index-health advice, the statement
normalizer and the context-id codec.

`dafny verify dfyconfig.toml` checks everything.

## Reading order

- `Basics`, `Text`, `Characters`, `Ordering`: options and results; Python's `strip`, `split`, `join`,
  `splitlines`, `replace` and `str` of a number as recursive functions with their laws; the character
  classes and what a line is; `sorted`.
- `Layers`, `LineReferences`, `Overlay`, `Annotate`, `Splitting`, `Bundle`: the two text layers and
  their codecs.
- `Rows`: the store, its invariant `Inv`, what history and ownership mean (`History`, `Frame`), and
  why a *safe pass* keeps them wherever it stops. `Reconcile`, `Walks`, `WalkRows` (the catalog walk),
  `NoteWrite`, `NoteGate`, `Survival`, `NotedRows` (agent notes), `Upkeep`, `Outcomes` (reinforce,
  decay, replay), `Dedup`, `Adoption`, `Rewalks` (a second note, a following replay and a following
  walk, over the store), then `Runs` (any interleaving of passes of any tenants). `Client` and
  `Passes` are the guarded client and the passes as loops of calls to it.
- `LinkSearch`, `PlanPolicy`, `Permits`, `AuditLog`, `AsyncLifecycle`, `Submission`, `Distill` with
  `Distilled`, `Capture`, `IndexHealth`, `StatementGuard` with `StatementParts`, `ContextId` with
  `Segments`: one component each.
- `Counterexamples`: an input for each condition below under which the code does otherwise.

A loop is a method proved against a recursive function of its inputs; the lemmas are about that
function, and those named `...Exact` or `...Means` say what it is without it. Names of Python
functions are kept where Dafny's style allows.

## Conventions and choices

- A row id is the pair of subject and time (`Rows.IdTextInjective` says why that loses nothing).
  Times are natural numbers and the clock of a run strictly increases.
- One current fact per subject is stated per view: of two current semantic rows of one subject no
  tenant sees both. Two tenants may each own one.
- A dict whose iteration order matters is the sequence of its entries in insertion order.
- `IsSpace` and `IsBreak` are written out for Python's `str`; `lower`, tokenizing, word characters,
  statement trimming and `subjects_from_statement` are parameters. The last lists each subject once
  (`src/asterixdb_mcp/tools/memory_notes.py:324-330`).
- JSON in frontmatter is an abstract codec whose text has no line break and no outer whitespace
  and decodes to what was encoded.
- A store call may fail without effect, or take effect and still report failure; a client marked
  `reliable` is one whose calls do neither, and every pass over it completes.

## Where the code does not do what one would expect

Where an expected property fails, the exact condition under which it holds is proved for all inputs,
and an input that fails it is in `Counterexamples` (its lemma is named last).

- Re-walking settles every document with a non-empty core; an empty core with a carried or imported
  overlay is rewritten by the next one (`Walks.SecondLook`, `Walks.Converges`; `EmptyCoreRewritten`).
- Only walk-owned rows get `text` merged anew: a note that supersedes a row of another type that has
  a core leaves the stored layers under a different text. Over a run every row with a core reads as
  the merge of its layers if and only if no note did that (`NoteWrite.NoteLayersExact`,
  `Runs.RunLayers`). Two passes from the empty store reach such a row (`UnmergedRun`).
- A standalone note replaced without evidence keeps the proving query of the text it replaced
  (`Survival.EvidenceInherited`), and a later replay closes it if and only if that query contradicts
  the new text (`Rewalks.InheritedProofDecides`; `QueryOfAnotherNote`).
- A noted concept survives a re-walk of an unchanged core if and only if that core is not empty and
  the note and the blocks it kept break lines with `\n` only (`Survival.NoteSurvivesSameCore`,
  `Rewalks.NoteSurvivesWalk`; `CarriageReturnRewritten`, `EmptyCoreNoted`).
- A note is stored as one block if and only if it has no blank line; otherwise as two or more, the
  unverified mark once, in front of the first (`Annotate.AnnotatedReadsBack`; `TwoBlockNote`).
- An exported body comes apart into its own layers if and only if the core is not empty and, with an
  overlay, that starts with no newline and ends in a non-blank and one newline; without one, the
  core's last line without trailing blanks is a line of the core (`Splitting.SplitExact`;
  `BlankEndedCore`).
- Writing back a carried copy keeps all history if and only if the stored row is still current and
  was recalled at most once since: a row superseded in between is reopened, and of more recalls all
  but one are lost (`Upkeep.CarriedWriteBack`; `ReopenedRow`).
- A pass that rewrites a row, closing or reinforcing it, leaves every other tenant's view of the row
  unchanged if and only if the row already was the writer's: a shared row is taken from everyone
  else (`Runs.SharedRowsChangeHands`; `SharedRowTaken`). Adopting unowned rows keeps one current row
  per view if and only if none clashes (`Adoption.AdoptFits`; `AdoptedTwin`).
- Search hits cut by the limit stay in the seen set, so links never lead to or through them; the
  answer is exact all the same if and only if no cut hit lies within reach of a kept one
  (`LinkSearch.CutExact`; `CutHitUnlinked`).
- A cancelled query stays out of the audit log if and only if no wait on it is still polling
  (`AsyncLifecycle.CancelForgetsForGood`; `CancelledReturns`).
- `re.match` with `$` accepts one newline behind an identifier: what is accepted is an identifier if
  and only if it does not end in one (`Text.IdentifierExact`; `NewlineIdentifier`).

## Model

| member | source | states |
|---|---|---|
| Layers.RegroundOverlay | src/asterixdb_mcp/okf_walk.py:83-103 | The loop over overlay lines returns the carried overlay and the dropped lines of the specification the next four rows are about |
| Layers.SiftPartition | src/asterixdb_mcp/okf_walk.py:96-103 | Every overlay line is kept or reported as dropped, with multiplicity; none is lost or made up |
| Layers.RegroundNormal | src/asterixdb_mcp/okf_walk.py:102-103 | A carried overlay is always in normal form: newline breaks only, no blank line at either end, one final newline |
| Layers.RegroundSameCore | src/asterixdb_mcp/okf_walk.py:83-103 | Against an unchanged core an overlay survives untouched if and only if it is in normal form |
| Layers.CarriedLines | src/asterixdb_mcp/okf_walk.py:83-103 | The carried overlay's lines are exactly the non-stale lines in order, less empty lines at the two ends |
| LineReferences.ReferencesExact | src/asterixdb_mcp/okf_walk.py:61-61 | For every line: its references are exactly those it is woven from, backticked and not empty, between plain texts that open none |
| LineReferences.DroppedExact | src/asterixdb_mcp/okf_walk.py:96-101 | A line woven from any references is dropped if and only if one of them is in the old core and not in the new one, and is kept if and only if none is |
| Characters.LinesExact | src/asterixdb_mcp/okf_walk.py:96-96 | For every text: its lines are what its breaks leave between them, a carriage return and a newline together being one break |
| Characters.BreaksExact | src/asterixdb_mcp/okf_walk.py:96-96 | The ten characters a text is split into lines at |
| Characters.SpacesExact | src/asterixdb_mcp/tools/memory_write.py:111-111 | The 29 characters stripping takes off |
| Overlay.BlocksCodec | src/asterixdb_mcp/tools/memory_write.py:507-514 | Joining blocks and re-splitting the text gives the same blocks if and only if each is stripped, non-empty and without a blank line |
| Overlay.RetireExact | src/asterixdb_mcp/tools/memory_write.py:507-514 | `replaces` removes exactly the blocks containing the fragment in any case; kept plus retired is everything, and the kept blocks re-read as themselves |
| Annotate.WrittenText | src/asterixdb_mcp/tools/memory_write.py:461-471 | The text an annotation stores is the merge of the core and overlay it stores |
| Annotate.AnnotatedReadsBack | src/asterixdb_mcp/tools/memory_write.py:444-474 | The stored overlay re-splits into the kept blocks and, unless one of them says the note, the blocks of the note with the mark of an unsourced one in front of the first, for any note; that is the note as one block if and only if it has no blank line, and two or more otherwise |
| Annotate.EvidenceUpgrades | src/asterixdb_mcp/tools/memory_write.py:449-454 | A sourced note re-grounds if and only if a kept block, with or without a correction, contains its marked form; then each kept block stays in place with every marked occurrence replaced by the note, and blocks without one are unchanged |
| Annotate.WrittenBreaks | src/asterixdb_mcp/tools/memory_write.py:447-461 | The stored overlay breaks lines with newlines only if and only if the note and the kept blocks do |
| Annotate.RewriteUnchanged | src/asterixdb_mcp/tools/memory_write.py:444-474 | The overlay a note write leaves says the note, and writing it again without evidence or correction changes nothing |
| Annotate.MigrateOverlay | scripts/memory_migrate_labels.py:50-67 | The labelling loop returns the relabelled overlay and its change count |
| Annotate.MigrateIdempotent | scripts/memory_migrate_labels.py:50-67 | Migrating twice equals migrating once with a second change count of 0, and the blocks are the old ones, each labelled |
| Annotate.MigratedExact | scripts/memory_migrate_labels.py:50-67 | Every block stays in its place, as it was if it is marked, pairs a failure with a working form or is a proven query, else with the mark in front; the count is the number of blocks changed |
| Bundle.PrintFrontmatter | scripts/okf_bundle.py:101-107 | The key-by-key loop prints the specified header |
| Bundle.ReadFrontmatter | scripts/okf_bundle.py:110-125 | The header loop computes the specified metadata and body |
| Bundle.FrontmatterKeysGood | scripts/okf_bundle.py:48-58 | Every key the bundle prints can carry a `key: value` line: the round trips below hold for any such keys |
| Bundle.FrontmatterRoundTrip | scripts/okf_bundle.py:101-125 | Printed frontmatter parses back to the same metadata, and the body follows it, for any non-empty metadata and any body |
| Bundle.DropRelatedSection | scripts/okf_bundle.py:237-250 | The pass with the skipping flag computes the specified body |
| Bundle.SkimSection | scripts/okf_bundle.py:237-250 | Only the Related block goes: the lines before it, and from the next heading on, all stay |
| Bundle.RelatedDropped | scripts/okf_bundle.py:128-139 | Reading back an exported body drops the printed Related section and nothing else |
| Bundle.SectionLinesExact | scripts/okf_bundle.py:237-250 | The line that opens the dropped section is its heading with any blanks around it; one that starts with a heading mark ends it |
| Splitting.SplitExact | scripts/okf_bundle.py:253-273 | For any core and overlay, the exported body splits back into exactly them if and only if the layers are splittable |
| Splitting.SplitWithOverlay | scripts/okf_bundle.py:264-268 | With an overlay, whatever the core ends in: if and only if the overlay starts with no newline and ends in a non-blank and one newline |
| Splitting.SplitWithoutOverlay | scripts/okf_bundle.py:264-273 | Without one: if and only if the core is blank or its last line without trailing blanks is a line of the core |
| Splitting.EditedExact | scripts/okf_bundle.py:270-273 | A body that does not start with the core keeps the core, and the lines of its overlay are the additions of the body, in order |
| Splitting.AdditionsSnoc | scripts/okf_bundle.py:270-273 | Line by line: a line is an addition if and only if it is not blank and no line of the core |
| Bundle.ExportImport | scripts/okf_bundle.py:101-139 | Export then import restores the metadata of a layered concept, whatever links were printed, and restores both layers if and only if they are splittable |
| Rows.IdTextInjective | src/asterixdb_mcp/okf_walk.py:141-143 | `subject@stamp` determines its subject and its stamp |
| Rows.ApplyExact | src/asterixdb_mcp/memory_store.py:86-108 | A write leaves its row under its id, owned by the writer, and every other row as it was; an INSERT of an existing id leaves them all |
| Rows.SafeWriteKeeps | src/asterixdb_mcp/okf_walk.py:228-237 | A write that rewrites a visible current row without changing what it stands for, or files a new row no visible row rivals, keeps the invariant, all history and the tenant frame |
| Rows.SafePassKeeps | src/asterixdb_mcp/okf_walk.py:228-237 | A pass that closes rivals before inserting keeps all of that at every point where it may stop |
| Rows.SucceedSafe | src/asterixdb_mcp/tools/memory_write.py:205-213 | Supersede then insert is such a pass |
| Rows.UpdatesExact | src/asterixdb_mcp/memory_store.py:86-93 | Rewriting distinct rows changes those rows, stamped with the writer's tenant, and no others |
| Reconcile.ReconcileBundle | src/asterixdb_mcp/okf_walk.py:106-159 | The two loops return the inserts, the superseded rows and the unchanged count of the specification |
| Reconcile.InsertsExact | src/asterixdb_mcp/okf_walk.py:120-151 | Exactly the documents that differ from what is stored get a new row, each subject once |
| Reconcile.ReplacedExact | src/asterixdb_mcp/okf_walk.py:125-138 | Exactly the stored rows of changed documents are closed, each once |
| Reconcile.VanishedExact | src/asterixdb_mcp/okf_walk.py:153-158 | Exactly the walk-owned, in-scope rows that left the catalog are closed, each once |
| Reconcile.WalkSafe | src/asterixdb_mcp/okf_walk.py:213-238 | The walk's write order is safe: every superseded row is closed before its successor is inserted |
| Walks.NextView | src/asterixdb_mcp/okf_walk.py:106-159 | After a walk each document's current row is the stored one if it was unchanged, the new one otherwise |
| Walks.SecondLook | src/asterixdb_mcp/okf_walk.py:120-137 | A second look finds a document unchanged if and only if the first settled it: already unchanged, a non-empty core, or no overlay |
| Walks.CountsAddUp | src/asterixdb_mcp/okf_walk.py:120-151 | Every document is either inserted or counted unchanged |
| Walks.WritesNothing | src/asterixdb_mcp/okf_walk.py:106-159 | A walk writes nothing if and only if no document changed and no row vanished |
| Walks.Converges | src/asterixdb_mcp/okf_walk.py:213-238 | From any store that keeps the invariant, a second walk of the same bundle writes nothing and counts every document unchanged, if and only if the first settled every document |
| Walks.ForeignRowsStay | src/asterixdb_mcp/okf_walk.py:153-168 | A row that is not walk-owned and not in the bundle is left exactly as it was |
| WalkRows.FiledExact | src/asterixdb_mcp/okf_walk.py:120-151 | After a walk a changed document is a current semantic row with its own type, query and attributes, its core or else its text, the imported or re-grounded overlay, and the merge as text |
| WalkRows.UnnamedExact | src/asterixdb_mcp/okf_walk.py:153-178 | Of the stored rows no document names, exactly the catalog's own inside the scope are closed; every other is as it was |
| NoteWrite.FirstCovering | src/asterixdb_mcp/tools/memory_write.py:255-277 | The block reported as a near duplicate is a stripped stored block covering the note; none is reported only if none covers it |
| NoteWrite.DecidedRow | src/asterixdb_mcp/tools/memory_write.py:408-504 | Whatever branch is taken, a written row is filed under its subject now, current, and of the old row's kind and type; a walk-owned one reads as the merge of its layers |
| NoteWrite.NoteLayersExact | src/asterixdb_mcp/tools/memory_write.py:408-504 | The row a note writes over one that reads as its merge reads as its own merge if and only if the old row is walk-owned, has no core, or already says exactly the note |
| NoteWrite.AnnotatedRowLayered | src/asterixdb_mcp/tools/memory_write.py:444-474 | Annotating never touches the core, and text is the merge of core and overlay |
| NoteWrite.NoteWriteSafe | src/asterixdb_mcp/tools/memory_write.py:163-213 | Every accepted request makes a safe pass, whether it reinforces, does nothing or supersedes and inserts |
| NoteGate.ValidateExact | src/asterixdb_mcp/tools/memory_write.py:101-143 | With writing off every request is forbidden; otherwise it is invalid if and only if its text is blank or too long, its subject or a link is no identifier, it has too many links, or its correction is blank |
| NoteGate.RefusedExact | src/asterixdb_mcp/tools/memory_write.py:163-190 | A note is answered as a duplicate of a block if and only if it corrects nothing, is not in the stored text, that block is the first it covers by four fifths of its tokens and all its numbers, and it brings no evidence or the block has some |
| NoteGate.ConceptAnswer | src/asterixdb_mcp/tools/memory_write.py:444-474 | What the answer over a catalog concept says: regrounded, already there or annotated, and the blocks retired |
| NoteGate.StandaloneAnswer | src/asterixdb_mcp/tools/memory_write.py:425-504 | And over nothing or a standalone row: created, superseded, regrounded or already there, with nothing retired |
| NotedRows.CreatedExact | src/asterixdb_mcp/tools/memory_write.py:420-441 | Over an empty view the store then has, at the subject and time, a semantic Note of the tenant with the note's text, its query if it has one, full trust, and the request's attributes and author |
| NotedRows.SameTextExact | src/asterixdb_mcp/tools/memory_write.py:475-491 | A row with the note's text is left alone if and only if the note brings no evidence it lacks |
| NotedRows.RenewedExact | src/asterixdb_mcp/tools/memory_write.py:475-504 | Otherwise its new version has the note's text if that is another, the note's query or else the old one, the attributes of both, and every other field as it was |
| NotedRows.ConceptKept | src/asterixdb_mcp/tools/memory_write.py:461-474 | A note on a catalog concept fixes its core and leaves its query, attributes and recalls as they were |
| Survival.RewritingWritesNothing | src/asterixdb_mcp/tools/memory_write.py:174-213 | Submitting again a note that was written, on any row and in any branch, makes no write at all |
| Survival.StandaloneText | src/asterixdb_mcp/tools/memory_write.py:428-504 | A standalone row written for a note, created, re-grounded or superseding, reads as that note and is not walk-owned |
| Survival.EvidenceInherited | src/asterixdb_mcp/tools/memory_write.py:492-504 | A replaced standalone note keeps the old proving query if and only if none, or the same one, comes with the new text |
| Survival.NoteSurvivesSameCore | src/asterixdb_mcp/okf_walk.py:125-137 | After a note on a catalog concept, a walk with the same core finds it unchanged if and only if the core is not empty and the note and the blocks it kept break lines with newlines only |
| Survival.NoteSurvivesNewCore | src/asterixdb_mcp/okf_walk.py:125-151 | Under a changed core the new row carries in order exactly the lines without a lost reference; each dropped line has one and is still in the superseded row |
| Survival.ImportIsNoOp | scripts/okf_bundle.py:253-287 | Importing an untouched export of a layered concept of any type restores its metadata and reconciles as unchanged if and only if its layers are splittable |
| Survival.ImportKeepsCore | scripts/okf_bundle.py:276-287 | No import changes a stored core, and it is unchanged if and only if the split-off overlay is the stored one |
| Rewalks.SecondNoteWritesNothing | src/asterixdb_mcp/tools/memory_write.py:163-213 | Over the store a written note left, on a subject with at most one current row in view, submitting it again makes no write |
| Rewalks.NoteSurvivesWalk | src/asterixdb_mcp/okf_walk.py:213-238 | Over that store a walk with the same core leaves the noted row exactly as it is if and only if the core is not empty and the note and the blocks it kept break lines with newlines only |
| Rewalks.NoteCarriedByWalk | src/asterixdb_mcp/okf_walk.py:213-238 | A walk with another core, empty or not, closes the noted row, overlay and all, and files a successor with exactly the lines without a lost reference, in order; each dropped line is still in the closed row |
| Rewalks.InheritedProofDecides | src/asterixdb_mcp/revalidate.py:100-127 | A note that replaced another is tried by the query it came with or, without one, by the query of the text it replaced: a replay whose write gets through closes it if and only if that query runs, returns rows and contradicts the new text |
| Upkeep.ReinforceSafe | src/asterixdb_mcp/tools/memory_notes.py:233-253 | Reinforcing rows just fetched, with or without suspect markers, is a safe pass |
| Upkeep.CarriedWriteBack | src/asterixdb_mcp/tools/memory_notes.py:382-404 | Writing back a carried copy keeps history if and only if the stored row is still current and was recalled at most once since |
| Upkeep.DecayExact | src/asterixdb_mcp/decay.py:47-84 | A decay pass closes exactly the fetched candidates and leaves every other row as it was |
| Upkeep.RevalidatedShape | src/asterixdb_mcp/revalidate.py:76-120 | The rows a replay pass writes are exactly the outcomes of its candidates whose write got through, each once |
| Upkeep.ReplayExact | src/asterixdb_mcp/revalidate.py:100-140 | A note is closed if and only if its own proof ran, returned rows and contradicted it; a proof that cannot run closes nothing |
| Outcomes.ReinforcedExact | src/asterixdb_mcp/tools/memory_notes.py:233-253 | After a reinforcement each delivered row has one recall more, at that time, and the reason if the result made it suspect; nothing else of it changed |
| Outcomes.DecayedExact | src/asterixdb_mcp/decay.py:47-84 | Of the rows a decay pass read, exactly the notes without a query, never recalled and older than thirty days are archived, with the reason; every other row is as it was |
| Outcomes.ReplayedExact | src/asterixdb_mcp/revalidate.py:100-140 | A replayed note its proof contradicts is closed with its conflicts as the reason, one whose proof does not run is marked suspect and stays, and any other, or one whose write was lost, is as it was |
| Outcomes.TallyExact | src/asterixdb_mcp/revalidate.py:76-120 | The three counters count the replayed notes, the contradicted ones and those whose proof did not run, delivered or not |
| Dedup.DedupRows | scripts/okf_consolidate.py:53-71 | The loop returns the kept rows and the stamped losers of the specification |
| Dedup.ScanKeeps | scripts/okf_consolidate.py:53-71 | One kept row per subject, every subject kept, and kept plus losers is the input as a multiset |
| Dedup.KeptAreNewest | scripts/okf_consolidate.py:60-71 | Each kept row is the first with the greatest valid_from of its subject |
| Dedup.DedupedExact | scripts/okf_consolidate.py:53-71 | Of the rows a pass read, the first newest of each subject is as it was and every other is closed with the reason |
| Dedup.DedupRestores | scripts/okf_consolidate.py:53-71 | From any store at all, a dedup pass leaves a tenant one live row of its own per subject, and no subject loses its last |
| Adoption.AdoptKeeps | src/asterixdb_mcp/migrate.py:57-67 | Adoption, complete or cut short, keeps all history and stays in the tenant frame |
| Adoption.AdoptFits | src/asterixdb_mcp/migrate.py:57-67 | It keeps one current row per subject in every view if and only if no adopted row clashes with a visible or another unowned one |
| Adoption.AdoptTwice | src/asterixdb_mcp/migrate.py:57-67 | A second adoption finds nothing to adopt |
| Rows.RewriteTakesRow | src/asterixdb_mcp/memory_store.py:86-108 | For another tenant a rewritten row stays what it was, seen or not, if and only if the writer owned it before |
| Runs.StepKeeps | src/asterixdb_mcp/okf_walk.py:213-238 | Any pass, stopped anywhere, keeps the invariant, all history and its tenant's frame |
| Runs.RunKeeps | src/asterixdb_mcp/okf_walk.py:106-159 | Over every run no id disappears, content and valid_from of an id never change, its recalls never fall, closed rows stay closed at their time, each view has one current semantic row per subject, and walk-owned layered rows read as their merge |
| Runs.PreferenceExact | src/asterixdb_mcp/tools/preferences.py:103-130 | A preference is stored, as a current row of its own kind and type, if and only if no stored one of its scope says it |
| Runs.DeliveredNeverDecays | src/asterixdb_mcp/decay.py:47-84 | From a reinforcement that landed on, over any run of any passes: the recalls of the row never fall below one, and no decay pass that follows, wherever it stops, changes the row |
| Runs.SharedRowsChangeHands | src/asterixdb_mcp/okf_walk.py:228-232 | The same for any pass of a run, wherever it stops: closing or reinforcing a shared row takes it from every other tenant |
| Runs.StepLayers | src/asterixdb_mcp/tools/memory_write.py:492-504 | One pass keeps every row with a core reading as the merge of its layers if and only if it is not a landed note that superseded a row of foreign type with a core by another text |
| Runs.RunLayers | src/asterixdb_mcp/okf_walk.py:106-159 | Over every run: at the end every row with a core reads as the merge of its layers if and only if no pass of the run was such a note |
| Runs.TenantsAreIsolated | src/asterixdb_mcp/cc_client.py:68-79 | A run of other tenants' passes leaves exactly the rows a tenant owned, unchanged, and gives it none |
| Client.CCClient.ExecuteMemoryWrite | src/asterixdb_mcp/cc_client.py:157-210 | Disabled, foreign and unbound writes fail without effect with their own errors; any other writes the row stamped with the client's tenant; INSERT on an existing id fails |
| Client.CCClient.ExecuteMemoryRead | src/asterixdb_mcp/cc_client.py:212-245 | An unbound or unscoped read is refused; a read returns each matching row the tenant sees once, and no other |
| Passes.UpsertRows | src/asterixdb_mcp/tools/memory_notes.py:242-253 | A loop of upserts that stops at a failure has applied exactly a prefix of its writes |
| Passes.SupersedeThenInsert | src/asterixdb_mcp/okf_walk.py:226-237 | Supersedes then inserts apply exactly the pass when nothing fails, and keep every promise when something does |
| Passes.RunWalk | src/asterixdb_mcp/okf_walk.py:213-244 | The walk reads the whole view, keeps every promise however it ends, applies exactly reconcile's writes when it succeeds, and reports the four counts |
| Passes.RunMemoryWrite | src/asterixdb_mcp/tools/memory_write.py:83-233 | A bad request fails with its error and no effect; otherwise the store changes exactly by the note's writes, except that a refused note's usage bump may be lost without an error; the answer names the duplicate, no change, or the action; every promise is kept even on failure |
| Passes.RunDecay | src/asterixdb_mcp/decay.py:63-84 | The pass reads every current note and counts what it archives; on success every neglected note in view is archived, and however it ends every row with a query, with a recall or not older than thirty days is exactly as it was |
| Passes.RunRevalidation | src/asterixdb_mcp/revalidate.py:76-120 | Every current note read is replayed with its own proof, the three counters are right, a failed write skips only that row, and every promise is kept |
| Passes.ReinforceNotes | src/asterixdb_mcp/tools/memory_notes.py:233-253 | A prefix of the rows is bumped in place and every promise is kept |
| Passes.Backfill | src/asterixdb_mcp/migrate.py:40-67 | With writes disabled nothing happens; otherwise exactly a prefix of the unowned rows gets this tenant as owner, and on success every unowned row of the store |
| Text.IdentifierExact | src/asterixdb_mcp/tools/memory_search.py:51-51 | What the identifier pattern accepts has only identifier characters if and only if it does not end in a newline |
| Characters.IdentifierCharsExact | src/asterixdb_mcp/tools/memory_search.py:51-51 | The 67 characters of an identifier |
| LinkSearch.LinkTargets | src/asterixdb_mcp/tools/memory_search.py:191-199 | Exactly the valid, unseen link targets of the frontier, each once |
| LinkSearch.AddAll | src/asterixdb_mcp/tools/memory_search.py:175-183 | Exactly the named, unseen documents become matches and the next frontier, tagged with their hop |
| LinkSearch.Blend | src/asterixdb_mcp/tools/memory_search.py:110-127 | The hits are exactly the key and then the full-text documents inside the dataverse prefix, each subject once and in that order |
| LinkSearch.ReachIsPaths | src/asterixdb_mcp/tools/memory_search.py:130-142 | Bounded reach by hops is the same as the ends of link paths of at most that length |
| LinkSearch.Expand | src/asterixdb_mcp/tools/memory_search.py:130-142 | The hop loop returns exactly the concepts within the depth, or within the hops before the first failed read, each tagged with its shortest distance |
| LinkSearch.SearchLinks | src/asterixdb_mcp/tools/memory_search.py:107-142 | With the limit cut: exact reachability around the kept hits that avoids the cut ones; exact reachability when nothing is cut |
| LinkSearch.BoundsExact | src/asterixdb_mcp/tools/memory_search.py:107-142 | At least one and at most fifty of the first hits are kept, as many as asked in between; no hop is followed unless asked, then one or two |
| LinkSearch.ExactMeans | src/asterixdb_mcp/tools/memory_search.py:130-142 | A subject is returned if and only if a link path of at most that length leads to it from a hit, and its tag is the length of a shortest one |
| LinkSearch.CutExact | src/asterixdb_mcp/tools/memory_search.py:125-142 | The answer around the kept hits, subjects and hop tags, is exact if and only if no hit lost to the limit lies within reach of a kept one |
| PlanPolicy.Tally.Collect | src/asterixdb_mcp/plan_parser.py:211-218 | The accumulators gain every operator's kind count and every data source of the tree, in depth-first order |
| PlanPolicy.DedupePreservingOrder | src/asterixdb_mcp/plan_parser.py:239-246 | The loop with a seen set returns the specified list, whose elements are the input's, each once |
| PlanPolicy.DedupeKeepsOrder | src/asterixdb_mcp/plan_parser.py:239-246 | The kept elements stand in the order of their first occurrences |
| PlanPolicy.ParsePlan | src/asterixdb_mcp/plan_parser.py:94-116 | A plan is parsed if and only if the key holds an object, and its sources are those of the whole tree |
| PlanPolicy.SourcesExact | src/asterixdb_mcp/plan_parser.py:177-218 | A source is collected if and only if some operator, at any position path of the raw tree, names it |
| PlanPolicy.ResolveExact | src/asterixdb_mcp/plan_parser.py:145-160 | A dotted source resolves to its first two segments; a bare one to the default dataverse, and to nothing without one |
| PlanPolicy.ResolveSources | src/asterixdb_mcp/plan_parser.py:137-162 | Datasets are the resolved pairs and unresolved the failures, each once, in the order of their first sources |
| PlanPolicy.ResolvedExact | src/asterixdb_mcp/plan_parser.py:149-162 | No source falls between the two: every pair comes from a source, and every source gives a pair or is a failure |
| PlanPolicy.PredicatesExact | src/asterixdb_mcp/plan_parser.py:195-208 | A node's predicates are its condition's expressions, or the condition when it is a string, and then its own |
| PlanPolicy.AllowedExact | src/asterixdb_mcp/tenant_policy.py:41-46 | A dataverse is allowed to a principal if and only if the principal has an entry and it is on that entry's own list |
| PlanPolicy.CheckSources | src/asterixdb_mcp/tenant_policy.py:49-85 | Passes if and only if there is no allowlist, or all sources are resolved and every dataverse is on the principal's own list |
| PlanPolicy.CheckCompiledPlan | src/asterixdb_mcp/tenant_policy.py:88-119 | With an allowlist and no compile error, passes if and only if a tree exists and every source anywhere in it resolves into a dataverse on the principal's own list |
| PlanPolicy.OthersDoNotMatter | src/asterixdb_mcp/tenant_policy.py:36-119 | Two allowlists that agree on a principal's entry decide every plan alike for it |
| Permits.PermitPool.Create | src/asterixdb_mcp/permits.py:48-59 | A capacity below one is a ValueError; the share is clamped to the pool; the pool starts empty |
| Permits.PermitPool.Take | src/asterixdb_mcp/permits.py:99-115 | Fails with NOT_READY and no effect exactly at either limit, otherwise counts one more for the pool and the caller |
| Permits.PermitPool.GiveBack | src/asterixdb_mcp/permits.py:117-127 | Counts one less and forgets a principal at zero |
| Permits.WhoExact | src/asterixdb_mcp/permits.py:92-92 | Named callers hold permits under their own names; callers without a name share those of one reserved name |
| Permits.TakeGive | src/asterixdb_mcp/permits.py:82-127 | A release undoes its take exactly |
| Permits.HoldersSum | src/asterixdb_mcp/permits.py:48-127 | Counts kept per principal add up to the number of live holders |
| Permits.EveryInterleaving | src/asterixdb_mcp/permits.py:48-127 | After any interleaving: in_use is the number of live holders and the sum of the shares, within capacity; each tracked principal holds between one and its share; a take fails if and only if the pool is full or the caller at its share; with no holders left the pool is empty |
| Ordering.SortedKeys | src/asterixdb_mcp/distill.py:89-91 | Each key of the dict once, in string order |
| Ordering.SortedUnique | src/asterixdb_mcp/distill.py:89-91 | A set of keys has one sorted listing |
| Ordering.BeforeExact | src/asterixdb_mcp/distill.py:89-91 | A string sorts no later than another if and only if it begins it, or has the smaller character where they first differ |
| Distill.DedupeEvents | src/asterixdb_mcp/distill.py:61-75 | The loop keeps the first event of each identity, in order |
| Distill.UniqueExact | src/asterixdb_mcp/distill.py:61-75 | When an identity names one event, exactly the replays go |
| Distill.ProvenQueries | src/asterixdb_mcp/distill.py:78-92 | Exactly the subject and statement pairs that succeeded in enough distinct sessions, in sorted order, each note carrying that count |
| Distill.RecurringFailures | src/asterixdb_mcp/distill.py:95-111 | Exactly the subject and error pairs that failed often enough on a subject with no success, in sorted order |
| Distill.CautionsAreEarned | src/asterixdb_mcp/distill.py:95-111 | A caution is reported if and only if some error of its subject met the threshold and the subject has no success |
| Distill.DistillationIsASetFunction | src/asterixdb_mcp/distill.py:61-111 | Logs of the same events, in any order and with any replays, distil to the same proven queries and cautions |
| Distilled.IdentityExact | src/asterixdb_mcp/distill.py:61-75 | Two events are one if and only if they have the same id, or no id and the same session, time and statement |
| Distilled.ProvenMeans | src/asterixdb_mcp/distill.py:78-92 | A note is reported if and only if its statement succeeded on its subject in enough distinct sessions, and it spells how many |
| Distilled.CautionMeans | src/asterixdb_mcp/distill.py:95-111 | A caution is reported if and only if its subject never succeeded and failed that way often enough, and it spells how often |
| Capture.CaptureState.Record | src/asterixdb_mcp/tools/memory_capture.py:79-91 | A failure marks all its subjects, a success clears them, and the notes are those the pending failures give, in subject order |
| Capture.PendingExact | src/asterixdb_mcp/tools/memory_capture.py:73-91 | Over any history, what is pending for a subject is the latest outcome touching it, if and only if that failed |
| Capture.NotesExact | src/asterixdb_mcp/tools/memory_capture.py:85-91 | A success emits a note for a subject if and only if such a failure exists and its stripped statement differs |
| Capture.PairedOnce | src/asterixdb_mcp/tools/memory_capture.py:85-91 | No failure is paired twice for one subject |
| Capture.SuccessClears | src/asterixdb_mcp/tools/memory_capture.py:85-91 | What a success pairs with failed after every earlier success on the subject |
| IndexHealth.GroupSecondaryIndexes | src/asterixdb_mcp/tools/health_check.py:221-240 | The dict maps each dataset to its secondary, keyed indexes in catalog order |
| IndexHealth.PrefixCover | src/asterixdb_mcp/tools/health_check.py:206-218 | The first longer same-structure index extending the keys, or none if there is none |
| IndexHealth.FindRedundantIndexes | src/asterixdb_mcp/tools/health_check.py:148-174 | Every covered index is reported with an index that covers it, and nothing else is |
| IndexHealth.FindDuplicateIndexes | src/asterixdb_mcp/tools/health_check.py:117-145 | Every signature shared by two or more indexes is reported with their sorted names, and nothing else is |
| IndexHealth.Advise | src/asterixdb_mcp/tools/health_check.py:96-104 | The two finders together report, for every dataset, what the coverage result below is about |
| IndexHealth.AdviceKeepsCoverage | src/asterixdb_mcp/tools/health_check.py:117-174 | After dropping every redundant index and all but any one of each duplicate group, every original index has a kept one of its structure whose keys extend its keys |
| AuditLog.KnownExact | src/asterixdb_mcp/audit_log.py:111-128 | What a history knows of a key is the last entry recorded for it and not forgotten since |
| AuditLog.LiveExact | src/asterixdb_mcp/audit_log.py:116-150 | A recorded entry is answered until exactly its time to live has passed |
| AuditLog.WantedExact | src/asterixdb_mcp/audit_log.py:130-141 | With failures only, exactly the entries whose outcome is an error are listed |
| AuditLog.AuditLog.Create | src/asterixdb_mcp/audit_log.py:100-105 | A time to live that is not positive is a ValueError; a new log has no history |
| AuditLog.AuditLog.Record | src/asterixdb_mcp/audit_log.py:111-114 | Recording, with its pruning, adds one entry to the history |
| AuditLog.AuditLog.Get | src/asterixdb_mcp/audit_log.py:116-124 | The history's entry for the key if still within its time to live, whatever was pruned before |
| AuditLog.AuditLog.Forget | src/asterixdb_mcp/audit_log.py:126-128 | Forgetting adds one forget to the history |
| AuditLog.AuditLog.Recent | src/asterixdb_mcp/audit_log.py:130-141 | At most limit wanted entries, newest first, each once, none expired before the call; what is missing expired by its end or is no newer than all listed |
| AuditLog.AuditLog.Prune | src/asterixdb_mcp/audit_log.py:151-154 | Only expired entries go, and nothing already expired at the call stays |
| Submission.RunSubmit | src/asterixdb_mcp/tools/async_query.py:67-147 | A barred statement is never compiled; any other is sent, as normalize_statement leaves it and under an id of this session, if and only if its compiled plan is authorized and a permit is free; exactly what was sent and accepted is recorded, with the handle it was given; each failure has its own error; the permit is returned |
| Submission.MintedIsOwn | src/asterixdb_mcp/tools/async_query.py:91-91 | The session passes the ownership check with every id it submits under |
| AuditLog.AuditLog.Len | src/asterixdb_mcp/audit_log.py:143-146 | The count, after pruning, of entries that include every live one and none that had expired before the call |
| AsyncLifecycle.ClampTimeout | src/asterixdb_mcp/tools/async_query.py:482-486 | The wait window is the request when that is in range, zero for a negative one, and the ceiling for a larger one or by default |
| AsyncLifecycle.PollUntilTerminal | src/asterixdb_mcp/tools/async_query.py:216-243 | Only the entry's own handle is polled, and the first final status ends the wait, in any case of its letters: success is done, timeout is TIMEOUT, failed and fatal are INTERNAL, and still running is answered if and only if the last poll is none of these; the log gains exactly the result handle of a success; giving up happens only after the deadline |
| AsyncLifecycle.OutcomeDecides | src/asterixdb_mcp/tools/async_query.py:56-65 | What a poll decides, status by status |
| AsyncLifecycle.RunWait | src/asterixdb_mcp/tools/async_query.py:150-213 | A wait polls its own submission, and answers its polls status by status, unless the id is foreign, no live entry has a handle, or no permit is free, each with its error and no effect; the permit comes back however it ends |
| AsyncLifecycle.RunFetch | src/asterixdb_mcp/tools/async_query.py:341-372 | The cluster is asked only for the recorded result handle of a live, owned submission; otherwise FORBIDDEN, NOT_FOUND or NOT_READY |
| AsyncLifecycle.RunCancel | src/asterixdb_mcp/tools/async_query.py:424-449 | A foreign id is refused without contact; a submission is forgotten if and only if the cluster cancelled it or no longer knows it |
| AsyncLifecycle.WaitIsARun | src/asterixdb_mcp/tools/async_query.py:150-243 | The log and waits a whole wait call leaves are those its events leave in the interleaved model, whatever the polls answered |
| AsyncLifecycle.FetchIsSafe | src/asterixdb_mcp/tools/async_query.py:67-372 | Over every interleaving, a fetched result handle came from an earlier successful terminal poll of that same submission's status handle, and a poll uses only its own submission's handle |
| AsyncLifecycle.OneSubmission | src/asterixdb_mcp/tools/async_query.py:110-127 | With unique ids, that submission is one event of the run |
| AsyncLifecycle.CancelForgetsForGood | src/asterixdb_mcp/tools/async_query.py:424-443 | A cancelled submission stays forgotten in every continuation if and only if no wait on it was in flight |
| AsyncLifecycle.ForeignIdsStay | src/asterixdb_mcp/tools/async_query.py:452-470 | An id with another session's segment can be neither waited on, fetched nor cancelled, and one with this session's can be cancelled |
| StatementGuard.SetEndExact | src/asterixdb_mcp/statement_guard.py:20-22 | The SET-clause scanner finds an end if and only if the pattern matches there |
| StatementGuard.StripSetPrefix | src/asterixdb_mcp/statement_guard.py:39-46 | The stripping loop ends, with the specified rest |
| StatementGuard.StripLoopSettled | src/asterixdb_mcp/statement_guard.py:39-46 | What is left starts with neither a SET clause nor whitespace |
| StatementGuard.NormalizeStatement | src/asterixdb_mcp/statement_guard.py:49-62 | The step-by-step rewriting computes the specified statement |
| StatementGuard.NormalizeIdempotent | src/asterixdb_mcp/statement_guard.py:49-62 | Normalizing twice equals normalizing once for every statement and limit, even where the added ";" completes a SET clause |
| StatementGuard.SelectIsBounded | src/asterixdb_mcp/statement_guard.py:49-62 | Unless nothing is left, a SELECT with a FROM and no LIMIT leaves as its body, " LIMIT ", the numeral of the limit and ";"; any other statement leaves as its body and ";"; no body is cut |
| Text.DecimalExact | src/asterixdb_mcp/statement_guard.py:61-61 | A number is printed as its one numeral, without leading zeros |
| StatementParts.WordExact | src/asterixdb_mcp/statement_guard.py:21-22 | A statement has a word if and only if it spells it, in any case, between two word boundaries |
| StatementParts.StartExact | src/asterixdb_mcp/statement_guard.py:60-60 | It starts with one if and only if its first letters are that word's, in any case |
| StatementParts.ClausesExact | src/asterixdb_mcp/statement_guard.py:39-46 | What is taken off the front is exactly SET clauses, one after the other, and no more is left |
| StatementParts.BodyExact | src/asterixdb_mcp/statement_guard.py:49-62 | What is left is the body, blanks, at most one ";" and blanks, and the body ends in no blank |
| ContextId.SanitizeSafe | src/asterixdb_mcp/context_id.py:28-37 | A sanitized segment is never empty, has no ":" and keeps its length limit |
| ContextId.SanitizeFixed | src/asterixdb_mcp/context_id.py:28-37 | Sanitizing leaves a string alone if and only if it is such a segment |
| ContextId.SanitizeIdempotent | src/asterixdb_mcp/context_id.py:28-37 | Sanitizing twice equals sanitizing once |
| Segments.CollapseExact | src/asterixdb_mcp/context_id.py:25-37 | Every run of colons and whitespace between safe parts becomes one dash, and nothing else changes |
| Segments.SanitizeExact | src/asterixdb_mcp/context_id.py:28-37 | A segment of such parts that starts and ends with no dash sanitizes to the parts joined by one dash each |
| Segments.CutExact | src/asterixdb_mcp/context_id.py:35-37 | A safe segment over its limit is cut there and loses the dashes it then ends in, or is the placeholder |
| Segments.TagExact | src/asterixdb_mcp/context_id.py:52-58 | A tag stays as it is if and only if it is a safe segment of at most 64 characters; no tag is an empty one |
| Segments.OwnershipMeans | src/asterixdb_mcp/tools/async_query.py:452-470 | An id is refused if and only if it has three segments and the first is not this session's |
| ContextId.ParseMake | src/asterixdb_mcp/context_id.py:40-75 | A made id parses back into its three sanitized segments, whatever the inputs |
| ContextId.OwnershipExact | src/asterixdb_mcp/tools/async_query.py:452-470 | The ownership check accepts a made id if and only if it was made under the same sanitized session |
| Counterexamples.UnmergedRun | src/asterixdb_mcp/tools/memory_write.py:492-504 | From the empty store, an import of a concept no walk owns and a note over it by another text are a valid run, and its row does not read as the merge of its layers |
| Counterexamples.EmptyCoreRewritten | src/asterixdb_mcp/okf_walk.py:120-137 | A row imported with an overlay over an empty core is not unchanged on the next look |
| Counterexamples.CarriageReturnRewritten | src/asterixdb_mcp/okf_walk.py:125-137 | A catalog row unchanged before a note with a carriage return is not unchanged after it |
| Counterexamples.EmptyCoreNoted | src/asterixdb_mcp/okf_walk.py:125-137 | Nor is one with an empty core after any plain note |
| Counterexamples.QueryOfAnotherNote | src/asterixdb_mcp/tools/memory_write.py:492-504 | A new text without evidence is stored with the proving query of the old one |
| Counterexamples.TwoBlockNote | src/asterixdb_mcp/tools/memory_write.py:444-474 | An unsourced note of two paragraphs is stored as two blocks, only the first marked |
| Counterexamples.BlankEndedCore | scripts/okf_bundle.py:253-273 | A core that ends in a blank does not come back from its own export |
| Counterexamples.ReopenedRow | src/asterixdb_mcp/tools/memory_notes.py:382-404 | Reinforcing a carried copy of a row closed meanwhile breaks its history |
| Counterexamples.SharedRowTaken | src/asterixdb_mcp/memory_store.py:86-108 | One tenant's reinforcement of a global row hides it from another |
| Counterexamples.AdoptedTwin | src/asterixdb_mcp/migrate.py:57-67 | Adopting an unowned row beside an owned one of its subject leaves two current rows in one view |
| Counterexamples.CutHitUnlinked | src/asterixdb_mcp/tools/memory_search.py:125-142 | A linked hit lost to the limit is missing from the reach |
| Counterexamples.CancelledReturns | src/asterixdb_mcp/tools/async_query.py:424-443 | A query cancelled while a wait on it polls does not stay forgotten |
| Counterexamples.NewlineIdentifier | src/asterixdb_mcp/tools/memory_search.py:51-51 | An accepted identifier with a character that is none |

## Left out

- HTTP, MCP binding, OAuth, settings, prompts, tool texts and output schemas: plumbing.
- SQL++ and the engine: a store query is a filter on the map; its LIMIT windows (such as 50 or 10000 rows) are not modelled, so a read returns every matching row.
- Interleaving of the reads and writes inside one pass with another pass: a pass reads and writes without one, as the source's passes assume; a pass stopping half-way is modelled.
- Subject canonicalization against the catalog (`memory_write.py:280-300`) and numeric conflict warnings: the request carries its canonical subject.
- Scores, trust decay, slow-query averages, similarity and claim extraction: heuristics on floating point; their verdicts (conflicts, suspect reasons) are inputs. The `suspect_since` stamp is not kept.
- Dedup.DedupRestores: the pass is run for one tenant over its own rows; `fetch_all_current` in `scripts/okf_consolidate.py` reads every tenant's, through drivers that do not bind a tenant. Dedup.ScanKeeps and Dedup.KeptAreNewest hold for any list of rows.
- A reinforcement of copies carried over from an earlier turn is no step of a run, whose passes rewrite rows they just read; Upkeep.CarriedWriteBack says exactly what it may break.
- Adoption of session events: the same loop as for memory rows, over another dataset.
- Standalone Note rows in the bundle round trip: they have no stored core, so the no-op claim is about layered rows. Nor bodies with a leading newline, line ends other than `\n`, or a Related line of their own.
- Bundle paths, index and log pages, and the command-line drivers of the scripts.
- The order of `assemble_findings` and the columnar candidates of the health check; index keys are the rendered paths.
- Result windowing, egress limits and artifacts of a fetch; progress reports; the columnar advisory of a submission.
- The stale-lock file of maintenance, the JSONL event buffer and profile folding.
- Capture.CaptureState.Record: the 300-character trimming of statements inside a note is a parameter.
- AsyncLifecycle.PollUntilTerminal: the poll interval is at least one millisecond, as the settings require, and the wait clock is a different clock from the audit log's.
- Passes.RunMemoryWrite: the client is bound to a tenant; an unbound one fails at its first read (Client.CCClient.ExecuteMemoryRead).
