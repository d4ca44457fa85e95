// The passes as they run: read through the client, decide, and write row by row, stopping
// (or, for proof replay, going on) when a write fails.

module Passes {
  import opened Basics
  import opened Annotate
  import opened Rows
  import opened Client
  import opened Upkeep
  import opened NoteWrite
  import Reconcile
  import Adoption
  import Outcomes

  predicate IsLive(row: Row) {
    Live(row)
  }

  predicate IsNoteRow(row: Row) {
    Current(row) && row.typ == NOTE
  }

  /** What every pass leaves behind, whether it ended or failed on the way. */
  ghost predicate PassKept(before: Store, after: Store, now: Time, p: Principal) {
    Inv(after, now) && History(before, after) && Frame(before, after, p)
  }

  lemma PrefixKept(before: Store, ws: seq<Write>, cut: nat, clock: Time, now: Time, p: Principal)
    requires Inv(before, clock) && clock < now && SafePass(before, ws, p, now) && p != GLOBAL && cut <= |ws|
    ensures PassKept(before, ApplyAll(before, ws[..cut], p), now, p)
    ensures ws[..|ws|] == ws
  {
    SafePassKeeps(before, ws, cut, p, now);
  }

  /** Every current note the tenant sees, each once. */
  ghost predicate NoteView(rows: Store, found: seq<Row>, p: Principal) {
    && Selection(rows, found, p)
    && forall row :: row in found <==> row.id in rows && rows[row.id] == row && Seen(row, p) && Current(row) && row.typ == "Note"
  }

  // ---- loops of writes ---------------------------------------------------------------

  /** for row in rows: execute_memory_write(UPSERT, row), up to the first failure. */
  method UpsertRows(client: CCClient, rs: seq<Row>) returns (r: Result<()>, ghost cut: nat)
    requires client.store.Keyed() && client.principal.Some?
    modifies client.store
    ensures client.store.Keyed() && cut <= |rs| && (r.Ok? ==> cut == |rs|)
    ensures client.store.rows == ApplyAll(old(client.store.rows), Upserts(rs)[..cut], client.principal.value)
    ensures client.reliable && client.MayWrite() ==> r.Ok?
  {
    ghost var before, p, ws := client.store.rows, client.principal.value, Upserts(rs);
    cut := 0;
    for n := 0 to |rs|
      invariant client.store.Keyed() && cut == n
      invariant client.store.rows == ApplyAll(before, ws[..n], p)
    {
      r := client.ExecuteMemoryWrite(UpsertMemory, rs[n]);
      ApplyStep(before, ws, n, p);
      if r.Err? {
        cut := if client.store.rows == ApplyAll(before, ws[..n + 1], p) then n + 1 else n;
        return;
      }
      cut := n + 1;
    }
    r := Ok(());
  }

  /** An id not inserted yet is absent. */
  lemma NewIdAbsent(before: Store, ws: seq<Write>, n: nat, p: Principal)
    requires n < |ws|
    ensures Applicable(before, ws) && ws[n].Insert? ==> ws[n].row.id !in ApplyAll(before, ws[..n], p)
  {
    if Applicable(before, ws) && ws[n].Insert? {
      assert forall k :: 0 <= k < n ==> ws[..n][k] == ws[k];
      ApplyAllWrites(before, ws[..n], p);
    }
  }

  /** for row in rows: execute_memory_write(INSERT, row), up to the first failure. */
  method InsertRows(client: CCClient, rs: seq<Row>) returns (r: Result<()>, ghost cut: nat)
    requires client.store.Keyed() && client.principal.Some?
    modifies client.store
    ensures client.store.Keyed() && cut <= |rs| && (r.Ok? ==> cut == |rs|)
    ensures client.store.rows == ApplyAll(old(client.store.rows), Insertions(rs)[..cut], client.principal.value)
    ensures client.reliable && client.MayWrite() && Applicable(old(client.store.rows), Insertions(rs)) ==> r.Ok?
  {
    ghost var before, p, ws := client.store.rows, client.principal.value, Insertions(rs);
    cut := 0;
    for n := 0 to |rs|
      invariant client.store.Keyed() && cut == n
      invariant client.store.rows == ApplyAll(before, ws[..n], p)
    {
      NewIdAbsent(before, ws, n, p);
      r := client.ExecuteMemoryWrite(InsertMemory, rs[n]);
      ApplyStep(before, ws, n, p);
      if r.Err? {
        cut := if client.store.rows == ApplyAll(before, ws[..n + 1], p) then n + 1 else n;
        return;
      }
      cut := n + 1;
    }
    r := Ok(());
  }

  /** Two loops of writes, the first cut at i or the second at j, leave the promises kept. */
  lemma BothKept(before: Store, a: seq<Write>, b: seq<Write>, i: nat, j: nat, clock: Time, now: Time, p: Principal)
    requires Inv(before, clock) && clock < now && SafePass(before, a + b, p, now) && p != GLOBAL
    requires i <= |a| && j <= |b|
    ensures PassKept(before, ApplyAll(before, a[..i], p), now, p)
    ensures PassKept(before, ApplyAll(ApplyAll(before, a, p), b[..j], p), now, p)
    ensures ApplyAll(before, a + b, p) == ApplyAll(ApplyAll(before, a, p), b, p)
  {
    FirstCut(before, a, b, i, clock, now, p);
    SecondCut(before, a, b, j, clock, now, p);
    ApplyConcat(before, a, b, p);
  }

  lemma FirstCut(before: Store, a: seq<Write>, b: seq<Write>, i: nat, clock: Time, now: Time, p: Principal)
    requires Inv(before, clock) && clock < now && SafePass(before, a + b, p, now) && p != GLOBAL && i <= |a|
    ensures PassKept(before, ApplyAll(before, a[..i], p), now, p)
  {
    PrefixKept(before, a + b, i, clock, now, p);
    assert (a + b)[..i] == a[..i];
  }

  lemma SecondCut(before: Store, a: seq<Write>, b: seq<Write>, j: nat, clock: Time, now: Time, p: Principal)
    requires Inv(before, clock) && clock < now && SafePass(before, a + b, p, now) && p != GLOBAL && j <= |b|
    ensures PassKept(before, ApplyAll(ApplyAll(before, a, p), b[..j], p), now, p)
  {
    PrefixKept(before, a + b, |a| + j, clock, now, p);
    assert (a + b)[..|a| + j] == a + b[..j];
    ApplyConcat(before, a, b[..j], p);
  }

  // ---- the catalog walk ----------------------------------------------------------------

  /** Superseding adds no id, so the inserts that follow find theirs free. */
  lemma StillNew(before: Store, supersede: seq<Row>, inserts: seq<Row>, now: Time, p: Principal)
    requires SafePass(before, Upserts(supersede) + Insertions(inserts), p, now)
    ensures Applicable(ApplyAll(before, Upserts(supersede), p), Insertions(inserts))
  {
    PassIds(before, supersede, inserts, now, p);
    ApplyAllWrites(before, Upserts(supersede), p);
  }

  lemma PassIds(before: Store, supersede: seq<Row>, inserts: seq<Row>, now: Time, p: Principal)
    requires SafePass(before, Upserts(supersede) + Insertions(inserts), p, now)
    ensures Applicable(before, Upserts(supersede)) && Applicable(before, Insertions(inserts))
    ensures forall k :: 0 <= k < |supersede| ==> supersede[k].id in before
  {
    var a, b := Upserts(supersede), Insertions(inserts);
    DistinctParts(a, b);
    forall k | 0 <= k < |a| ensures a[k].row.id in before {
      WriteAt(before, a + b, k, now, p);
    }
    forall k | 0 <= k < |b| ensures b[k].row.id !in before {
      WriteAt(before, a + b, |a| + k, now, p);
    }
  }

  lemma WriteAt(before: Store, ws: seq<Write>, k: nat, now: Time, p: Principal)
    requires SafePass(before, ws, p, now) && k < |ws|
    ensures ws[k].row.id in before <==> ws[k].Upsert?
  {
    assert PassWrite(before, ws, k, p, now);
  }

  ghost predicate DistinctIds(ws: seq<Write>) {
    forall j, k :: 0 <= j < k < |ws| ==> ws[j].row.id != ws[k].row.id
  }

  lemma DistinctParts(a: seq<Write>, b: seq<Write>)
    requires DistinctIds(a + b)
    ensures DistinctIds(a) && DistinctIds(b)
  {
    forall j, k | 0 <= j < k < |b| ensures b[j].row.id != b[k].row.id {
      assert (a + b)[|a| + j] == b[j] && (a + b)[|a| + k] == b[k];
    }
    forall j, k | 0 <= j < k < |a| ensures a[j].row.id != a[k].row.id {
      assert (a + b)[j] == a[j] && (a + b)[k] == a[k];
    }
  }

  /** run_walk's writes: supersede everything first, then insert. */
  method SupersedeThenInsert(client: CCClient, supersede: seq<Row>, inserts: seq<Row>, ghost clock: Time, now: Time)
    returns (r: Result<()>)
    requires client.store.Keyed() && client.principal.Some? && client.principal != Some(GLOBAL)
    requires Inv(client.store.rows, clock) && clock < now
    requires SafePass(client.store.rows, Upserts(supersede) + Insertions(inserts), client.principal.value, now)
    modifies client.store
    ensures PassKept(old(client.store.rows), client.store.rows, now, client.principal.value)
    ensures r.Ok? ==>
      client.store.rows == ApplyAll(old(client.store.rows), Upserts(supersede) + Insertions(inserts), client.principal.value)
    ensures client.reliable && client.MayWrite() ==> r.Ok?
  {
    ghost var before, p := client.store.rows, client.principal.value;
    ghost var a, b := Upserts(supersede), Insertions(inserts);
    ghost var i, j: nat;
    r, i := UpsertRows(client, supersede);
    BothKept(before, a, b, i, 0, clock, now, p);
    if r.Err? {
      return;
    }
    assert a[..|a|] == a;
    StillNew(before, supersede, inserts, now, p);
    r, j := InsertRows(client, inserts);
    BothKept(before, a, b, i, j, clock, now, p);
    assert b[..|b|] == b;
  }

  /** okf_walk.run_walk: counts of documents, inserts, supersedes and unchanged ones. */
  method RunWalk(client: CCClient, bundle: seq<Reconcile.Doc>, ghost clock: Time, now: Time)
    returns (r: Result<(nat, nat, nat, nat)>, ghost current: seq<Row>)
    requires client.store.Keyed() && Reconcile.DistinctDocs(bundle)
    requires client.principal.Some? && client.principal != Some(GLOBAL)
    requires Inv(client.store.rows, clock) && clock < now
    modifies client.store
    ensures PassKept(old(client.store.rows), client.store.rows, now, client.principal.value)
    ensures r.Ok? ==>
      && LiveView(old(client.store.rows), current, client.principal.value)
      && client.store.rows == ApplyAll(old(client.store.rows), Reconcile.WalkWrites(bundle, current, now, None), client.principal.value)
      && r.value == (|bundle|, |Reconcile.Inserts(bundle, current, now)|, |Reconcile.ToSupersede(bundle, current, now, None)|,
                     Reconcile.UnchangedCount(bundle, current))
    ensures client.reliable && client.MayWrite() ==> r.Ok?
  {
    ghost var before, p := client.store.rows, client.principal.value;
    current := [];
    var read := client.ExecuteMemoryRead(true, IsLive);
    if read.Err? {
      return Err(read.error), current;
    }
    current := read.value;
    var inserts, supersede, same := Reconcile.ReconcileBundle(bundle, read.value, now, None);
    Reconcile.WalkSafe(before, bundle, current, clock, now, None, p);
    var done := SupersedeThenInsert(client, supersede, inserts, clock, now);
    r := if done.Err? then Err(done.error) else Ok((|bundle|, |inserts|, |supersede|, same));
  }

  // ---- memory_write -----------------------------------------------------------------

  /** What a note write reports. */
  datatype Answer = Duplicate(block: string) | AlreadyThere | Written(action: NoteAction, retired: int)

  function AnswerOf(refused: Option<string>, decision: Decision): Answer {
    match refused
    case Some(block) => Duplicate(block)
    case None =>
      match decision
      case NoChange => AlreadyThere
      case Rewrite(action, _, retired) => Written(action, retired)
  }

  /**
   * run_memory_write: check, read, then reinforce a paraphrased row, best effort, or supersede and
   * insert.
   */
  method RunMemoryWrite(client: CCClient, req: Request, lex: Lexicon, ghost clock: Time, now: Time)
    returns (r: Result<Answer>, ghost found: seq<Row>)
    requires client.store.Keyed() && client.principal.Some? && client.principal != Some(GLOBAL)
    requires Inv(client.store.rows, clock) && clock < now
    modifies client.store
    ensures PassKept(old(client.store.rows), client.store.rows, now, client.principal.value)
    ensures Validate(client.writeEnabled, req).Some? ==>
      r == Err(Validate(client.writeEnabled, req).value) && client.store.rows == old(client.store.rows)
    ensures r.Ok? ==>
      && SubjectView(old(client.store.rows), found, req.subject, client.principal.value)
      && r.value == AnswerOf(Refused(First(found), req, lex), Decide(First(found), req, now, lex.lower))
      && (client.store.rows == ApplyAll(old(client.store.rows), NoteWrites(First(found), req, now, lex), client.principal.value)
          || (r.value.Duplicate? && !client.reliable && client.store.rows == old(client.store.rows)))
    ensures client.reliable && Validate(client.writeEnabled, req).None? ==> r.Ok?
  {
    found := [];
    var bad := Validate(client.writeEnabled, req);
    if bad.Some? {
      return Err(bad.value), found;
    }
    var subject := req.subject;
    var read := client.ExecuteMemoryRead(true, (row: Row) => Current(row) && row.subject == subject);
    if read.Err? {
      return Err(read.error), found;
    }
    found := read.value;
    NoteWriteSafe(client.store.rows, found, req, clock, now, lex, client.principal.value);
    var refused := Refused(First(read.value), req, lex);
    var decision := Decide(First(read.value), req, now, lex.lower);
    var done := WriteDecision(client, First(read.value), refused.Some?, decision, req.author, clock, now);
    r := if done.Err? then Err(done.error) else Ok(AnswerOf(refused, decision));
  }

  /** The writes of an accepted request; only a refused one's may be lost without an error. */
  method WriteDecision(client: CCClient, existing: Option<Row>, refused: bool, decision: Decision, author: Option<string>,
                       ghost clock: Time, now: Time)
    returns (r: Result<()>)
    requires client.store.Keyed() && client.principal.Some? && client.principal != Some(GLOBAL)
    requires Inv(client.store.rows, clock) && clock < now && (refused ==> existing.Some?)
    requires SafePass(client.store.rows, WritesFor(existing, refused, decision, author, now), client.principal.value, now)
    modifies client.store
    ensures PassKept(old(client.store.rows), client.store.rows, now, client.principal.value)
    ensures refused ==> r.Ok?
    ensures r.Ok? ==>
      || client.store.rows == ApplyAll(old(client.store.rows), WritesFor(existing, refused, decision, author, now), client.principal.value)
      || (refused && !(client.reliable && client.MayWrite()) && client.store.rows == old(client.store.rows))
    ensures client.reliable && client.MayWrite() ==> r.Ok?
  {
    ghost var ws := WritesFor(existing, refused, decision, author, now);
    if refused {
      BumpExisting(client, existing.value, clock, now);
      r := Ok(());
    } else if decision.NoChange? {
      assert ws == [];
      r := Ok(());
    } else {
      var row := Authored(decision.row, author);
      var closed := if existing.Some? then [existing.value.(validTo := Some(now))] else [];
      assert ws == Upserts(closed) + Insertions([row]);
      r := SupersedeThenInsert(client, closed, [row], clock, now);
    }
  }

  /** reinforce_notes of the one row a refused note paraphrases: a failed write is swallowed. */
  method BumpExisting(client: CCClient, existing: Row, ghost clock: Time, now: Time)
    requires client.store.Keyed() && client.principal.Some? && client.principal != Some(GLOBAL)
    requires Inv(client.store.rows, clock) && clock < now
    requires SafePass(client.store.rows, Upserts([Bumped(existing, now)]), client.principal.value, now)
    modifies client.store
    ensures PassKept(old(client.store.rows), client.store.rows, now, client.principal.value)
    ensures
      || client.store.rows == ApplyAll(old(client.store.rows), Upserts([Bumped(existing, now)]), client.principal.value)
      || (!(client.reliable && client.MayWrite()) && client.store.rows == old(client.store.rows))
  {
    ghost var before, p, ws := client.store.rows, client.principal.value, Upserts([Bumped(existing, now)]);
    var done, cut := UpsertRows(client, [Bumped(existing, now)]);
    PrefixKept(before, ws, cut, clock, now, p);
    assert ws[..|ws|] == ws && ws[..0] == [];
  }

  // ---- upkeep ---------------------------------------------------------------------------

  lemma SelectionPrefix(rows: Store, found: seq<Row>, n: nat, p: Principal)
    requires Selection(rows, found, p) && n <= |found| && forall k :: 0 <= k < |found| ==> Current(found[k])
    ensures Selection(rows, found[..n], p) && forall k :: 0 <= k < n ==> Current(found[..n][k])
  {
  }

  /** The part of a decay pass over the first n rows keeps the promises. */
  lemma DecayPart(before: Store, found: seq<Row>, n: nat, clock: Time, now: Time, p: Principal)
    requires Inv(before, clock) && clock < now && p != GLOBAL
    requires Selection(before, found, p) && n <= |found| && forall k :: 0 <= k < |found| ==> Current(found[k])
    ensures PassKept(before, ApplyAll(before, Upserts(Decayed(found[..n], now)), p), now, p)
  {
    SelectionPrefix(before, found, n, p);
    DecayUpdates(before, found[..n], p, now);
    var ws := Upserts(Decayed(found[..n], now));
    UpdatesSafe(before, Decayed(found[..n], now), p, now);
    PrefixKept(before, ws, |ws|, clock, now, p);
  }

  lemma UpsertsSnoc(before: Store, d: seq<Row>, row: Row, p: Principal)
    ensures ApplyAll(before, Upserts(d + [row]), p) == Apply(ApplyAll(before, Upserts(d), p), Upsert(row), p)
  {
    var ws := Upserts(d + [row]);
    assert ws[..|ws| - 1] == Upserts(d);
  }

  function DecaySoFar(before: Store, found: seq<Row>, n: nat, now: Time, p: Principal): Store
    requires n <= |found|
  {
    ApplyAll(before, Upserts(Decayed(found[..n], now)), p)
  }

  /** One turn of the decay loop. */
  lemma DecayTurn(before: Store, found: seq<Row>, n: nat, clock: Time, now: Time, p: Principal)
    requires Inv(before, clock) && clock < now && p != GLOBAL
    requires Selection(before, found, p) && n < |found| && forall k :: 0 <= k < |found| ==> Current(found[k])
    ensures PassKept(before, DecaySoFar(before, found, n, now, p), now, p)
    ensures PassKept(before, DecaySoFar(before, found, n + 1, now, p), now, p)
    ensures DecaySoFar(before, found, n + 1, now, p) ==
      if DecayCandidate(found[n], now) then Apply(DecaySoFar(before, found, n, now, p), Upsert(Archived(found[n], now)), p)
      else DecaySoFar(before, found, n, now, p)
    ensures |Decayed(found[..n + 1], now)| == |Decayed(found[..n], now)| + (if DecayCandidate(found[n], now) then 1 else 0)
  {
    DecayPart(before, found, n, clock, now, p);
    DecayPart(before, found, n + 1, clock, now, p);
    assert found[..n + 1][..n] == found[..n];
    UpsertsSnoc(before, Decayed(found[..n], now), Archived(found[n], now), p);
    assert Decayed(found[..n], now) + [] == Decayed(found[..n], now);
  }

  /** A current note of the tenant's view that decay is for. */
  predicate DueFor(row: Row, now: Time, p: Principal) {
    Current(row) && Seen(row, p) && Outcomes.Neglected(row, now)
  }

  /** Every row that is no neglected note of the tenant's view, or not current, is exactly as it was. */
  ghost predicate OnlyNeglected(before: Store, after: Store, now: Time, p: Principal) {
    forall i :: i in before ==>
      i in after && (after[i] == before[i] || (DueFor(before[i], now, p) && after[i] == Outcomes.Filed(before[i], now, p)))
  }

  /** Every neglected note of the tenant's view is archived. */
  ghost predicate AllFiled(before: Store, after: Store, now: Time, p: Principal) {
    forall i :: i in before && DueFor(before[i], now, p) ==> i in after && after[i] == Outcomes.Filed(before[i], now, p)
  }

  lemma DecayedSoFar(before: Store, found: seq<Row>, n: nat, clock: Time, now: Time, p: Principal)
    requires Inv(before, clock) && n <= |found|
    requires Selection(before, found, p) && forall k :: 0 <= k < |found| ==> Current(found[k])
    ensures OnlyNeglected(before, DecaySoFar(before, found, n, now, p), now, p)
  {
    SelectionPrefix(before, found, n, p);
    var after := DecaySoFar(before, found, n, now, p);
    forall i | i in before
      ensures i in after && (after[i] == before[i] || (DueFor(before[i], now, p) && after[i] == Outcomes.Filed(before[i], now, p)))
    {
      Outcomes.DecayedExact(before, found[..n], p, now, i);
    }
  }

  lemma NeglectedFiled(before: Store, found: seq<Row>, clock: Time, now: Time, p: Principal)
    requires Inv(before, clock) && NoteView(before, found, p)
    ensures AllFiled(before, ApplyAll(before, Upserts(Decayed(found, now)), p), now, p)
  {
    var after := ApplyAll(before, Upserts(Decayed(found, now)), p);
    forall i | i in before && DueFor(before[i], now, p) ensures i in after && after[i] == Outcomes.Filed(before[i], now, p) {
      Outcomes.DecayedExact(before, found, p, now, i);
    }
  }

  /** The loop of run_decay: archive each candidate, stop at a failed write. */
  method ArchiveAll(client: CCClient, rows: seq<Row>, ghost clock: Time, now: Time) returns (r: Result<nat>, ghost cut: nat)
    requires client.store.Keyed() && client.principal.Some? && client.principal != Some(GLOBAL)
    requires Inv(client.store.rows, clock) && clock < now
    requires Selection(client.store.rows, rows, client.principal.value) && forall k :: 0 <= k < |rows| ==> Current(rows[k])
    modifies client.store
    ensures cut <= |rows| && client.store.rows == DecaySoFar(old(client.store.rows), rows, cut, now, client.principal.value)
    ensures r.Ok? ==> cut == |rows| && r.value == |Decayed(rows, now)|
    ensures client.reliable && client.MayWrite() ==> r.Ok?
  {
    ghost var before, p := client.store.rows, client.principal.value;
    var archived := 0;
    cut := 0;
    assert Decayed(rows[..0], now) == [];
    for n := 0 to |rows|
      invariant client.store.Keyed() && archived == |Decayed(rows[..n], now)| && cut == n
      invariant client.store.rows == DecaySoFar(before, rows, n, now, p)
    {
      DecayTurn(before, rows, n, clock, now, p);
      if DecayCandidate(rows[n], now) {
        var done := client.ExecuteMemoryWrite(UpsertMemory, Archived(rows[n], now));
        if done.Err? {
          cut := if client.store.rows == DecaySoFar(before, rows, n, now, p) then n else n + 1;
          return Err(done.error), cut;
        }
        archived := archived + 1;
      }
      cut := n + 1;
    }
    assert rows[..|rows|] == rows;
    r := Ok(archived);
  }

  /** run_decay: read the standalone notes and archive the candidates. */
  method RunDecay(client: CCClient, ghost clock: Time, now: Time) returns (r: Result<(nat, nat)>, ghost found: seq<Row>)
    requires client.store.Keyed() && client.principal.Some? && client.principal != Some(GLOBAL)
    requires Inv(client.store.rows, clock) && clock < now
    modifies client.store
    ensures PassKept(old(client.store.rows), client.store.rows, now, client.principal.value)
    ensures r.Ok? ==>
      && NoteView(old(client.store.rows), found, client.principal.value)
      && client.store.rows == ApplyAll(old(client.store.rows), Upserts(Decayed(found, now)), client.principal.value)
      && r.value == (|found|, |Decayed(found, now)|)
      && AllFiled(old(client.store.rows), client.store.rows, now, client.principal.value)
    ensures OnlyNeglected(old(client.store.rows), client.store.rows, now, client.principal.value)
    ensures client.reliable && client.MayWrite() ==> r.Ok?
  {
    ghost var before, p := client.store.rows, client.principal.value;
    found := [];
    assert before == DecaySoFar(before, [], 0, now, p);
    DecayPart(before, [], 0, clock, now, p);
    DecayedSoFar(before, [], 0, clock, now, p);
    var read := client.ExecuteMemoryRead(true, IsNoteRow);
    if read.Err? {
      return Err(read.error), found;
    }
    found := read.value;
    var archived, cut := ArchiveAll(client, read.value, clock, now);
    DecayPart(before, found, cut, clock, now, p);
    DecayedSoFar(before, found, cut, clock, now, p);
    if archived.Err? {
      return Err(archived.error), found;
    }
    assert found[..|found|] == found;
    NeglectedFiled(before, found, clock, now, p);
    r := Ok((|read.value|, archived.value));
  }

  lemma ReplayPart(before: Store, xs: seq<Replay>, clock: Time, now: Time, p: Principal)
    requires Inv(before, clock) && clock < now && p != GLOBAL && ReplayInput(before, xs, p)
    ensures PassKept(before, ApplyAll(before, Upserts(Revalidated(xs, now)), p), now, p)
  {
    RevalidateUpdates(before, xs, p, now);
    var ws := Upserts(Revalidated(xs, now));
    UpdatesSafe(before, Revalidated(xs, now), p, now);
    PrefixKept(before, ws, |ws|, clock, now, p);
  }

  lemma ReplayStep(before: Store, xs: seq<Replay>, x: Replay, now: Time, p: Principal)
    ensures ApplyAll(before, Upserts(Revalidated(xs + [x], now)), p)
         == var so_far := ApplyAll(before, Upserts(Revalidated(xs, now)), p);
            match Outcome(x, now) { case Some(row) => Apply(so_far, Upsert(row), p) case None => so_far }
  {
    assert (xs + [x])[..|xs|] == xs;
    var d := Revalidated(xs, now);
    if Outcome(x, now).Some? {
      UpsertsSnoc(before, d, Outcome(x, now).value, p);
    } else {
      assert d + [] == d;
    }
  }

  /** The replays so far are of the first rows of the selection, in order. */
  ghost predicate ReplaysOf(xs: seq<Replay>, rows: seq<Row>, n: nat) {
    n <= |rows| && |xs| == n && forall k :: 0 <= k < n ==> xs[k].row == rows[k]
  }

  lemma ReplaysInput(before: Store, rows: seq<Row>, xs: seq<Replay>, n: nat, p: Principal)
    requires Selection(before, rows, p) && ReplaysOf(xs, rows, n)
    ensures ReplayInput(before, xs, p)
  {
    forall x | x in xs ensures x.row.id in before && before[x.row.id] == x.row && Seen(x.row, p) {
      var k :| 0 <= k < |xs| && xs[k] == x;
    }
  }

  /** One turn of the replay loop, as far as its write. */
  method ReplayOne(client: CCClient, row: Row, proof: Proof, now: Time, ghost before: Store, ghost replays: seq<Replay>)
    returns (ghost x: Replay)
    requires client.store.Keyed() && client.principal.Some?
    requires client.store.rows == ApplyAll(before, Upserts(Revalidated(replays, now)), client.principal.value)
    modifies client.store
    ensures client.store.Keyed() && x.row == row && x.proof == proof
    ensures client.store.rows == ApplyAll(before, Upserts(Revalidated(replays + [x], now)), client.principal.value)
    ensures client.reliable && client.MayWrite() && Replayed(row, proof, now).Some? ==> x.delivered
  {
    ghost var p := client.principal.value;
    var outcome := Replayed(row, proof, now);
    x := Replay(row, proof, false);
    ReplayStep(before, replays, Replay(row, proof, false), now, p);
    ReplayStep(before, replays, Replay(row, proof, true), now, p);
    if outcome.Some? {
      var done := client.ExecuteMemoryWrite(UpsertMemory, outcome.value);
      x := x.(delivered := client.store.rows == Apply(ApplyAll(before, Upserts(Revalidated(replays, now)), p), Upsert(outcome.value), p));
    }
  }

  lemma TallyStep(xs: seq<Replay>, x: Replay)
    ensures Tally(xs + [x]) == Counted(Tally(xs), x.row, x.proof)
  {
    assert (xs + [x])[..|xs|] == xs;
  }

  /** The replay loop. */
  method ReplayAll(client: CCClient, rows: seq<Row>, prove: Row -> Proof, now: Time)
    returns (counters: Counters, ghost replays: seq<Replay>)
    requires client.store.Keyed() && client.principal.Some?
    modifies client.store
    ensures ReplaysOf(replays, rows, |rows|) && counters == Tally(replays)
    ensures forall x :: x in replays ==> x.proof == prove(x.row)
    ensures forall x :: x in replays && client.reliable && client.MayWrite() && Replayed(x.row, x.proof, now).Some? ==> x.delivered
    ensures client.store.rows == ApplyAll(old(client.store.rows), Upserts(Revalidated(replays, now)), client.principal.value)
  {
    ghost var before, p := client.store.rows, client.principal.value;
    counters, replays := Counters(0, 0, 0), [];
    for n := 0 to |rows|
      invariant client.store.Keyed() && ReplaysOf(replays, rows, n) && counters == Tally(replays)
      invariant forall x :: x in replays ==> x.proof == prove(x.row)
      invariant forall x :: x in replays && client.reliable && client.MayWrite() && Replayed(x.row, x.proof, now).Some? ==> x.delivered
      invariant client.store.rows == ApplyAll(before, Upserts(Revalidated(replays, now)), p)
    {
      var proof := prove(rows[n]);
      ghost var x := ReplayOne(client, rows[n], proof, now, before, replays);
      TallyStep(replays, x);
      counters := Counted(counters, rows[n], proof);
      replays := replays + [x];
    }
  }

  /** run_revalidation: replay each note's own proof; a failed write does not stop the pass. */
  method RunRevalidation(client: CCClient, prove: Row -> Proof, ghost clock: Time, now: Time)
    returns (counters: Counters, ghost found: seq<Row>, ghost replays: seq<Replay>)
    requires client.store.Keyed() && client.principal.Some? && client.principal != Some(GLOBAL)
    requires Inv(client.store.rows, clock) && clock < now
    modifies client.store
    ensures PassKept(old(client.store.rows), client.store.rows, now, client.principal.value)
    ensures found == [] || NoteView(old(client.store.rows), found, client.principal.value)
    ensures ReplaysOf(replays, found, |found|) && forall x :: x in replays ==> x.proof == prove(x.row)
    ensures client.store.rows == ApplyAll(old(client.store.rows), Upserts(Revalidated(replays, now)), client.principal.value)
    ensures counters == Tally(replays)
    ensures !client.writeEnabled ==> replays == []
    ensures client.reliable && client.writeEnabled ==>
      && NoteView(old(client.store.rows), found, client.principal.value)
      && forall x :: x in replays && Replayed(x.row, x.proof, now).Some? ==> x.delivered
  {
    ghost var before, p := client.store.rows, client.principal.value;
    counters, found, replays := Counters(0, 0, 0), [], [];
    ReplayPart(before, [], clock, now, p);
    if !client.writeEnabled {
      return;
    }
    var read := client.ExecuteMemoryRead(true, IsNoteRow);
    if read.Err? {
      return;
    }
    found := read.value;
    counters, replays := ReplayAll(client, read.value, prove, now);
    ReplaysInput(before, found, replays, |found|, p);
    ReplayPart(before, replays, clock, now, p);
  }

  /** reinforce_notes on rows just fetched: best effort, stops at the first failed write. */
  method ReinforceNotes(client: CCClient, found: seq<Row>, reasons: map<RowId, string>, ghost clock: Time, now: Time)
    returns (ghost cut: nat)
    requires client.store.Keyed() && client.principal.Some? && client.principal != Some(GLOBAL)
    requires Inv(client.store.rows, clock) && clock < now
    requires Selection(client.store.rows, found, client.principal.value) && forall k :: 0 <= k < |found| ==> Current(found[k])
    modifies client.store
    ensures PassKept(old(client.store.rows), client.store.rows, now, client.principal.value)
    ensures cut <= |found| && client.store.rows
      == ApplyAll(old(client.store.rows), Upserts(Reinforced(found, reasons, now))[..cut], client.principal.value)
    ensures client.reliable && client.MayWrite() ==> cut == |found|
  {
    ReinforceSafe(client.store.rows, found, reasons, client.principal.value, now);
    var r;
    r, cut := UpsertRows(client, Reinforced(found, reasons, now));
    PrefixKept(old(client.store.rows), Upserts(Reinforced(found, reasons, now)), cut, clock, now, client.principal.value);
  }

  /** backfill_principals: every row without an owner goes back through the stamping write path. */
  method Backfill(client: CCClient, ghost clock: Time) returns (r: Result<nat>, ghost found: seq<Row>, ghost cut: nat)
    requires client.store.Keyed() && client.principal.Some?
    requires Inv(client.store.rows, clock)
    modifies client.store
    ensures History(old(client.store.rows), client.store.rows)
    ensures Frame(old(client.store.rows), client.store.rows, client.principal.value)
    ensures !client.writeEnabled ==> r == Ok(0) && client.store.rows == old(client.store.rows)
    ensures cut <= |found| && Adoption.Unowned(old(client.store.rows), found)
    ensures client.store.rows == Adoption.AfterAdopting(old(client.store.rows), found[..cut], client.principal.value)
    ensures client.writeEnabled && r.Ok? ==>
      r.value == |found| == cut && Adoption.UnownedView(old(client.store.rows), found)
    ensures client.reliable ==> r.Ok?
  {
    cut, found := 0, [];
    if !client.writeEnabled {
      return Ok(0), found, cut;
    }
    ghost var before, p := client.store.rows, client.principal.value;
    var read := client.ExecuteUnowned();
    Adoption.AdoptKeeps(before, [], p, clock);
    if read.Err? {
      return Err(read.error), found, cut;
    }
    found := read.value;
    var done;
    done, cut := AdoptRows(client, read.value, clock);
    assert found[..|found|] == found;
    r := if done.Err? then Err(done.error) else Ok(|read.value|);
  }

  /** _adopt's loop: write each row back as it is. */
  method AdoptRows(client: CCClient, found: seq<Row>, ghost clock: Time) returns (r: Result<()>, ghost cut: nat)
    requires client.store.Keyed() && client.principal.Some?
    requires Inv(client.store.rows, clock) && Adoption.Unowned(client.store.rows, found)
    modifies client.store
    ensures cut <= |found| && (r.Ok? ==> cut == |found|)
    ensures client.store.rows == Adoption.AfterAdopting(old(client.store.rows), found[..cut], client.principal.value)
    ensures History(old(client.store.rows), client.store.rows)
    ensures Frame(old(client.store.rows), client.store.rows, client.principal.value)
    ensures client.reliable && client.MayWrite() ==> r.Ok?
  {
    ghost var before, p := client.store.rows, client.principal.value;
    r, cut := UpsertRows(client, found);
    assert Upserts(found)[..cut] == Upserts(found[..cut]);
    Adoption.AdoptKeeps(before, found[..cut], p, clock);
  }
}
