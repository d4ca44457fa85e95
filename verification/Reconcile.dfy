// okf_walk.reconcile and run_walk: the catalog walk against the stored concepts.
//
// A dict keyed by subject is the sequence of its values in insertion order.

module Reconcile {
  import opened Basics
  import opened Text
  import opened Layers
  import opened Rows

  /** A concept document of a bundle; walk documents carry no overlay. */
  datatype Doc = Doc(
    subject: string,
    typ: string,
    core: Option<string>,
    text: string,
    overlay: Option<string>,
    sourceQuery: Option<string>,
    attrs: map<string, string>)

  ghost predicate DistinctDocs(bundle: seq<Doc>) {
    forall i, j :: 0 <= i < j < |bundle| ==> bundle[i].subject != bundle[j].subject
  }

  /** current.get(subject) */
  function Stored(current: seq<Row>, subject: string): (r: Option<Row>)
    ensures r.Some? ==> r.value in current && r.value.subject == subject
    ensures r.None? ==> forall row :: row in current ==> row.subject != subject
  {
    if current == [] then None
    else if current[0].subject == subject then Some(current[0])
    else Stored(current[1..], subject)
  }

  predicate InBundle(bundle: seq<Doc>, subject: string) {
    exists k :: 0 <= k < |bundle| && bundle[k].subject == subject
  }

  /** in_scope: the dataverse itself or a concept under it. */
  predicate InScope(subject: string, dataverse: string) {
    subject == dataverse || StartsWith(subject, dataverse + ".") || StartsWith(subject, dataverse + "/")
  }

  /** str(doc.get("core", doc.get("text", ""))) */
  function NewCore(doc: Doc): string {
    doc.core.GetOr(doc.text)
  }

  /** The overlay the new row gets: carried and re-grounded, or the imported one. */
  function NextOverlay(doc: Doc, existing: Option<Row>): string {
    match existing
    case None => doc.overlay.GetOr("")
    case Some(row) =>
      if doc.overlay.None? then Reground(OldOverlay(row), OldCore(row), NewCore(doc)).0 else doc.overlay.value
  }

  predicate Unchanged(doc: Doc, existing: Option<Row>) {
    existing.Some? && NewCore(doc) == OldCore(existing.value) && NextOverlay(doc, existing) == OldOverlay(existing.value)
  }

  function NewRow(doc: Doc, existing: Option<Row>, now: Time): Row {
    var overlay := NextOverlay(doc, existing);
    Row(RowId(doc.subject, now), doc.subject, doc.typ, SEMANTIC, Some(NewCore(doc)),
        if overlay == "" then None else Some(overlay), MergeLayers(NewCore(doc), overlay),
        now, None, None, doc.sourceQuery, 0, None, None, doc.attrs)
  }

  function Closed(row: Row, now: Time): Row {
    row.(validTo := Some(now))
  }

  // ---- the three results ---------------------------------------------------------

  function Inserts(bundle: seq<Doc>, current: seq<Row>, now: Time): seq<Row> {
    if bundle == [] then []
    else
      var doc := bundle[|bundle| - 1];
      var existing := Stored(current, doc.subject);
      Inserts(bundle[..|bundle| - 1], current, now)
        + if Unchanged(doc, existing) then [] else [NewRow(doc, existing, now)]
  }

  /** Superseded because their document changed. */
  function Replaced(bundle: seq<Doc>, current: seq<Row>, now: Time): seq<Row> {
    if bundle == [] then []
    else
      var doc := bundle[|bundle| - 1];
      var existing := Stored(current, doc.subject);
      Replaced(bundle[..|bundle| - 1], current, now)
        + if existing.None? || Unchanged(doc, existing) then [] else [Closed(existing.value, now)]
  }

  predicate HasVanished(row: Row, bundle: seq<Doc>, scope: Option<string>) {
    !InBundle(bundle, row.subject) && WalkOwned(row) && (scope.None? || InScope(row.subject, scope.value))
  }

  /** Superseded because the catalog no longer has them. */
  function Vanished(current: seq<Row>, bundle: seq<Doc>, now: Time, scope: Option<string>): seq<Row> {
    if current == [] then []
    else
      var row := current[|current| - 1];
      Vanished(current[..|current| - 1], bundle, now, scope)
        + if HasVanished(row, bundle, scope) then [Closed(row, now)] else []
  }

  function UnchangedCount(bundle: seq<Doc>, current: seq<Row>): nat {
    if bundle == [] then 0
    else
      var doc := bundle[|bundle| - 1];
      UnchangedCount(bundle[..|bundle| - 1], current) + if Unchanged(doc, Stored(current, doc.subject)) then 1 else 0
  }

  lemma BundleStep(bundle: seq<Doc>, n: nat, current: seq<Row>, now: Time)
    requires n < |bundle|
    ensures var doc, existing := bundle[n], Stored(current, bundle[n].subject);
      && Inserts(bundle[..n + 1], current, now)
         == Inserts(bundle[..n], current, now) + (if Unchanged(doc, existing) then [] else [NewRow(doc, existing, now)])
      && Replaced(bundle[..n + 1], current, now)
         == Replaced(bundle[..n], current, now)
            + (if existing.None? || Unchanged(doc, existing) then [] else [Closed(existing.value, now)])
      && UnchangedCount(bundle[..n + 1], current)
         == UnchangedCount(bundle[..n], current) + (if Unchanged(doc, existing) then 1 else 0)
  {
    assert bundle[..n + 1][..n] == bundle[..n];
  }

  lemma VanishStep(replaced: seq<Row>, current: seq<Row>, n: nat, bundle: seq<Doc>, now: Time, scope: Option<string>)
    requires n < |current|
    ensures var before := replaced + Vanished(current[..n], bundle, now, scope);
      replaced + Vanished(current[..n + 1], bundle, now, scope)
      == if HasVanished(current[n], bundle, scope) then before + [Closed(current[n], now)] else before
  {
    assert current[..n + 1][..n] == current[..n];
  }

  /** reconcile as written: two loops appending to inserts and supersede and counting. */
  method ReconcileBundle(bundle: seq<Doc>, current: seq<Row>, now: Time, scope: Option<string>)
    returns (inserts: seq<Row>, supersede: seq<Row>, same: nat)
    ensures inserts == Inserts(bundle, current, now)
    ensures supersede == Replaced(bundle, current, now) + Vanished(current, bundle, now, scope)
    ensures same == UnchangedCount(bundle, current)
  {
    inserts, supersede, same := [], [], 0;
    for n := 0 to |bundle|
      invariant inserts == Inserts(bundle[..n], current, now)
      invariant supersede == Replaced(bundle[..n], current, now)
      invariant same == UnchangedCount(bundle[..n], current)
    {
      var doc := bundle[n];
      BundleStep(bundle, n, current, now);
      var existing := Stored(current, doc.subject);
      var newCore := NewCore(doc);
      var overlay := OverlayFor(doc, existing);
      if existing.Some? {
        if newCore == OldCore(existing.value) && overlay == OldOverlay(existing.value) {
          same := same + 1;
          continue;
        }
        supersede := supersede + [Closed(existing.value, now)];
      }
      inserts := inserts + [Row(RowId(doc.subject, now), doc.subject, doc.typ, SEMANTIC, Some(newCore),
                                if overlay == "" then None else Some(overlay), MergeLayers(newCore, overlay),
                                now, None, None, doc.sourceQuery, 0, None, None, doc.attrs)];
    }
    assert bundle[..|bundle|] == bundle;
    supersede := CloseVanished(bundle, current, now, scope, supersede);
  }

  /** The overlay branches of reconcile's first loop. */
  method OverlayFor(doc: Doc, existing: Option<Row>) returns (overlay: string)
    ensures overlay == NextOverlay(doc, existing)
  {
    if existing.None? {
      return doc.overlay.GetOr("");
    }
    if doc.overlay.Some? {
      return doc.overlay.value;
    }
    var dropped;
    overlay, dropped := RegroundOverlay(OldOverlay(existing.value), OldCore(existing.value), NewCore(doc));
  }

  /** reconcile's second loop. */
  method CloseVanished(bundle: seq<Doc>, current: seq<Row>, now: Time, scope: Option<string>, replaced: seq<Row>)
    returns (supersede: seq<Row>)
    ensures supersede == replaced + Vanished(current, bundle, now, scope)
  {
    supersede := replaced;
    for n := 0 to |current|
      invariant supersede == replaced + Vanished(current[..n], bundle, now, scope)
    {
      VanishStep(replaced, current, n, bundle, now, scope);
      var existing := current[n];
      if InBundle(bundle, existing.subject) || !WalkOwned(existing) {
        continue;
      }
      if scope.None? || InScope(existing.subject, scope.value) {
        supersede := supersede + [Closed(existing, now)];
      }
    }
    assert current[..|current|] == current;
  }

  // ---- what the results contain ------------------------------------------------------

  predicate Changes(doc: Doc, current: seq<Row>) {
    !Unchanged(doc, Stored(current, doc.subject))
  }

  /** row is the new row of a changed document. */
  ghost predicate InsertOf(row: Row, bundle: seq<Doc>, current: seq<Row>, now: Time) {
    exists doc :: doc in bundle && Changes(doc, current) && row == NewRow(doc, Stored(current, doc.subject), now)
  }

  /** row is the closed form of what a changed document had stored. */
  ghost predicate ReplacementOf(row: Row, bundle: seq<Doc>, current: seq<Row>, now: Time) {
    exists doc :: doc in bundle && Changes(doc, current) && Stored(current, doc.subject).Some?
      && row == Closed(Stored(current, doc.subject).value, now)
  }

  ghost predicate VanishedOf(row: Row, current: seq<Row>, bundle: seq<Doc>, now: Time, scope: Option<string>) {
    exists old_ :: old_ in current && HasVanished(old_, bundle, scope) && row == Closed(old_, now)
  }

  lemma DocsSnoc(front: seq<Doc>, doc: Doc)
    requires DistinctDocs(front + [doc])
    ensures DistinctDocs(front) && forall d :: d in front ==> d.subject != doc.subject
    ensures forall d :: d in front + [doc] <==> d in front || d == doc
  {
    var all := front + [doc];
    forall d | d in front ensures d.subject != doc.subject {
      var k :| 0 <= k < |front| && front[k] == d;
      assert all[k] == d && all[|front|] == doc;
    }
    forall i, j | 0 <= i < j < |front| ensures front[i].subject != front[j].subject {
      assert all[i] == front[i] && all[j] == front[j];
    }
  }

  lemma DistinctConcat(a: seq<Row>, b: seq<Row>)
    requires DistinctSubjects(a) && DistinctSubjects(b)
    requires forall x, y :: x in a && y in b ==> x.subject != y.subject
    ensures DistinctSubjects(a + b)
  {
  }

  /** Exactly the changed documents get a row, each subject once. */
  lemma {:induction false} InsertsExact(bundle: seq<Doc>, current: seq<Row>, now: Time)
    requires DistinctDocs(bundle)
    ensures forall row :: row in Inserts(bundle, current, now) <==> InsertOf(row, bundle, current, now)
    ensures DistinctSubjects(Inserts(bundle, current, now))
  {
    if bundle != [] {
      var n := |bundle| - 1;
      assert bundle == bundle[..n] + [bundle[n]];
      DocsSnoc(bundle[..n], bundle[n]);
      InsertsExact(bundle[..n], current, now);
      var r := Inserts(bundle[..n], current, now);
      forall row | row in r ensures row.subject != bundle[n].subject {
        assert InsertOf(row, bundle[..n], current, now);
      }
      DistinctConcat(r, [NewRow(bundle[n], Stored(current, bundle[n].subject), now)]);
    }
  }

  /** Exactly the stored rows of changed documents are closed, each subject once. */
  lemma {:induction false} ReplacedExact(bundle: seq<Doc>, current: seq<Row>, now: Time)
    requires DistinctDocs(bundle)
    ensures forall row :: row in Replaced(bundle, current, now) <==> ReplacementOf(row, bundle, current, now)
    ensures DistinctSubjects(Replaced(bundle, current, now))
  {
    if bundle != [] {
      var n := |bundle| - 1;
      assert bundle == bundle[..n] + [bundle[n]];
      DocsSnoc(bundle[..n], bundle[n]);
      ReplacedExact(bundle[..n], current, now);
      var r := Replaced(bundle[..n], current, now);
      forall row | row in r ensures row.subject != bundle[n].subject {
        assert ReplacementOf(row, bundle[..n], current, now);
      }
      if Stored(current, bundle[n].subject).Some? {
        DistinctConcat(r, [Closed(Stored(current, bundle[n].subject).value, now)]);
      }
    }
  }

  lemma RowsSnoc(front: seq<Row>, row: Row)
    requires DistinctSubjects(front + [row])
    ensures DistinctSubjects(front) && forall r :: r in front ==> r.subject != row.subject
    ensures forall r :: r in front + [row] <==> r in front || r == row
  {
    var all := front + [row];
    forall r | r in front ensures r.subject != row.subject {
      var k :| 0 <= k < |front| && front[k] == r;
      assert all[k] == r && all[|front|] == row;
    }
    forall i, j | 0 <= i < j < |front| ensures front[i].subject != front[j].subject {
      assert all[i] == front[i] && all[j] == front[j];
    }
  }

  /** Exactly the vanished rows are closed, each subject once. */
  lemma {:induction false} VanishedExact(current: seq<Row>, bundle: seq<Doc>, now: Time, scope: Option<string>)
    requires DistinctSubjects(current)
    ensures forall row :: row in Vanished(current, bundle, now, scope) <==> VanishedOf(row, current, bundle, now, scope)
    ensures DistinctSubjects(Vanished(current, bundle, now, scope))
  {
    if current != [] {
      var n := |current| - 1;
      assert current == current[..n] + [current[n]];
      RowsSnoc(current[..n], current[n]);
      VanishedExact(current[..n], bundle, now, scope);
      var r := Vanished(current[..n], bundle, now, scope);
      forall row | row in r ensures row.subject != current[n].subject {
        assert VanishedOf(row, current[..n], bundle, now, scope);
      }
      DistinctConcat(r, [Closed(current[n], now)]);
    }
  }

  lemma {:induction false} StoredIs(current: seq<Row>, row: Row)
    requires DistinctSubjects(current) && row in current
    ensures Stored(current, row.subject) == Some(row)
  {
    if current[0] != row {
      var k :| 0 <= k < |current| && current[k] == row;
      assert current[0].subject != row.subject;
      assert current[1..][k - 1] == row;
      StoredIs(current[1..], row);
    }
  }

  // ---- the walk is a safe pass ----------------------------------------------------------

  function ToSupersede(bundle: seq<Doc>, current: seq<Row>, now: Time, scope: Option<string>): seq<Row> {
    Replaced(bundle, current, now) + Vanished(current, bundle, now, scope)
  }

  /** run_walk's write order: every supersede before any insert. */
  function WalkWrites(bundle: seq<Doc>, current: seq<Row>, now: Time, scope: Option<string>): seq<Write> {
    Upserts(ToSupersede(bundle, current, now, scope)) + Insertions(Inserts(bundle, current, now))
  }

  /** Every superseded row is a current one, closed at now, and each subject occurs once. */
  lemma SupersededShape(bundle: seq<Doc>, current: seq<Row>, now: Time, scope: Option<string>)
    requires DistinctDocs(bundle) && DistinctSubjects(current)
    ensures var r := ToSupersede(bundle, current, now, scope);
      && DistinctSubjects(r)
      && forall row :: row in r ==> exists old_ :: old_ in current && row == Closed(old_, now)
  {
    ReplacedExact(bundle, current, now);
    VanishedExact(current, bundle, now, scope);
    var a, b := Replaced(bundle, current, now), Vanished(current, bundle, now, scope);
    forall x, y | x in a && y in b ensures x.subject != y.subject {
      assert ReplacementOf(x, bundle, current, now) && VanishedOf(y, current, bundle, now, scope);
      assert InBundle(bundle, x.subject);
    }
    DistinctConcat(a, b);
  }

  lemma InsertIsNew(bundle: seq<Doc>, current: seq<Row>, now: Time, row: Row)
    requires DistinctDocs(bundle) && row in Inserts(bundle, current, now)
    ensures row.id == RowId(row.subject, now) && row.validFrom == now && Live(row) && Layered(row)
    ensures InsertOf(row, bundle, current, now)
  {
    InsertsExact(bundle, current, now);
  }

  /** A live row of an inserted subject was superseded. */
  lemma RivalSuperseded(bundle: seq<Doc>, current: seq<Row>, now: Time, scope: Option<string>, row: Row, old_: Row)
    requires DistinctDocs(bundle) && DistinctSubjects(current)
    requires row in Inserts(bundle, current, now) && old_ in current && old_.subject == row.subject
    ensures Closed(old_, now) in ToSupersede(bundle, current, now, scope)
  {
    InsertsExact(bundle, current, now);
    ReplacedExact(bundle, current, now);
    var doc :| doc in bundle && Changes(doc, current) && row == NewRow(doc, Stored(current, doc.subject), now);
    StoredIs(current, old_);
    assert ReplacementOf(Closed(old_, now), bundle, current, now);
  }

  /** The walk keeps every promise: superseding first, it never leaves two current rows. */
  lemma WalkSafe(rows: Store, bundle: seq<Doc>, current: seq<Row>, clock: Time, now: Time, scope: Option<string>, p: Principal)
    requires Inv(rows, clock) && clock < now && LiveView(rows, current, p) && DistinctDocs(bundle)
    ensures SafePass(rows, WalkWrites(bundle, current, now, scope), p, now)
  {
    ViewSubjects(rows, current, p, clock);
    var sup, ins := ToSupersede(bundle, current, now, scope), Inserts(bundle, current, now);
    var ws := WalkWrites(bundle, current, now, scope);
    SupersededShape(bundle, current, now, scope);
    InsertsExact(bundle, current, now);
    forall k | 0 <= k < |ws| ensures PassWrite(rows, ws, k, p, now) {
      if k < |sup| {
        assert sup[k] in sup;
      } else {
        WalkInsertSafe(rows, bundle, current, clock, now, scope, p, k);
      }
    }
    SupersededIds(rows, bundle, current, clock, now, scope, p);
    assert forall k :: 0 <= k < |ins| ==> ins[k].id == RowId(ins[k].subject, now) by {
      InsertIds(bundle, current, now);
    }
    IdsDistinct(rows, sup, ins, clock, now);
  }

  lemma SupersededIds(rows: Store, bundle: seq<Doc>, current: seq<Row>, clock: Time, now: Time, scope: Option<string>, p: Principal)
    requires Inv(rows, clock) && LiveView(rows, current, p) && DistinctDocs(bundle) && DistinctSubjects(current)
    ensures var sup := ToSupersede(bundle, current, now, scope);
      forall k :: 0 <= k < |sup| ==> sup[k].id in rows && sup[k].id.subject == sup[k].subject
  {
    SupersededShape(bundle, current, now, scope);
    var sup := ToSupersede(bundle, current, now, scope);
    forall k | 0 <= k < |sup| ensures sup[k].id in rows && sup[k].id.subject == sup[k].subject {
      assert sup[k] in sup;
    }
  }

  lemma InsertIds(bundle: seq<Doc>, current: seq<Row>, now: Time)
    requires DistinctDocs(bundle)
    ensures forall k :: 0 <= k < |Inserts(bundle, current, now)| ==>
      Inserts(bundle, current, now)[k].id == RowId(Inserts(bundle, current, now)[k].subject, now)
  {
    var ins := Inserts(bundle, current, now);
    forall k | 0 <= k < |ins| ensures ins[k].id == RowId(ins[k].subject, now) {
      InsertIsNew(bundle, current, now, ins[k]);
    }
  }

  lemma IdsDistinct(rows: Store, sup: seq<Row>, ins: seq<Row>, clock: Time, now: Time)
    requires Filed(rows, clock) && clock < now && DistinctSubjects(sup) && DistinctSubjects(ins)
    requires forall k :: 0 <= k < |sup| ==> sup[k].id in rows && sup[k].id.subject == sup[k].subject
    requires forall k :: 0 <= k < |ins| ==> ins[k].id == RowId(ins[k].subject, now)
    ensures var ws := Upserts(sup) + Insertions(ins);
      forall j, k :: 0 <= j < k < |ws| ==> ws[j].row.id != ws[k].row.id
  {
  }

  lemma WalkInsertSafe(rows: Store, bundle: seq<Doc>, current: seq<Row>, clock: Time, now: Time, scope: Option<string>,
                       p: Principal, k: nat)
    requires Inv(rows, clock) && clock < now && LiveView(rows, current, p) && DistinctDocs(bundle) && DistinctSubjects(current)
    requires |ToSupersede(bundle, current, now, scope)| <= k < |WalkWrites(bundle, current, now, scope)|
    ensures PassWrite(rows, WalkWrites(bundle, current, now, scope), k, p, now)
  {
    var sup, ins := ToSupersede(bundle, current, now, scope), Inserts(bundle, current, now);
    var ws := WalkWrites(bundle, current, now, scope);
    var row := ins[k - |sup|];
    assert ws[k] == Insert(row);
    InsertIsNew(bundle, current, now, row);
    forall i | i in rows && Live(rows[i]) && Seen(rows[i], p) && rows[i].subject == row.subject ensures ClosedBefore(ws, k, i) {
      RivalSuperseded(bundle, current, now, scope, row, rows[i]);
      var j :| 0 <= j < |sup| && sup[j] == Closed(rows[i], now);
      assert ws[j] == Upsert(sup[j]);
    }
  }
}
