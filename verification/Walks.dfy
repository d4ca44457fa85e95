// What the catalog walk does to a store: it converges in one step, closes and succeeds the
// rows of changed documents, and leaves foreign rows alone.

module Walks {
  import opened Basics
  import opened Layers
  import opened Rows
  import opened Reconcile

  /** A walk that may run: the view it reconciles against is the tenant's, read in one piece. */
  ghost predicate WalkInput(rows: Store, bundle: seq<Doc>, current: seq<Row>, clock: Time, now: Time, p: Principal) {
    Inv(rows, clock) && clock < now && LiveView(rows, current, p) && DistinctDocs(bundle) && DistinctSubjects(current)
  }

  function AfterWalk(rows: Store, bundle: seq<Doc>, current: seq<Row>, now: Time, scope: Option<string>, p: Principal): Store {
    ApplyAll(rows, WalkWrites(bundle, current, now, scope), p)
  }

  lemma WalkWritten(rows: Store, bundle: seq<Doc>, current: seq<Row>, clock: Time, now: Time, scope: Option<string>, p: Principal)
    requires WalkInput(rows, bundle, current, clock, now, p)
    ensures Written(rows, WalkWrites(bundle, current, now, scope), p, AfterWalk(rows, bundle, current, now, scope, p))
  {
    WalkSafe(rows, bundle, current, clock, now, scope, p);
    SafePassWrites(rows, WalkWrites(bundle, current, now, scope), p, now);
  }

  /** Every write of a walk closes a stored row or inserts a document's row. */
  lemma WalkWriteIs(rows: Store, bundle: seq<Doc>, current: seq<Row>, clock: Time, now: Time, scope: Option<string>, p: Principal, k: nat)
    requires WalkInput(rows, bundle, current, clock, now, p) && k < |WalkWrites(bundle, current, now, scope)|
    ensures var row := WalkWrites(bundle, current, now, scope)[k].row;
      || ReplacementOf(row, bundle, current, now)
      || VanishedOf(row, current, bundle, now, scope)
      || (InsertOf(row, bundle, current, now) && row.id.stamp == now)
  {
    var sup, ins := ToSupersede(bundle, current, now, scope), Inserts(bundle, current, now);
    if k < |sup| {
      SupersededIs(bundle, current, now, scope, k);
    } else {
      InsertIsNew(bundle, current, now, ins[k - |sup|]);
    }
  }

  lemma SupersededIs(bundle: seq<Doc>, current: seq<Row>, now: Time, scope: Option<string>, k: nat)
    requires DistinctDocs(bundle) && DistinctSubjects(current) && k < |ToSupersede(bundle, current, now, scope)|
    ensures var row := ToSupersede(bundle, current, now, scope)[k];
      ReplacementOf(row, bundle, current, now) || VanishedOf(row, current, bundle, now, scope)
  {
    ReplacedExact(bundle, current, now);
    VanishedExact(current, bundle, now, scope);
    var a, b := Replaced(bundle, current, now), Vanished(current, bundle, now, scope);
    assert k < |a| ==> (a + b)[k] in a;
    assert k >= |a| ==> (a + b)[k] in b;
  }

  /** A vanished row is closed by the walk. */
  lemma VanishedWritten(bundle: seq<Doc>, current: seq<Row>, now: Time, scope: Option<string>, row: Row)
    requires DistinctSubjects(current) && row in current && HasVanished(row, bundle, scope)
    ensures Upsert(Closed(row, now)) in WalkWrites(bundle, current, now, scope)
  {
    VanishedExact(current, bundle, now, scope);
    assert VanishedOf(Closed(row, now), current, bundle, now, scope);
    var sup, a, b := ToSupersede(bundle, current, now, scope), Replaced(bundle, current, now), Vanished(current, bundle, now, scope);
    var v :| 0 <= v < |b| && b[v] == Closed(row, now);
    assert sup[|a| + v] == Closed(row, now);
    assert WalkWrites(bundle, current, now, scope)[|a| + v] == Upsert(sup[|a| + v]);
  }

  /** A row of the view that no document changes and that did not vanish is left alone. */
  lemma Untouched(rows: Store, bundle: seq<Doc>, current: seq<Row>, clock: Time, now: Time, scope: Option<string>, p: Principal, row: Row)
    requires WalkInput(rows, bundle, current, clock, now, p)
    requires row.id in rows && rows[row.id] == row
    requires row in current ==> !HasVanished(row, bundle, scope)
    requires row in current ==> forall doc :: doc in bundle && doc.subject == row.subject ==> !Changes(doc, current)
    ensures var after := AfterWalk(rows, bundle, current, now, scope, p); row.id in after && after[row.id] == row
  {
    WalkWritten(rows, bundle, current, clock, now, scope, p);
    var ws := WalkWrites(bundle, current, now, scope);
    forall k | 0 <= k < |ws| ensures ws[k].row.id != row.id {
      WalkWriteIs(rows, bundle, current, clock, now, scope, p, k);
      var w := ws[k].row;
      if ReplacementOf(w, bundle, current, now) {
        var doc :| doc in bundle && Changes(doc, current) && Stored(current, doc.subject).Some?
          && w == Closed(Stored(current, doc.subject).value, now);
        SameRow(rows, current, p, Stored(current, doc.subject).value, row);
      } else if VanishedOf(w, current, bundle, now, scope) {
        var gone :| gone in current && HasVanished(gone, bundle, scope) && w == Closed(gone, now);
        SameRow(rows, current, p, gone, row);
      }
    }
  }

  lemma SameRow(rows: Store, current: seq<Row>, p: Principal, a: Row, row: Row)
    requires LiveView(rows, current, p) && a in current && row.id in rows && rows[row.id] == row
    ensures a.id == row.id ==> a == row
  {
  }

  // ---- convergence ------------------------------------------------------------------

  /** What the next walk finds stored for a document. */
  function NextStored(doc: Doc, existing: Option<Row>, now: Time, p: Principal): Row {
    if Unchanged(doc, existing) then existing.value else Tag(NewRow(doc, existing, now), p)
  }

  /** The walk settles this document: it already had, or the row it writes reads back as written. */
  predicate Settles(doc: Doc, existing: Option<Row>) {
    Unchanged(doc, existing) || NewCore(doc) != "" || NextOverlay(doc, existing) == ""
  }

  /** A second look at a document finds it unchanged iff the first walk settled it. */
  lemma SecondLook(doc: Doc, existing: Option<Row>, now: Time, p: Principal)
    ensures Unchanged(doc, Some(NextStored(doc, existing, now, p))) <==> Settles(doc, existing)
  {
    if !Unchanged(doc, existing) {
      var row, overlay := Tag(NewRow(doc, existing, now), p), NextOverlay(doc, existing);
      assert OldOverlay(row) == overlay;
      if NewCore(doc) == "" {
        assert OldCore(row) == MergeLayers("", overlay);
        assert overlay != "" ==> OldCore(row) != "";
      }
      if doc.overlay.None? {
        if existing.Some? {
          RegroundNormal(OldOverlay(existing.value), OldCore(existing.value), NewCore(doc));
        }
        RegroundSameCore(overlay, NewCore(doc));
      }
    }
  }

  lemma DocInserted(bundle: seq<Doc>, current: seq<Row>, now: Time, scope: Option<string>, doc: Doc)
    requires DistinctDocs(bundle) && doc in bundle && Changes(doc, current)
    ensures Insert(NewRow(doc, Stored(current, doc.subject), now)) in WalkWrites(bundle, current, now, scope)
  {
    InsertsExact(bundle, current, now);
    var sup, ins := ToSupersede(bundle, current, now, scope), Inserts(bundle, current, now);
    var row := NewRow(doc, Stored(current, doc.subject), now);
    assert InsertOf(row, bundle, current, now);
    var k :| 0 <= k < |ins| && ins[k] == row;
    InsertedAt(sup, ins, k);
  }

  lemma InsertedAt(sup: seq<Row>, ins: seq<Row>, k: nat)
    requires k < |ins|
    ensures Insert(ins[k]) in Upserts(sup) + Insertions(ins)
  {
    assert (Upserts(sup) + Insertions(ins))[|sup| + k] == Insert(ins[k]);
  }

  lemma DocReplaced(bundle: seq<Doc>, current: seq<Row>, now: Time, scope: Option<string>, doc: Doc)
    requires DistinctDocs(bundle) && doc in bundle && Changes(doc, current) && Stored(current, doc.subject).Some?
    ensures Upsert(Closed(Stored(current, doc.subject).value, now)) in WalkWrites(bundle, current, now, scope)
  {
    ReplacedExact(bundle, current, now);
    var a, sup := Replaced(bundle, current, now), ToSupersede(bundle, current, now, scope);
    var row := Closed(Stored(current, doc.subject).value, now);
    assert ReplacementOf(row, bundle, current, now);
    var k :| 0 <= k < |a| && a[k] == row;
    assert sup[k] == row;
    SupersededAt(sup, Inserts(bundle, current, now), k);
  }

  lemma SupersededAt(sup: seq<Row>, ins: seq<Row>, k: nat)
    requires k < |sup|
    ensures Upsert(sup[k]) in Upserts(sup) + Insertions(ins)
  {
    assert (Upserts(sup) + Insertions(ins))[k] == Upsert(sup[k]);
  }

  /** What a walk makes of the stored row of a document: nothing, or its closed form and a successor. */
  lemma DocWalked(rows: Store, bundle: seq<Doc>, current: seq<Row>, clock: Time, now: Time, scope: Option<string>, p: Principal,
                  doc: Doc, row: Row)
    requires WalkInput(rows, bundle, current, clock, now, p)
    requires doc in bundle && row in current && row.subject == doc.subject
    ensures var after := AfterWalk(rows, bundle, current, now, scope, p);
      && row.id in after
      && (Unchanged(doc, Some(row)) ==> after[row.id] == row)
      && (!Unchanged(doc, Some(row)) ==>
            && after[row.id] == Tag(Closed(row, now), p)
            && RowId(doc.subject, now) in after && after[RowId(doc.subject, now)] == Tag(NewRow(doc, Some(row), now), p))
  {
    StoredIs(current, row);
    if Unchanged(doc, Some(row)) {
      SameDoc(bundle, doc);
      assert InBundle(bundle, row.subject);
      Untouched(rows, bundle, current, clock, now, scope, p, row);
    } else {
      WalkWritten(rows, bundle, current, clock, now, scope, p);
      DocReplaced(bundle, current, now, scope, doc);
      DocInserted(bundle, current, now, scope, doc);
    }
  }

  /** After the walk the view holds, for every document, the row NextStored names. */
  lemma NextView(rows: Store, bundle: seq<Doc>, current: seq<Row>, clock: Time, now: Time, scope: Option<string>, p: Principal,
                 next: seq<Row>, doc: Doc)
    requires WalkInput(rows, bundle, current, clock, now, p) && doc in bundle
    requires LiveView(AfterWalk(rows, bundle, current, now, scope, p), next, p) && DistinctSubjects(next)
    ensures Stored(next, doc.subject) == Some(NextStored(doc, Stored(current, doc.subject), now, p))
  {
    var existing := Stored(current, doc.subject);
    var row := NextStored(doc, existing, now, p);
    if Unchanged(doc, existing) {
      assert InBundle(bundle, doc.subject);
      SameDoc(bundle, doc);
      Untouched(rows, bundle, current, clock, now, scope, p, row);
    } else {
      WalkWritten(rows, bundle, current, clock, now, scope, p);
      DocInserted(bundle, current, now, scope, doc);
    }
    StoredIs(next, row);
  }

  lemma SameDoc(bundle: seq<Doc>, doc: Doc)
    requires DistinctDocs(bundle) && doc in bundle
    ensures forall d :: d in bundle && d.subject == doc.subject ==> d == doc
  {
  }

  /** Nothing more has vanished. */
  lemma NoneVanish(rows: Store, bundle: seq<Doc>, current: seq<Row>, clock: Time, now: Time, scope: Option<string>, p: Principal,
                   next: seq<Row>, row: Row)
    requires WalkInput(rows, bundle, current, clock, now, p)
    requires LiveView(AfterWalk(rows, bundle, current, now, scope, p), next, p) && row in next
    ensures !HasVanished(row, bundle, scope)
  {
    WalkWritten(rows, bundle, current, clock, now, scope, p);
    var ws := WalkWrites(bundle, current, now, scope);
    var after := AfterWalk(rows, bundle, current, now, scope, p);
    if k :| 0 <= k < |ws| && ws[k].row.id == row.id {
      WalkWriteIs(rows, bundle, current, clock, now, scope, p, k);
      assert row == Tag(ws[k].row, p);
    } else {
      assert row == rows[row.id] && row in current;
      if HasVanished(row, bundle, scope) {
        VanishedWritten(bundle, current, now, scope, row);
      }
    }
  }

  lemma {:induction false} CountsAddUp(bundle: seq<Doc>, current: seq<Row>, now: Time)
    ensures |Inserts(bundle, current, now)| + UnchangedCount(bundle, current) == |bundle|
  {
    if bundle != [] {
      CountsAddUp(bundle[..|bundle| - 1], current, now);
    }
  }

  lemma NoInserts(bundle: seq<Doc>, current: seq<Row>, now: Time)
    requires DistinctDocs(bundle)
    ensures Inserts(bundle, current, now) == [] <==> forall doc :: doc in bundle ==> !Changes(doc, current)
  {
    InsertsExact(bundle, current, now);
    var ins := Inserts(bundle, current, now);
    forall doc | doc in bundle && Changes(doc, current) ensures ins != [] {
      assert InsertOf(NewRow(doc, Stored(current, doc.subject), now), bundle, current, now);
    }
    if ins != [] {
      assert InsertOf(ins[0], bundle, current, now);
    }
  }

  lemma NoReplaced(bundle: seq<Doc>, current: seq<Row>, now: Time)
    requires DistinctDocs(bundle)
    ensures Replaced(bundle, current, now) == [] || exists doc :: doc in bundle && Changes(doc, current)
  {
    ReplacedExact(bundle, current, now);
    var rep := Replaced(bundle, current, now);
    if rep != [] {
      assert ReplacementOf(rep[0], bundle, current, now);
    }
  }

  lemma NoVanished(current: seq<Row>, bundle: seq<Doc>, now: Time, scope: Option<string>)
    requires DistinctSubjects(current)
    ensures Vanished(current, bundle, now, scope) == [] <==> forall row :: row in current ==> !HasVanished(row, bundle, scope)
  {
    VanishedExact(current, bundle, now, scope);
    var van := Vanished(current, bundle, now, scope);
    forall row | row in current && HasVanished(row, bundle, scope) ensures van != [] {
      assert VanishedOf(Closed(row, now), current, bundle, now, scope);
    }
    if van != [] {
      assert VanishedOf(van[0], current, bundle, now, scope);
    }
  }

  /** A walk writes nothing exactly when no document changes and no row has vanished. */
  lemma WritesNothing(bundle: seq<Doc>, current: seq<Row>, now: Time, scope: Option<string>)
    requires DistinctDocs(bundle) && DistinctSubjects(current)
    ensures WalkWrites(bundle, current, now, scope) == []
       <==> (forall doc :: doc in bundle ==> !Changes(doc, current)) && (forall row :: row in current ==> !HasVanished(row, bundle, scope))
    ensures WalkWrites(bundle, current, now, scope) == [] ==> UnchangedCount(bundle, current) == |bundle|
  {
    NoInserts(bundle, current, now);
    NoVanished(current, bundle, now, scope);
    CountsAddUp(bundle, current, now);
    NoReplaced(bundle, current, now);
    WritesAre(bundle, current, now, scope);
  }

  lemma WritesAre(bundle: seq<Doc>, current: seq<Row>, now: Time, scope: Option<string>)
    ensures WalkWrites(bundle, current, now, scope) == [] <==>
      Inserts(bundle, current, now) == [] && Replaced(bundle, current, now) == [] && Vanished(current, bundle, now, scope) == []
  {
  }

  /**
   * The walk converges in one step: from any store that keeps its promises, the second walk
   * of the same bundle writes nothing and counts every document unchanged, iff the first
   * settled every document. Non-empty cores always settle.
   */
  lemma Converges(rows: Store, bundle: seq<Doc>, current: seq<Row>, clock: Time, now: Time, scope: Option<string>, p: Principal,
                  next: seq<Row>, later: Time)
    requires WalkInput(rows, bundle, current, clock, now, p) && p != GLOBAL
    requires LiveView(AfterWalk(rows, bundle, current, now, scope, p), next, p)
    ensures (WalkWrites(bundle, next, later, scope) == [] && UnchangedCount(bundle, next) == |bundle|)
       <==> forall doc :: doc in bundle ==> Settles(doc, Stored(current, doc.subject))
  {
    WalkSafe(rows, bundle, current, clock, now, scope, p);
    var ws := WalkWrites(bundle, current, now, scope);
    SafePassKeeps(rows, ws, |ws|, p, now);
    assert ws[..|ws|] == ws;
    ViewSubjects(AfterWalk(rows, bundle, current, now, scope, p), next, p, now);
    WritesNothing(bundle, next, later, scope);
    forall doc | doc in bundle ensures Changes(doc, next) <==> !Settles(doc, Stored(current, doc.subject)) {
      NextView(rows, bundle, current, clock, now, scope, p, next, doc);
      SecondLook(doc, Stored(current, doc.subject), now, p);
    }
    forall row | row in next ensures !HasVanished(row, bundle, scope) {
      NoneVanish(rows, bundle, current, clock, now, scope, p, next, row);
    }
  }

  /** A row the walk does not own and no document names stays exactly as it is. */
  lemma ForeignRowsStay(rows: Store, bundle: seq<Doc>, current: seq<Row>, clock: Time, now: Time, scope: Option<string>, p: Principal, i: RowId)
    requires WalkInput(rows, bundle, current, clock, now, p)
    requires i in rows && !WalkOwned(rows[i]) && !InBundle(bundle, rows[i].subject)
    ensures var after := AfterWalk(rows, bundle, current, now, scope, p); i in after && after[i] == rows[i]
  {
    var row := rows[i];
    forall doc | doc in bundle ensures doc.subject != row.subject {
      var k :| 0 <= k < |bundle| && bundle[k] == doc;
    }
    Untouched(rows, bundle, current, clock, now, scope, p, row);
  }
}
