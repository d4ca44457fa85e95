// What a catalog walk leaves in the store, field by field: the row of a changed document, the rows
// a scoped walk closes and the ones it may not.

module WalkRows {
  import opened Basics
  import opened Text
  import opened Layers
  import opened Rows
  import opened Reconcile
  import opened Walks

  /** The document's own core, or its text when it has none. */
  function CoreOf(doc: Doc): string {
    match doc.core
    case Some(core) => core
    case None => doc.text
  }

  /**
   * A changed document is filed as a semantic row of the walk's tenant with its own type, query and
   * attributes. Its overlay is the imported one, or the stored one re-grounded, or none.
   */
  lemma FiledExact(rows: Store, bundle: seq<Doc>, current: seq<Row>, clock: Time, now: Time, scope: Option<string>, p: Principal,
                   doc: Doc)
    requires WalkInput(rows, bundle, current, clock, now, p) && doc in bundle && Changes(doc, current)
    ensures var after, i := AfterWalk(rows, bundle, current, now, scope, p), RowId(doc.subject, now);
      && i in after
      && after[i] == Row(i, doc.subject, doc.typ, "semantic", Some(CoreOf(doc)), after[i].overlay,
                         MergeLayers(CoreOf(doc), OldOverlay(after[i])), now, None, Some(p), doc.sourceQuery, 0, None, None, doc.attrs)
      && after[i].overlay != Some("")
      && (doc.overlay.Some? ==> OldOverlay(after[i]) == doc.overlay.value)
      && (doc.overlay.None? ==>
            OldOverlay(after[i]) == match Stored(current, doc.subject)
                                    case None => ""
                                    case Some(row) => Reground(OldOverlay(row), OldCore(row), CoreOf(doc)).0)
  {
    WalkWritten(rows, bundle, current, clock, now, scope, p);
    DocInserted(bundle, current, now, scope, doc);
    FiledRow(doc, Stored(current, doc.subject), now);
  }

  lemma FiledRow(doc: Doc, existing: Option<Row>, now: Time)
    ensures var row := NewRow(doc, existing, now);
      && row == Row(RowId(doc.subject, now), doc.subject, doc.typ, "semantic", Some(CoreOf(doc)), row.overlay,
                    MergeLayers(CoreOf(doc), OldOverlay(row)), now, None, None, doc.sourceQuery, 0, None, None, doc.attrs)
      && row.overlay != Some("")
      && (doc.overlay.Some? ==> OldOverlay(row) == doc.overlay.value)
      && (doc.overlay.None? ==>
            OldOverlay(row) == match existing
                               case None => ""
                               case Some(old_) => Reground(OldOverlay(old_), OldCore(old_), CoreOf(doc)).0)
  {
  }

  // ---- a scoped walk ---------------------------------------------------------------------------

  /** A subject is in a dataverse when it is that, or goes on behind it with a dot or a slash. */
  ghost predicate Inside(subject: string, dataverse: string) {
    subject == dataverse || exists rest: string :: subject == dataverse + "." + rest || subject == dataverse + "/" + rest
  }

  lemma InsideExact(subject: string, dataverse: string)
    ensures InScope(subject, dataverse) <==> Inside(subject, dataverse)
  {
    GoesOn(subject, dataverse, ".");
    GoesOn(subject, dataverse, "/");
  }

  lemma GoesOn(subject: string, dataverse: string, mark: string)
    ensures StartsWith(subject, dataverse + mark) <==> exists rest: string :: subject == dataverse + mark + rest
  {
    var w := dataverse + mark;
    if StartsWith(subject, w) {
      assert subject == w + subject[|w|..];
    }
    if rest: string :| subject == w + rest {
      assert subject[..|w|] == w;
    }
  }

  /**
   * Of the stored rows no document names, a walk closes exactly the ones the catalog owns inside its
   * scope, and leaves every other as it was.
   */
  lemma UnnamedExact(rows: Store, bundle: seq<Doc>, current: seq<Row>, clock: Time, now: Time, scope: Option<string>, p: Principal,
                     row: Row)
    requires WalkInput(rows, bundle, current, clock, now, p) && row in current && forall doc :: doc in bundle ==> doc.subject != row.subject
    ensures var after := AfterWalk(rows, bundle, current, now, scope, p);
      && row.id in after
      && after[row.id] == if WalkOwned(row) && (scope.Some? ==> Inside(row.subject, scope.value))
                          then row.(validTo := Some(now), principal := Some(p)) else row
  {
    assert row.id in rows && rows[row.id] == row;
    assert !InBundle(bundle, row.subject);
    if scope.Some? {
      InsideExact(row.subject, scope.value);
    }
    if HasVanished(row, bundle, scope) {
      WalkWritten(rows, bundle, current, clock, now, scope, p);
      VanishedWritten(bundle, current, now, scope, row);
    } else {
      Untouched(rows, bundle, current, clock, now, scope, p, row);
    }
  }

  /** The catalog owns the rows whose type starts with its prefix. */
  lemma OwnedExact(row: Row)
    ensures WalkOwned(row) <==> |row.typ| >= 10 && row.typ[..10] == "AsterixDB "
  {
  }
}
