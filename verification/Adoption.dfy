// Ownership: adopting rows written before the store had owners (migrate.py).

module Adoption {
  import opened Rows

  /** Rows UNOWNED_MEMORY_QUERY returns: every row without a principal, each once. */
  ghost predicate UnownedView(rows: Store, found: seq<Row>) {
    && Unowned(rows, found)
    && forall i :: i in rows && rows[i].principal.None? ==> rows[i] in found
  }

  ghost predicate Unowned(rows: Store, found: seq<Row>) {
    && (forall k :: 0 <= k < |found| ==> found[k].id in rows && rows[found[k].id] == found[k] && found[k].principal.None?)
    && (forall j, k :: 0 <= j < k < |found| ==> found[j].id != found[k].id)
  }

  /** Adopting row would put it beside another live row of its subject in p's view. */
  predicate Clashes(row: Row, other: Row, p: Principal) {
    Live(row) && Live(other) && row.subject == other.subject && (Seen(other, p) || other.principal.None?)
  }

  /** No adopted row clashes: the check an operator could make before the first boot. */
  ghost predicate Fits(rows: Store, p: Principal) {
    forall i, j :: i in rows && j in rows && i != j && rows[i].principal.None? ==> !Clashes(rows[i], rows[j], p)
  }

  function AfterAdopting(rows: Store, found: seq<Row>, p: Principal): Store {
    ApplyAll(rows, Upserts(found), p)
  }

  lemma AdoptedRow(rows: Store, found: seq<Row>, p: Principal, i: RowId)
    requires Unowned(rows, found)
    ensures var after := AfterAdopting(rows, found, p);
      && (i in after <==> i in rows)
      && (i in rows && rows[i].id == i ==> after[i] == if rows[i] in found then Tag(rows[i], p) else rows[i])
  {
    var ws := Upserts(found);
    ApplyAllWrites(rows, ws, p);
    var after := AfterAdopting(rows, found, p);
    if i in rows && rows[i].id == i && rows[i] in found {
      var k :| 0 <= k < |found| && found[k] == rows[i];
      assert ws[k] == Upsert(rows[i]);
    } else if i in rows && rows[i].id == i {
      forall k | 0 <= k < |ws| ensures ws[k].row.id != i {
        assert found[k] in found;
      }
    }
  }

  /** Adoption, complete or cut short, keeps all history and stays in the tenant frame. */
  lemma AdoptKeeps(rows: Store, found: seq<Row>, p: Principal, clock: Time)
    requires Filed(rows, clock) && Unowned(rows, found) && forall i :: i in rows ==> WalkLayered(rows[i])
    ensures var after := AfterAdopting(rows, found, p);
      Filed(after, clock) && History(rows, after) && Frame(rows, after, p) && forall i :: i in after ==> WalkLayered(after[i])
  {
    var after := AfterAdopting(rows, found, p);
    forall i ensures i in after <==> i in rows {
      AdoptedRow(rows, found, p, i);
    }
    forall i | i in rows ensures after[i] == rows[i] || (rows[i].principal.None? && after[i] == Tag(rows[i], p)) {
      AdoptedRow(rows, found, p, i);
    }
  }

  /** Adopting rows that fit, however many, keeps one current row per subject in every view. */
  lemma AdoptKeepsOne(rows: Store, found: seq<Row>, p: Principal, clock: Time)
    requires Inv(rows, clock) && Unowned(rows, found) && p != GLOBAL && Fits(rows, p)
    ensures OneCurrent(AfterAdopting(rows, found, p))
  {
    var after := AfterAdopting(rows, found, p);
    forall i ensures i in after <==> i in rows {
      AdoptedRow(rows, found, p, i);
    }
    forall i | i in rows ensures after[i] == rows[i] || (rows[i].principal.None? && after[i] == Tag(rows[i], p)) {
      AdoptedRow(rows, found, p, i);
    }
  }

  /** A complete adoption keeps one current row per subject in every view iff nothing clashed. */
  lemma AdoptFits(rows: Store, found: seq<Row>, p: Principal, clock: Time)
    requires Inv(rows, clock) && UnownedView(rows, found) && p != GLOBAL
    ensures OneCurrent(AfterAdopting(rows, found, p)) <==> Fits(rows, p)
  {
    var after := AfterAdopting(rows, found, p);
    forall i ensures i in after <==> i in rows {
      AdoptedRow(rows, found, p, i);
    }
    forall i | i in rows ensures after[i] == if rows[i].principal.None? then Tag(rows[i], p) else rows[i] {
      AdoptedRow(rows, found, p, i);
    }
    if OneCurrent(after) {
      forall i, j | i in rows && j in rows && i != j && rows[i].principal.None? ensures !Clashes(rows[i], rows[j], p) {
        assert Clashes(rows[i], rows[j], p) ==> Rival(after[i], after[j]);
      }
    }
  }

  /** Once every row has an owner a second adoption finds nothing. */
  lemma AdoptTwice(rows: Store, found: seq<Row>, p: Principal, clock: Time, again: seq<Row>)
    requires Filed(rows, clock) && UnownedView(rows, found) && Unowned(AfterAdopting(rows, found, p), again)
    ensures again == []
  {
    if again != [] {
      AdoptedRow(rows, found, p, again[0].id);
    }
  }
}
