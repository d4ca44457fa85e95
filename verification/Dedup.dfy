// okf_consolidate.dedup: the newest current row per subject, and what it restores.

module Dedup {
  import opened Basics
  import opened Rows

  /** Position of the subject's entry in the dict `newest` (its values in insertion order). */
  function Slot(newest: seq<Row>, subject: string): (r: Option<nat>)
    ensures r.Some? ==> r.value < |newest| && newest[r.value].subject == subject
    ensures r.None? ==> forall k :: 0 <= k < |newest| ==> newest[k].subject != subject
  {
    if newest == [] then None
    else if newest[|newest| - 1].subject == subject then Some(|newest| - 1)
    else Slot(newest[..|newest| - 1], subject)
  }

  function Stamped(row: Row, now: Time): Row {
    row.(validTo := Some(now), attrs := row.attrs["superseded_by" := "consolidation-dedup"])
  }

  /** The state of the loop: newest row per subject, and the rows that lost (not yet stamped). */
  datatype Progress = Progress(newest: seq<Row>, losers: seq<Row>)

  function Step(s: Progress, row: Row): Progress {
    match Slot(s.newest, row.subject)
    case None => Progress(s.newest + [row], s.losers)
    case Some(k) =>
      var rival := s.newest[k];
      if row.validFrom <= rival.validFrom then Progress(s.newest, s.losers + [row])
      else Progress(s.newest[k := row], s.losers + [rival])
  }

  function Scan(rows: seq<Row>): Progress {
    if rows == [] then Progress([], []) else Step(Scan(rows[..|rows| - 1]), rows[|rows| - 1])
  }

  function StampAll(rs: seq<Row>, now: Time): (r: seq<Row>)
    ensures |r| == |rs| && forall k :: 0 <= k < |r| ==> r[k] == Stamped(rs[k], now)
  {
    seq(|rs|, k requires 0 <= k < |rs| => Stamped(rs[k], now))
  }

  /** dedup as written: one pass that replaces the rival or supersedes the row. */
  method DedupRows(rows: seq<Row>, now: Time) returns (kept: seq<Row>, supersede: seq<Row>)
    ensures kept == Scan(rows).newest && supersede == StampAll(Scan(rows).losers, now)
  {
    var newest: seq<Row> := [];
    supersede := [];
    for n := 0 to |rows|
      invariant newest == Scan(rows[..n]).newest && supersede == StampAll(Scan(rows[..n]).losers, now)
    {
      ScanStep(rows, n);
      StampSnoc(Scan(rows[..n]).losers, rows[n], now);
      StampSnoc(Scan(rows[..n]).losers, Rival(Scan(rows[..n]), rows[n]), now);
      var row := rows[n];
      var slot := Slot(newest, row.subject);
      if slot.None? {
        newest := newest + [row];
      } else {
        var rival := newest[slot.value];
        if row.validFrom <= rival.validFrom {
          supersede := supersede + [Stamped(row, now)];
        } else {
          newest := newest[slot.value := row];
          supersede := supersede + [Stamped(rival, now)];
        }
      }
    }
    assert rows[..|rows|] == rows;
    kept := newest;
  }

  lemma ScanStep(rows: seq<Row>, n: nat)
    requires n < |rows|
    ensures Scan(rows[..n + 1]) == Step(Scan(rows[..n]), rows[n])
  {
    assert rows[..n + 1][..n] == rows[..n];
  }

  lemma StampSnoc(losers: seq<Row>, row: Row, now: Time)
    ensures StampAll(losers + [row], now) == StampAll(losers, now) + [Stamped(row, now)]
  {
  }

  /** The kept row of the subject, if there is one. */
  function Rival(s: Progress, row: Row): Row {
    match Slot(s.newest, row.subject)
    case None => row
    case Some(k) => s.newest[k]
  }

  // ---- what dedup keeps ---------------------------------------------------------------

  /** row is the first of its subject's rows with the greatest validFrom. */
  ghost predicate FirstNewest(rows: seq<Row>, row: Row) {
    exists i :: 0 <= i < |rows| && rows[i] == row && NewestAt(rows, i)
  }

  ghost predicate NewestAt(rows: seq<Row>, i: nat)
    requires i < |rows|
  {
    forall j :: 0 <= j < |rows| && rows[j].subject == rows[i].subject ==>
      rows[j].validFrom <= rows[i].validFrom && (j < i ==> rows[j].validFrom < rows[i].validFrom)
  }

  predicate HasSubject(rs: seq<Row>, x: string) {
    exists k :: 0 <= k < |rs| && rs[k].subject == x
  }

  lemma StepKeeps(s: Progress, row: Row)
    requires DistinctSubjects(s.newest)
    ensures DistinctSubjects(Step(s, row).newest)
    ensures multiset(Step(s, row).newest) + multiset(Step(s, row).losers)
         == multiset(s.newest) + multiset(s.losers) + multiset{row}
  {
    match Slot(s.newest, row.subject)
    case None =>
    case Some(k) =>
      if row.validFrom > s.newest[k].validFrom {
        SwapCounts(s.newest, k, row);
      }
  }

  lemma SwapCounts(rs: seq<Row>, k: nat, row: Row)
    requires k < |rs|
    ensures multiset(rs[k := row]) + multiset{rs[k]} == multiset(rs) + multiset{row}
  {
    assert rs[k := row] == rs[..k] + [row] + rs[k + 1..];
    assert rs == rs[..k] + [rs[k]] + rs[k + 1..];
  }

  lemma StepSubjects(s: Progress, row: Row, x: string)
    ensures HasSubject(Step(s, row).newest, x) <==> HasSubject(s.newest, x) || x == row.subject
  {
    var t := Step(s, row).newest;
    match Slot(s.newest, row.subject)
    case None =>
      assert t[|s.newest|] == row;
      assert forall k :: 0 <= k < |s.newest| ==> t[k] == s.newest[k];
    case Some(k) =>
      assert |t| == |s.newest| && forall m :: 0 <= m < |t| ==> t[m].subject == s.newest[m].subject;
  }

  /** One row per subject, every subject kept, and nothing lost: kept and losers are the input. */
  lemma {:induction false} ScanKeeps(rows: seq<Row>)
    ensures DistinctSubjects(Scan(rows).newest)
    ensures multiset(rows) == multiset(Scan(rows).newest) + multiset(Scan(rows).losers)
    ensures forall x :: HasSubject(rows, x) <==> HasSubject(Scan(rows).newest, x)
  {
    if rows != [] {
      var n := |rows| - 1;
      var front := rows[..n];
      assert rows == front + [rows[n]];
      ScanKeeps(front);
      StepKeeps(Scan(front), rows[n]);
      forall x ensures HasSubject(rows, x) <==> HasSubject(Scan(rows).newest, x) {
        StepSubjects(Scan(front), rows[n], x);
        assert HasSubject(rows, x) <==> HasSubject(front, x) || x == rows[n].subject;
      }
    }
  }

  lemma NewestSnoc(front: seq<Row>, row: Row, i: nat)
    requires i < |front| && NewestAt(front, i)
    requires row.subject == front[i].subject ==> row.validFrom <= front[i].validFrom
    ensures NewestAt(front + [row], i)
  {
  }

  lemma NewestLast(front: seq<Row>, row: Row)
    requires forall j :: 0 <= j < |front| && front[j].subject == row.subject ==> front[j].validFrom < row.validFrom
    ensures FirstNewest(front + [row], row)
  {
    assert NewestAt(front + [row], |front|);
  }

  lemma StillNewest(front: seq<Row>, row: Row, kept: Row)
    requires FirstNewest(front, kept)
    requires row.subject == kept.subject ==> row.validFrom <= kept.validFrom
    ensures FirstNewest(front + [row], kept)
  {
    var i :| 0 <= i < |front| && front[i] == kept && NewestAt(front, i);
    NewestSnoc(front, row, i);
    assert (front + [row])[i] == kept;
  }

  lemma NewestOver(front: seq<Row>, row: Row, rival: Row)
    requires FirstNewest(front, rival) && row.subject == rival.subject && row.validFrom > rival.validFrom
    ensures FirstNewest(front + [row], row)
  {
    var i :| 0 <= i < |front| && front[i] == rival && NewestAt(front, i);
    NewestLast(front, row);
  }

  ghost predicate AllNewest(rows: seq<Row>, newest: seq<Row>) {
    forall k :: 0 <= k < |newest| ==> FirstNewest(rows, newest[k])
  }

  lemma StepNewest(front: seq<Row>, s: Progress, row: Row)
    requires DistinctSubjects(s.newest) && AllNewest(front, s.newest)
    requires HasSubject(front, row.subject) ==> HasSubject(s.newest, row.subject)
    ensures AllNewest(front + [row], Step(s, row).newest)
  {
    var slot := Slot(s.newest, row.subject);
    if slot.None? {
      assert !HasSubject(front, row.subject);
      NewestLast(front, row);
    } else if row.validFrom > s.newest[slot.value].validFrom {
      NewestOver(front, row, s.newest[slot.value]);
    }
    forall m | 0 <= m < |s.newest| && (row.subject == s.newest[m].subject ==> row.validFrom <= s.newest[m].validFrom)
      ensures FirstNewest(front + [row], s.newest[m])
    {
      StillNewest(front, row, s.newest[m]);
    }
  }

  /** Each kept row is the first one with the greatest valid_from of its subject. */
  lemma {:induction false} KeptAreNewest(rows: seq<Row>)
    ensures AllNewest(rows, Scan(rows).newest)
  {
    if rows != [] {
      var n := |rows| - 1;
      assert rows == rows[..n] + [rows[n]];
      KeptAreNewest(rows[..n]);
      ScanKeeps(rows[..n]);
      StepNewest(rows[..n], Scan(rows[..n]), rows[n]);
    }
  }

  // ---- dedup as a pass over a tenant's rows -------------------------------------------------

  /** All live rows the tenant owns, each once. */
  ghost predicate OwnedView(rows: Store, found: seq<Row>, p: Principal) {
    && LiveSelection(rows, found, p)
    && (forall i :: i in rows && Live(rows[i]) && rows[i].principal == Some(p) ==> rows[i] in found)
  }

  ghost predicate LiveSelection(rows: Store, found: seq<Row>, p: Principal) {
    && Selection(rows, found, p)
    && forall k :: 0 <= k < |found| ==> Live(found[k]) && found[k].principal == Some(p)
  }

  function DedupUpdates(found: seq<Row>, now: Time): seq<Row> {
    StampAll(Scan(found).losers, now)
  }

  /** A row found once is kept or loses, never both. */
  lemma LosersDistinct(found: seq<Row>)
    requires forall j, k :: 0 <= j < k < |found| ==> found[j].id != found[k].id
    ensures var s := Scan(found);
      && (forall j, k :: 0 <= j < k < |s.losers| ==> s.losers[j].id != s.losers[k].id)
      && (forall row :: row in s.losers ==> row in found && row !in s.newest)
      && (forall row :: row in found ==> row in s.losers || row in s.newest)
  {
    ScanKeeps(found);
    var s := Scan(found);
    forall row ensures multiset(found)[row] <= 1 {
      OnceOnly(found, row);
    }
    assert forall row :: row in found <==> row in multiset(found);
    assert forall row :: row in s.losers <==> row in multiset(s.losers);
    assert forall row :: row in s.newest <==> row in multiset(s.newest);
    forall j, k | 0 <= j < k < |s.losers| ensures s.losers[j].id != s.losers[k].id {
      assert s.losers[j] in found && s.losers[k] in found;
      if s.losers[j] == s.losers[k] {
        TwiceCounts(s.losers, j, k);
      }
    }
  }

  lemma {:induction false} OnceOnly(found: seq<Row>, row: Row)
    requires forall j, k :: 0 <= j < k < |found| ==> found[j].id != found[k].id
    ensures multiset(found)[row] <= 1
  {
    if found != [] {
      var n := |found| - 1;
      assert found == found[..n] + [found[n]];
      OnceOnly(found[..n], row);
      if row == found[n] {
        assert row !in found[..n];
      }
    }
  }

  lemma TwiceCounts(rs: seq<Row>, j: nat, k: nat)
    requires j < k < |rs| && rs[j] == rs[k]
    ensures multiset(rs)[rs[j]] >= 2
  {
    assert rs == rs[..k] + [rs[k]] + rs[k + 1..];
    assert rs[..k][j] == rs[j];
    assert rs[j] in multiset(rs[..k]);
  }

  lemma DedupIsUpdating(rows: Store, found: seq<Row>, p: Principal, now: Time)
    requires LiveSelection(rows, found, p)
    ensures Updating(rows, DedupUpdates(found, now), p)
  {
    LosersDistinct(found);
    var losers := Scan(found).losers;
    forall k | 0 <= k < |losers| ensures losers[k] in found {
      assert losers[k] in losers;
    }
  }

  predicate OwnLive(row: Row, p: Principal) {
    Live(row) && row.principal == Some(p)
  }

  /** The tenant has at most one live row of its own per subject. */
  ghost predicate OneOwn(rows: Store, p: Principal) {
    forall i, j :: i in rows && j in rows && OwnTwin(rows[i], rows[j], p) ==> i == j
  }

  predicate OwnTwin(a: Row, b: Row, p: Principal) {
    OwnLive(a, p) && OwnLive(b, p) && a.subject == b.subject
  }

  ghost predicate HasLive(rows: Store, subject: string, p: Principal) {
    exists i :: i in rows && OwnLive(rows[i], p) && rows[i].subject == subject
  }

  lemma DedupAfter(rows: Store, found: seq<Row>, p: Principal, now: Time, i: RowId)
    requires LiveSelection(rows, found, p) && i in rows && rows[i].id == i
    ensures var after := ApplyAll(rows, Upserts(DedupUpdates(found, now)), p);
      i in after && after[i] == if rows[i] in Scan(found).losers then Tag(Stamped(rows[i], now), p) else rows[i]
  {
    DedupIsUpdating(rows, found, p, now);
    LosersDistinct(found);
    var losers, updated := Scan(found).losers, DedupUpdates(found, now);
    UpdatesExact(rows, updated, p, now);
    if rows[i] in losers {
      var k :| 0 <= k < |losers| && losers[k] == rows[i];
      assert updated[k] == Stamped(rows[i], now);
    } else {
      forall row | row in updated ensures row.id != i {
        var k :| 0 <= k < |updated| && updated[k] == row;
        assert losers[k] in losers && losers[k] in found;
      }
    }
  }

  /** Of the rows a dedup pass read, the first newest of each subject stays as it was and every other is closed with its reason. */
  lemma DedupedExact(rows: Store, found: seq<Row>, p: Principal, now: Time, row: Row)
    requires LiveSelection(rows, found, p) && row in found
    ensures var after := ApplyAll(rows, Upserts(DedupUpdates(found, now)), p);
      && row.id in after
      && after[row.id] == if FirstNewest(found, row) then row
                          else row.(validTo := Some(now), attrs := row.attrs["superseded_by" := "consolidation-dedup"])
  {
    DedupAfter(rows, found, p, now, row.id);
    LosersDistinct(found);
    NewestExact(found, row);
  }

  lemma NewestExact(found: seq<Row>, row: Row)
    requires row in found
    ensures FirstNewest(found, row) <==> row in Scan(found).newest
  {
    KeptAreNewest(found);
    ScanKeeps(found);
    var newest := Scan(found).newest;
    if FirstNewest(found, row) {
      assert HasSubject(found, row.subject);
      var k :| 0 <= k < |newest| && newest[k].subject == row.subject;
      OneNewest(found, row, newest[k]);
    }
  }

  lemma OneNewest(found: seq<Row>, a: Row, b: Row)
    requires FirstNewest(found, a) && FirstNewest(found, b) && a.subject == b.subject
    ensures a == b
  {
    var i :| 0 <= i < |found| && found[i] == a && NewestAt(found, i);
    var j :| 0 <= j < |found| && found[j] == b && NewestAt(found, j);
    assert i == j;
  }

  lemma SurvivorKept(rows: Store, found: seq<Row>, p: Principal, now: Time, i: RowId)
    requires OwnedView(rows, found, p) && forall x :: x in rows ==> rows[x].id == x
    requires var after := ApplyAll(rows, Upserts(DedupUpdates(found, now)), p); i in after && OwnLive(after[i], p)
    ensures var after := ApplyAll(rows, Upserts(DedupUpdates(found, now)), p);
      after[i] in Scan(found).newest && after[i].id == i
  {
    DedupIsUpdating(rows, found, p, now);
    UpdatesExact(rows, DedupUpdates(found, now), p, now);
    DedupAfter(rows, found, p, now, i);
    LosersDistinct(found);
  }

  lemma SubjectSurvives(rows: Store, found: seq<Row>, p: Principal, now: Time, i: RowId)
    requires OwnedView(rows, found, p) && forall x :: x in rows ==> rows[x].id == x
    requires i in rows && OwnLive(rows[i], p)
    ensures var after := ApplyAll(rows, Upserts(DedupUpdates(found, now)), p);
      exists j :: j in after && OwnLive(after[j], p) && after[j].subject == rows[i].subject
  {
    ScanKeeps(found);
    LosersDistinct(found);
    assert HasSubject(found, rows[i].subject);
    var newest := Scan(found).newest;
    var k :| 0 <= k < |newest| && newest[k].subject == rows[i].subject;
    assert newest[k] in multiset(found);
    assert newest[k] in newest;
    DedupAfter(rows, found, p, now, newest[k].id);
  }

  lemma TwinsAreSame(rows: Store, found: seq<Row>, p: Principal, now: Time, i: RowId, j: RowId)
    requires OwnedView(rows, found, p) && forall x :: x in rows ==> rows[x].id == x
    requires var after := ApplyAll(rows, Upserts(DedupUpdates(found, now)), p);
      i in after && j in after && OwnTwin(after[i], after[j], p)
    ensures i == j
  {
    SurvivorKept(rows, found, p, now, i);
    SurvivorKept(rows, found, p, now, j);
    ScanKeeps(found);
  }

  /**
   * From any store at all, a dedup pass leaves the tenant one live row of its own per subject,
   * and no subject loses its last one.
   */
  lemma DedupRestores(rows: Store, found: seq<Row>, p: Principal, now: Time)
    requires OwnedView(rows, found, p) && forall i :: i in rows ==> rows[i].id == i
    ensures var after := ApplyAll(rows, Upserts(DedupUpdates(found, now)), p);
      OneOwn(after, p) && forall i :: i in rows && OwnLive(rows[i], p) ==> HasLive(after, rows[i].subject, p)
  {
    var after := ApplyAll(rows, Upserts(DedupUpdates(found, now)), p);
    forall i, j | i in after && j in after && OwnTwin(after[i], after[j], p) ensures i == j {
      TwinsAreSame(rows, found, p, now, i, j);
    }
    forall i | i in rows && OwnLive(rows[i], p) ensures HasLive(after, rows[i].subject, p) {
      SubjectSurvives(rows, found, p, now, i);
    }
  }
}
