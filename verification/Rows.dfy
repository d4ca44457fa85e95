// The memory store: rows keyed by id, the writes that reach it, and the promises
// that every write of every pass has to keep.
//
// Row ids are subject@stamp. IdTextInjective justifies using the pair instead.

module Rows {
  import opened Basics
  import opened Text
  import opened Layers

  type Time = nat
  type Principal = string

  const GLOBAL: Principal := "*"
  const SEMANTIC := "semantic"
  const NOTE := "Note"

  datatype RowId = RowId(subject: string, stamp: Time)

  /** One stored row; every attribute no pass reads is in attrs. */
  datatype Row = Row(
    id: RowId,
    subject: string,
    typ: string,
    kind: string,
    core: Option<string>,
    overlay: Option<string>,
    text: string,
    validFrom: Time,
    validTo: Option<Time>,
    principal: Option<Principal>,
    sourceQuery: Option<string>,
    recallCount: nat,
    lastRecalled: Option<Time>,
    lastUsed: Option<Time>,
    attrs: map<string, string>)

  type Store = map<RowId, Row>

  function IdText(subject: string, stamp: string): string {
    subject + "@" + stamp
  }

  lemma NoLaterAt(s: string, t: string, k: nat)
    requires FirstChar(t, '@', 0) == |t|
    requires k < |IdText(s, t)| && IdText(s, t)[k] == '@'
    ensures k <= |s|
  {
    var x := IdText(s, t);
    assert forall m :: |s| < m < |x| ==> x[m] == t[m - |s| - 1];
  }

  /** Timestamps carry no "@", so subject@stamp names its subject and its stamp. */
  lemma IdTextInjective(s: string, t: string, s': string, t': string)
    requires IdText(s, t) == IdText(s', t')
    requires FirstChar(t, '@', 0) == |t| && FirstChar(t', '@', 0) == |t'|
    ensures s == s' && t == t'
  {
    var x, x' := IdText(s, t), IdText(s', t');
    assert x[|s|] == '@' && x'[|s'|] == '@';
    NoLaterAt(s, t, |s'|);
    NoLaterAt(s', t', |s|);
    assert x[..|s|] == s && x'[..|s|] == s';
    assert x[|s| + 1..] == t && x'[|s| + 1..] == t';
  }

  /** str(row.get("type", "")).startswith("AsterixDB ") */
  predicate WalkOwned(row: Row) {
    StartsWith(row.typ, "AsterixDB ")
  }

  predicate Current(row: Row) {
    row.validTo.None?
  }

  /** scope_clause as a row predicate: the tenant's own rows and the global tier. */
  predicate Seen(row: Row, p: Principal) {
    row.principal == Some(p) || row.principal == Some(GLOBAL)
  }

  /** existing.get("core") or existing.get("text") */
  function OldCore(row: Row): string {
    if row.core.GetOr("") != "" then row.core.value else row.text
  }

  function OldOverlay(row: Row): string {
    row.overlay.GetOr("")
  }

  // ---- writes ------------------------------------------------------------------

  datatype Write = Upsert(row: Row) | Insert(row: Row)

  /** memory_store.tag: the write path stamps the client's tenant, whatever the row claims. */
  function Tag(row: Row, p: Principal): Row {
    row.(principal := Some(p))
  }

  /** UPSERT replaces by id; INSERT fails on an id that exists. */
  function Apply(rows: Store, w: Write, p: Principal): Store {
    if w.Insert? && w.row.id in rows then rows else rows[w.row.id := Tag(w.row, p)]
  }

  /** A write leaves its row under its id, owned by the writer, and every other row as it was; an INSERT of an existing id leaves all. */
  lemma ApplyExact(rows: Store, w: Write, p: Principal, i: RowId)
    ensures var after := Apply(rows, w, p);
      && (i in after <==> i in rows || i == w.row.id)
      && (i in after ==>
            after[i] == if i == w.row.id && (w.Upsert? || i !in rows) then w.row.(principal := Some(p)) else rows[i])
  {
  }

  function ApplyAll(rows: Store, ws: seq<Write>, p: Principal): Store {
    if ws == [] then rows else Apply(ApplyAll(rows, ws[..|ws| - 1], p), ws[|ws| - 1], p)
  }

  lemma ApplyStep(rows: Store, ws: seq<Write>, n: nat, p: Principal)
    requires n < |ws|
    ensures ApplyAll(rows, ws[..n + 1], p) == Apply(ApplyAll(rows, ws[..n], p), ws[n], p)
  {
    assert ws[..n + 1][..n] == ws[..n];
  }

  lemma {:induction false} ApplyConcat(rows: Store, a: seq<Write>, b: seq<Write>, p: Principal)
    ensures ApplyAll(rows, a + b, p) == ApplyAll(ApplyAll(rows, a, p), b, p)
  {
    if b == [] {
      assert a + b == a;
    } else {
      assert (a + b)[..|a + b| - 1] == a + b[..|b| - 1];
      ApplyConcat(rows, a, b[..|b| - 1], p);
    }
  }

  ghost predicate DistinctSubjects(rs: seq<Row>) {
    forall j, k :: 0 <= j < k < |rs| ==> rs[j].subject != rs[k].subject
  }

  // ---- promises ------------------------------------------------------------------

  /** What an id stands for never changes, its recalls never fall, and a closed row stays closed at its time. */
  predicate Keeps(before: Row, after: Row) {
    && after.id == before.id && after.subject == before.subject && after.typ == before.typ && after.kind == before.kind
    && after.core == before.core && after.overlay == before.overlay && after.text == before.text
    && after.validFrom == before.validFrom && before.recallCount <= after.recallCount
    && (before.validTo.Some? ==> after.validTo == before.validTo)
  }

  /** A closed row is never rewritten, except that an unowned one may get its owner. */
  predicate Frozen(before: Row, after: Row) {
    Current(before) || after == before || (before.principal.None? && after == before.(principal := after.principal))
  }

  /** No id disappears, every id keeps what it stands for, and closed rows are frozen. */
  ghost predicate History(before: Store, after: Store) {
    forall i :: i in before ==> i in after && Keeps(before[i], after[i]) && Frozen(before[i], after[i])
  }

  /** Only rows p owns, global rows and unowned rows differ, and those now belong to p. */
  ghost predicate Frame(before: Store, after: Store, p: Principal) {
    forall i :: i in after ==>
      || (i in before && after[i] == before[i])
      || (after[i].principal == Some(p)
          && (i in before ==> Seen(before[i], p) || before[i].principal.None?))
  }

  /** Once a row has a core its text is the merge of its two layers. */
  predicate Layered(row: Row) {
    row.core.Some? ==> row.text == MergeLayers(row.core.value, OldOverlay(row))
  }

  /** The rows of the walk are layered in every run; Runs.RunLayers says when all rows are. */
  predicate WalkLayered(row: Row) {
    WalkOwned(row) ==> Layered(row)
  }

  ghost predicate AllLayered(rows: Store) {
    forall i :: i in rows ==> Layered(rows[i])
  }

  predicate Live(row: Row) {
    Current(row) && row.kind == SEMANTIC
  }

  /** Some tenant sees both rows. */
  predicate SharedView(a: Row, b: Row) {
    && a.principal.Some? && b.principal.Some?
    && (a.principal == b.principal || a.principal == Some(GLOBAL) || b.principal == Some(GLOBAL))
  }

  predicate Rival(a: Row, b: Row) {
    Live(a) && Live(b) && a.subject == b.subject && SharedView(a, b)
  }

  /** In nobody's view do two current semantic rows share a subject. */
  ghost predicate OneCurrent(rows: Store) {
    forall i, j :: i in rows && j in rows && Rival(rows[i], rows[j]) ==> i == j
  }

  /** Rows sit under their own id, which is their subject at the time they became valid. */
  ghost predicate Filed(rows: Store, clock: Time) {
    forall i :: i in rows ==>
      rows[i].id == i && i == RowId(rows[i].subject, rows[i].validFrom) && i.stamp <= clock
  }

  ghost predicate Inv(rows: Store, clock: Time) {
    && Filed(rows, clock) && OneCurrent(rows)
    && forall i :: i in rows ==> WalkLayered(rows[i])
  }

  // ---- what makes one write safe ---------------------------------------------------

  /** An UPSERT rewrites a current row the tenant sees; an INSERT adds one nobody it sees rivals. */
  ghost predicate SafeWrite(rows: Store, w: Write, p: Principal, now: Time) {
    match w
    case Upsert(row) =>
      row.id in rows && Current(rows[row.id]) && Seen(rows[row.id], p) && Keeps(rows[row.id], row)
    case Insert(row) =>
      && row.id !in rows && row.id == RowId(row.subject, now) && row.validFrom == now && Current(row) && WalkLayered(row)
      && forall i :: i in rows && Live(row) && Live(rows[i]) && Seen(rows[i], p) ==> rows[i].subject != row.subject
  }

  lemma SafeWriteKeeps(rows: Store, w: Write, p: Principal, now: Time)
    requires Inv(rows, now) && SafeWrite(rows, w, p, now) && p != GLOBAL
    ensures Inv(Apply(rows, w, p), now)
    ensures History(rows, Apply(rows, w, p)) && Frame(rows, Apply(rows, w, p), p)
  {
    SafeWriteUnrivalled(rows, w, p, now);
  }

  lemma SafeWriteUnrivalled(rows: Store, w: Write, p: Principal, now: Time)
    requires Inv(rows, now) && SafeWrite(rows, w, p, now) && p != GLOBAL
    ensures OneCurrent(Apply(rows, w, p))
  {
    var after := Apply(rows, w, p);
    forall i, j | i in after && j in after && i != j ensures !Rival(after[i], after[j]) {
      if i == w.row.id {
        assert j in rows && after[j] == rows[j];
      } else if j == w.row.id {
        assert i in rows && after[i] == rows[i];
      } else {
        assert after[i] == rows[i] && after[j] == rows[j];
      }
    }
  }

  lemma KeepsTransitive(a: Store, b: Store, c: Store)
    requires History(a, b) && History(b, c)
    ensures History(a, c)
  {
  }

  lemma FrameTransitive(a: Store, b: Store, c: Store, p: Principal)
    requires Frame(a, b, p) && Frame(b, c, p) && History(a, b)
    ensures Frame(a, c, p)
  {
  }

  // ---- a pass is a sequence of writes -----------------------------------------------

  /** ws[j] closes row i before position k. */
  ghost predicate ClosedBefore(ws: seq<Write>, k: nat, i: RowId) {
    exists j :: 0 <= j < k && j < |ws| && ws[j].Upsert? && ws[j].row.id == i && !Current(ws[j].row)
  }

  ghost predicate PassWrite(rows: Store, ws: seq<Write>, k: nat, p: Principal, now: Time)
    requires k < |ws|
  {
    var row := ws[k].row;
    match ws[k]
    case Upsert(_) => row.id in rows && Current(rows[row.id]) && Seen(rows[row.id], p) && Keeps(rows[row.id], row)
    case Insert(_) =>
      && row.id !in rows && row.id == RowId(row.subject, now) && row.validFrom == now && Current(row) && WalkLayered(row)
      && forall i :: i in rows && Live(row) && Live(rows[i]) && Seen(rows[i], p) && rows[i].subject == row.subject
           ==> ClosedBefore(ws, k, i)
  }

  /** Judged against the store the pass read: distinct rows, and rivals closed before inserts. */
  ghost predicate SafePass(rows: Store, ws: seq<Write>, p: Principal, now: Time) {
    && (forall j, k :: 0 <= j < k < |ws| ==> ws[j].row.id != ws[k].row.id)
    && (forall k :: 0 <= k < |ws| ==> PassWrite(rows, ws, k, p, now))
  }

  /** The store after distinct writes: written rows as written, all others as they were. */
  ghost predicate Written(rows: Store, ws: seq<Write>, p: Principal, after: Store) {
    && (forall k :: 0 <= k < |ws| ==> ws[k].row.id in after && after[ws[k].row.id] == Tag(ws[k].row, p))
    && (forall i :: i in rows && (forall k :: 0 <= k < |ws| ==> ws[k].row.id != i) ==> i in after && after[i] == rows[i])
    && (forall i :: i in after && i !in rows ==> exists k :: 0 <= k < |ws| && ws[k].row.id == i)
  }

  ghost predicate Applicable(rows: Store, ws: seq<Write>) {
    && (forall j, k :: 0 <= j < k < |ws| ==> ws[j].row.id != ws[k].row.id)
    && (forall k :: 0 <= k < |ws| && ws[k].Insert? ==> ws[k].row.id !in rows)
  }

  lemma {:induction false} ApplyAllWrites(rows: Store, ws: seq<Write>, p: Principal)
    requires Applicable(rows, ws)
    ensures Written(rows, ws, p, ApplyAll(rows, ws, p))
  {
    if ws != [] {
      var n := |ws| - 1;
      var front := ws[..n];
      assert front + [ws[n]] == ws;
      ApplicableFront(rows, front, ws[n]);
      ApplyAllWrites(rows, front, p);
      WrittenSnoc(rows, front, ws[n], p, ApplyAll(rows, front, p));
    }
  }

  lemma ApplicableFront(rows: Store, front: seq<Write>, w: Write)
    requires Applicable(rows, front + [w])
    ensures Applicable(rows, front) && (forall k :: 0 <= k < |front| ==> front[k].row.id != w.row.id) && (w.Insert? ==> w.row.id !in rows)
  {
    var ws := front + [w];
    assert ws[|front|] == w && forall k :: 0 <= k < |front| ==> ws[k] == front[k];
  }

  lemma WrittenSnoc(rows: Store, front: seq<Write>, w: Write, p: Principal, mid: Store)
    requires Written(rows, front, p, mid)
    requires forall k :: 0 <= k < |front| ==> front[k].row.id != w.row.id
    requires w.Insert? ==> w.row.id !in rows
    ensures Written(rows, front + [w], p, Apply(mid, w, p))
  {
    var ws, after := front + [w], Apply(mid, w, p);
    assert w.row.id in mid ==> w.Upsert?;
    assert ws[|front|] == w;
    forall k | 0 <= k < |ws| ensures ws[k].row.id in after && after[ws[k].row.id] == Tag(ws[k].row, p) {
      assert k < |front| ==> ws[k] == front[k];
    }
    forall i | i in rows && (forall k :: 0 <= k < |ws| ==> ws[k].row.id != i) ensures i in after && after[i] == rows[i] {
      assert forall k :: 0 <= k < |front| ==> front[k] == ws[k];
    }
    forall i | i in after && i !in rows ensures exists k :: 0 <= k < |ws| && ws[k].row.id == i {
      if i != w.row.id {
        var k :| 0 <= k < |front| && front[k].row.id == i;
        assert ws[k] == front[k];
      }
    }
  }

  lemma SafePassWrites(rows: Store, ws: seq<Write>, p: Principal, now: Time)
    requires SafePass(rows, ws, p, now)
    ensures Written(rows, ws, p, ApplyAll(rows, ws, p))
  {
    forall k | 0 <= k < |ws| && ws[k].Insert? ensures ws[k].row.id !in rows {
      assert PassWrite(rows, ws, k, p, now);
    }
    ApplyAllWrites(rows, ws, p);
  }

  /** In a safe pass every write is safe in the store its predecessors left. */
  lemma PassWriteSafe(rows: Store, ws: seq<Write>, k: nat, p: Principal, now: Time)
    requires SafePass(rows, ws, p, now) && k < |ws|
    ensures SafeWrite(ApplyAll(rows, ws[..k], p), ws[k], p, now)
  {
    var front := ws[..k];
    assert forall j :: 0 <= j < k ==> front[j] == ws[j] && PassWrite(rows, ws, j, p, now);
    ApplyAllWrites(rows, front, p);
    var mid := ApplyAll(rows, front, p);
    assert PassWrite(rows, ws, k, p, now);
    if ws[k].Insert? {
      InsertUnrivalled(rows, ws, k, p, now, mid);
    }
  }

  lemma InsertUnrivalled(rows: Store, ws: seq<Write>, k: nat, p: Principal, now: Time, mid: Store)
    requires SafePass(rows, ws, p, now) && k < |ws| && ws[k].Insert?
    requires Written(rows, ws[..k], p, mid)
    ensures SafeWrite(mid, ws[k], p, now)
  {
    var front, row := ws[..k], ws[k].row;
    assert PassWrite(rows, ws, k, p, now);
    assert forall j :: 0 <= j < k ==> front[j] == ws[j];
    forall i | i in mid && Live(row) && Live(mid[i]) && Seen(mid[i], p) ensures mid[i].subject != row.subject {
      if j :| 0 <= j < k && front[j].row.id == i {
        assert PassWrite(rows, ws, j, p, now);
        assert mid[i] == Tag(ws[j].row, p);
      } else {
        assert mid[i] == rows[i];
      }
    }
  }

  /**
   * However far a safe pass gets before it fails, the store it leaves keeps every promise:
   * the invariant, all history, and the tenant frame.
   */
  lemma {:induction false} SafePassKeeps(rows: Store, ws: seq<Write>, cut: nat, p: Principal, now: Time)
    requires Inv(rows, now) && SafePass(rows, ws, p, now) && cut <= |ws| && p != GLOBAL
    ensures var after := ApplyAll(rows, ws[..cut], p); Inv(after, now) && History(rows, after) && Frame(rows, after, p)
  {
    if cut > 0 {
      var mid := ApplyAll(rows, ws[..cut - 1], p);
      SafePassKeeps(rows, ws, cut - 1, p, now);
      PassWriteSafe(rows, ws, cut - 1, p, now);
      SafeWriteKeeps(mid, ws[cut - 1], p, now);
      var after := Apply(mid, ws[cut - 1], p);
      assert ws[..cut][..cut - 1] == ws[..cut - 1];
      KeepsTransitive(rows, mid, after);
      FrameTransitive(rows, mid, after, p);
    }
  }

  /** A pass, wherever it stops, leaves every row layered iff the rows it inserted are. */
  lemma PassLayers(rows: Store, ws: seq<Write>, cut: nat, p: Principal, now: Time)
    requires SafePass(rows, ws, p, now) && cut <= |ws| && AllLayered(rows)
    ensures AllLayered(ApplyAll(rows, ws[..cut], p)) <==> forall k :: 0 <= k < cut && ws[k].Insert? ==> Layered(ws[k].row)
  {
    var front := ws[..cut];
    var after := ApplyAll(rows, front, p);
    PrefixWrites(rows, ws, cut, p, now);
    forall k | 0 <= k < cut && ws[k].Upsert? ensures Layered(ws[k].row) {
      assert PassWrite(rows, ws, k, p, now);
    }
    forall k | 0 <= k < cut ensures ws[k].row.id in after && (Layered(after[ws[k].row.id]) <==> Layered(ws[k].row)) {
      assert front[k] == ws[k];
    }
    forall i | i in after && (forall k :: 0 <= k < cut ==> ws[k].row.id != i) ensures Layered(after[i]) {
      assert forall k :: 0 <= k < cut ==> front[k].row.id != i;
    }
  }

  lemma PrefixWrites(rows: Store, ws: seq<Write>, cut: nat, p: Principal, now: Time)
    requires SafePass(rows, ws, p, now) && cut <= |ws|
    ensures Written(rows, ws[..cut], p, ApplyAll(rows, ws[..cut], p))
  {
    var front := ws[..cut];
    forall k | 0 <= k < cut && front[k].Insert? ensures front[k].row.id !in rows {
      assert front[k] == ws[k] && PassWrite(rows, ws, k, p, now);
    }
    assert forall k :: 0 <= k < cut ==> front[k] == ws[k];
    ApplyAllWrites(rows, front, p);
  }

  /** A row a pass does not name stays, wherever the pass stops. */
  lemma UnwrittenRow(rows: Store, ws: seq<Write>, cut: nat, p: Principal, now: Time, i: RowId)
    requires SafePass(rows, ws, p, now) && cut <= |ws| && i in rows && forall k :: 0 <= k < cut ==> ws[k].row.id != i
    ensures i in ApplyAll(rows, ws[..cut], p) && ApplyAll(rows, ws[..cut], p)[i] == rows[i]
  {
    PrefixWrites(rows, ws, cut, p, now);
    assert forall k :: 0 <= k < cut ==> ws[..cut][k] == ws[k];
  }

  /**
   * Every rewrite stamps the writer: for another tenant q the row it rewrites stays what it was to
   * q, seen or not, iff the writer already owned it. A shared row is out of everybody else's sight.
   */
  lemma RewriteTakesRow(rows: Store, ws: seq<Write>, cut: nat, k: nat, p: Principal, q: Principal, now: Time)
    requires SafePass(rows, ws, p, now) && k < cut <= |ws| && ws[k].Upsert? && p != GLOBAL && q != p
    ensures var after, i := ApplyAll(rows, ws[..cut], p), ws[k].row.id;
      && i in rows && i in after
      && ((Seen(after[i], q) <==> Seen(rows[i], q)) <==> rows[i].principal == Some(p))
  {
    PrefixWrites(rows, ws, cut, p, now);
    assert ws[..cut][k] == ws[k] && PassWrite(rows, ws, k, p, now);
  }

  // ---- passes that read a view and rewrite some of it -----------------------------------

  function Upserts(rs: seq<Row>): (ws: seq<Write>)
    ensures |ws| == |rs| && forall k :: 0 <= k < |ws| ==> ws[k] == Upsert(rs[k])
  {
    seq(|rs|, k requires 0 <= k < |rs| => Upsert(rs[k]))
  }

  function Insertions(rs: seq<Row>): (ws: seq<Write>)
    ensures |ws| == |rs| && forall k :: 0 <= k < |ws| ==> ws[k] == Insert(rs[k])
  {
    seq(|rs|, k requires 0 <= k < |rs| => Insert(rs[k]))
  }

  /** found holds rows of the store, each once, that p sees. */
  ghost predicate Selection(rows: Store, found: seq<Row>, p: Principal) {
    && (forall k :: 0 <= k < |found| ==> found[k].id in rows && rows[found[k].id] == found[k] && Seen(found[k], p))
    && (forall j, k :: 0 <= j < k < |found| ==> found[j].id != found[k].id)
  }

  /** The selection is complete: every live row p sees. */
  ghost predicate LiveView(rows: Store, found: seq<Row>, p: Principal) {
    && Selection(rows, found, p)
    && (forall k :: 0 <= k < |found| ==> Live(found[k]))
    && (forall i :: i in rows && Live(rows[i]) && Seen(rows[i], p) ==> rows[i] in found)
  }

  /** In a view of a store that keeps its promises every subject occurs once. */
  lemma ViewSubjects(rows: Store, found: seq<Row>, p: Principal, clock: Time)
    requires Inv(rows, clock) && LiveView(rows, found, p)
    ensures forall j, k :: 0 <= j < k < |found| ==> found[j].subject != found[k].subject
  {
    forall j, k | 0 <= j < k < |found| ensures found[j].subject != found[k].subject {
      assert found[j].subject == found[k].subject ==> Rival(rows[found[j].id], rows[found[k].id]);
    }
  }

  /** Supersede what was stored, if anything, then insert its successor. */
  function Succeed(stored: Option<Row>, row: Row, now: Time): seq<Write> {
    (if stored.Some? then [Upsert(stored.value.(validTo := Some(now)))] else []) + [Insert(row)]
  }

  lemma SucceedSafe(rows: Store, stored: Option<Row>, row: Row, clock: Time, now: Time, p: Principal)
    requires Filed(rows, clock) && clock < now
    requires stored.Some? ==>
      stored.value.id in rows && rows[stored.value.id] == stored.value && Current(stored.value) && Seen(stored.value, p)
    requires row.id == RowId(row.subject, now) && row.validFrom == now && Current(row) && WalkLayered(row)
    requires forall i :: (i in rows && Live(row) && Live(rows[i]) && Seen(rows[i], p) && rows[i].subject == row.subject) ==>
                           stored.Some? && stored.value.id == i
    ensures SafePass(rows, Succeed(stored, row, now), p, now)
  {
    var ws := Succeed(stored, row, now);
    var k := |ws| - 1;
    assert ws[k] == Insert(row);
    forall i | i in rows && Live(row) && Live(rows[i]) && Seen(rows[i], p) && rows[i].subject == row.subject
      ensures ClosedBefore(ws, k, i)
    {
      assert ws[0] == Upsert(stored.value.(validTo := Some(now)));
    }
    assert PassWrite(rows, ws, k, p, now);
  }

  /** Distinct current rows p sees, rewritten without changing what they stand for. */
  ghost predicate Updating(rows: Store, updated: seq<Row>, p: Principal) {
    && (forall k :: 0 <= k < |updated| ==>
          && updated[k].id in rows && Current(rows[updated[k].id]) && Seen(rows[updated[k].id], p)
          && Keeps(rows[updated[k].id], updated[k]))
    && (forall j, k :: 0 <= j < k < |updated| ==> updated[j].id != updated[k].id)
  }

  lemma UpdatesSafe(rows: Store, updated: seq<Row>, p: Principal, now: Time)
    requires Updating(rows, updated, p)
    ensures SafePass(rows, Upserts(updated), p, now)
  {
  }

  /** Updates touch the rows they name and only those. */
  lemma UpdatesExact(rows: Store, updated: seq<Row>, p: Principal, now: Time)
    requires Updating(rows, updated, p)
    ensures var after := ApplyAll(rows, Upserts(updated), p);
      && (forall i :: i in after <==> i in rows)
      && (forall row :: row in updated ==> row.id in after && after[row.id] == Tag(row, p))
      && (forall i :: i in rows && (forall row :: row in updated ==> row.id != i) ==> after[i] == rows[i])
  {
    UpdatesSafe(rows, updated, p, now);
    var ws := Upserts(updated);
    SafePassWrites(rows, ws, p, now);
    var after := ApplyAll(rows, ws, p);
    forall row | row in updated ensures row.id in after && after[row.id] == Tag(row, p) {
      var k :| 0 <= k < |updated| && updated[k] == row;
      assert ws[k] == Upsert(row);
    }
    forall i | i in rows ensures i in after && ((forall row :: row in updated ==> row.id != i) ==> after[i] == rows[i]) {
      if forall k :: 0 <= k < |ws| ==> ws[k].row.id != i {
      } else {
        var k :| 0 <= k < |ws| && ws[k].row.id == i;
        assert updated[k] in updated;
      }
    }
  }
}
