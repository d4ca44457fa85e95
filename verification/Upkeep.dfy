// The passes that only rewrite rows in place: reinforcement (memory_notes.py), decay
// (decay.py) and proof replay (revalidate.py).

module Upkeep {
  import opened Basics
  import opened Text
  import opened Rows

  const DECAY_AFTER: Time := 30 * 86400

  // ---- reinforcement ---------------------------------------------------------------

  /** flag_suspect: metadata on the same row. */
  function Flagged(row: Row, reason: string): Row {
    row.(attrs := row.attrs["suspect_reason" := reason])
  }

  /** reinforce_notes on one row. */
  function Bumped(row: Row, now: Time): Row {
    row.(recallCount := row.recallCount + 1, lastRecalled := Some(now))
  }

  /** check_rows: rows the fresh result contradicts carry the reason. */
  function Checked(found: seq<Row>, reasons: map<RowId, string>): (r: seq<Row>)
    ensures |r| == |found|
    ensures forall k :: 0 <= k < |r| ==>
      r[k] == if found[k].id in reasons then Flagged(found[k], reasons[found[k].id]) else found[k]
  {
    seq(|found|, k requires 0 <= k < |found| =>
      if found[k].id in reasons then Flagged(found[k], reasons[found[k].id]) else found[k])
  }

  /** One write per delivered row carries the usage bump and any suspect marker. */
  function Reinforced(found: seq<Row>, reasons: map<RowId, string>, now: Time): (r: seq<Row>)
    ensures |r| == |found|
    ensures forall k :: 0 <= k < |r| ==> r[k] == Bumped(Checked(found, reasons)[k], now)
  {
    seq(|found|, k requires 0 <= k < |found| => Bumped(Checked(found, reasons)[k], now))
  }

  lemma ReinforceSafe(rows: Store, found: seq<Row>, reasons: map<RowId, string>, p: Principal, now: Time)
    requires Selection(rows, found, p) && forall k :: 0 <= k < |found| ==> Current(found[k])
    ensures SafePass(rows, Upserts(Reinforced(found, reasons, now)), p, now)
  {
    UpdatesSafe(rows, Reinforced(found, reasons, now), p, now);
  }

  /**
   * Reinforcing a copy carried over from an earlier turn keeps history iff the stored row is still
   * current and was recalled at most once since: a row superseded in between is reopened, and of
   * recalls in between all but one are lost.
   */
  lemma CarriedWriteBack(rows: Store, carried: Row, reasons: map<RowId, string>, p: Principal, now: Time)
    requires carried.id in rows && Current(carried) && Keeps(carried, rows[carried.id])
    ensures History(rows, ApplyAll(rows, Upserts(Reinforced([carried], reasons, now)), p)) <==>
      Current(rows[carried.id]) && rows[carried.id].recallCount <= carried.recallCount + 1
  {
    var ws := Upserts(Reinforced([carried], reasons, now));
    var after := ApplyAll(rows, ws, p);
    assert |ws| == 1 && ws[..|ws| - 1] == [];
    assert ApplyAll(rows, [], p) == rows;
    assert after[carried.id].validTo.None?;
  }

  // ---- decay -------------------------------------------------------------------------

  predicate DecayCandidate(row: Row, now: Time) {
    && row.typ == NOTE && row.sourceQuery.GetOr("") == "" && row.recallCount == 0
    && now > row.lastRecalled.GetOr(row.validFrom) + DECAY_AFTER
  }

  function Archived(row: Row, now: Time): Row {
    row.(validTo := Some(now), attrs := row.attrs["archived_reason" := "unverified and never recalled within 30 days"])
  }

  function Decayed(found: seq<Row>, now: Time): seq<Row> {
    if found == [] then []
    else
      var row := found[|found| - 1];
      Decayed(found[..|found| - 1], now) + if DecayCandidate(row, now) then [Archived(row, now)] else []
  }

  /** The archived rows are those of the candidates, each once and in order. */
  lemma {:induction false} DecayedShape(found: seq<Row>, now: Time)
    requires forall j, k :: 0 <= j < k < |found| ==> found[j].id != found[k].id
    ensures forall row :: row in Decayed(found, now) <==>
      exists k :: 0 <= k < |found| && DecayCandidate(found[k], now) && row == Archived(found[k], now)
    ensures forall j, k :: 0 <= j < k < |Decayed(found, now)| ==> Decayed(found, now)[j].id != Decayed(found, now)[k].id
  {
    if found != [] {
      var n := |found| - 1;
      var front := found[..n];
      DecayedShape(front, now);
      assert forall k :: 0 <= k < n ==> front[k] == found[k];
      var d := Decayed(front, now);
      forall k | 0 <= k < |d| ensures d[k].id != found[n].id {
        assert d[k] in d;
      }
    }
  }

  lemma DecayUpdates(rows: Store, found: seq<Row>, p: Principal, now: Time)
    requires Selection(rows, found, p) && forall k :: 0 <= k < |found| ==> Current(found[k])
    ensures Updating(rows, Decayed(found, now), p)
  {
    DecayedShape(found, now);
    var updated := Decayed(found, now);
    forall k | 0 <= k < |updated|
      ensures updated[k].id in rows && Current(rows[updated[k].id]) && Seen(rows[updated[k].id], p)
      ensures Keeps(rows[updated[k].id], updated[k])
    {
      assert updated[k] in updated;
    }
  }

  /** A whole decay pass closes exactly the candidates it fetched and nothing else. */
  lemma DecayExact(rows: Store, found: seq<Row>, p: Principal, now: Time, i: RowId)
    requires Selection(rows, found, p) && (forall k :: 0 <= k < |found| ==> Current(found[k])) && i in rows && rows[i].id == i
    ensures var after := ApplyAll(rows, Upserts(Decayed(found, now)), p);
      i in after && after[i] == if rows[i] in found && DecayCandidate(rows[i], now) then Tag(Archived(rows[i], now), p) else rows[i]
  {
    DecayUpdates(rows, found, p, now);
    DecayedShape(found, now);
    UpdatesExact(rows, Decayed(found, now), p, now);
    if rows[i] in found && DecayCandidate(rows[i], now) {
      assert Archived(rows[i], now) in Decayed(found, now);
    }
  }

  // ---- proof replay --------------------------------------------------------------------

  /** What re-running a note's source query gave: nothing (it failed), or rows and conflicts. */
  datatype Proof = Unrunnable | Ran(rows: nat, conflicts: seq<string>)

  /** _run_proof and note_conflicts: the note's query is run, and its text held against the rows it gave. */
  function ProofOf(row: Row, run: string -> Option<seq<string>>, conflicts: (string, seq<string>) -> seq<string>): Proof {
    match run(row.sourceQuery.GetOr(""))
    case None => Unrunnable
    case Some(results) => Ran(|results|, conflicts(row.text, results))
  }

  predicate Replayable(row: Row) {
    Current(row) && row.typ == NOTE && row.sourceQuery.GetOr("") != ""
  }

  /** The proof contradicts the note: it ran, returned rows, and they conflict. */
  predicate Refuted(proof: Proof) {
    proof.Ran? && proof.rows > 0 && proof.conflicts != []
  }

  const MAX_REASON_LEN := 500

  function RefutedReason(conflicts: seq<string>): (reason: string)
    ensures |reason| <= MAX_REASON_LEN
  {
    var reason := "refuted by its own source_query: " + Join(conflicts, "; ");
    if |reason| <= MAX_REASON_LEN then reason else reason[..MAX_REASON_LEN]
  }

  function Retired(row: Row, reason: string, now: Time): Row {
    row.(validTo := Some(now), attrs := row.attrs["archived_reason" := reason])
  }

  /** _replay_one: a proof that cannot run flags the note, one that refutes it retires it. */
  function Replayed(row: Row, proof: Proof, now: Time): Option<Row> {
    if !Replayable(row) then None
    else if proof.Unrunnable? then Some(Flagged(row, "its proving query no longer runs"))
    else if Refuted(proof) then Some(Retired(row, RefutedReason(proof.conflicts), now))
    else None
  }

  /** One candidate of a pass: its row, what its proof gave, and whether the write got through. */
  datatype Replay = Replay(row: Row, proof: Proof, delivered: bool)

  function Outcome(x: Replay, now: Time): Option<Row> {
    if x.delivered then Replayed(x.row, x.proof, now) else None
  }

  /** The rows a pass wrote back: failed writes are skipped and the pass goes on. */
  function Revalidated(xs: seq<Replay>, now: Time): seq<Row> {
    if xs == [] then []
    else
      var outcome := Outcome(xs[|xs| - 1], now);
      Revalidated(xs[..|xs| - 1], now) + if outcome.Some? then [outcome.value] else []
  }

  /** The counters of a pass: what was attempted, whether or not its write got through. */
  datatype Counters = Counters(checked: nat, retired: nat, unprovable: nat)

  function Counted(c: Counters, row: Row, proof: Proof): Counters {
    if !Replayable(row) then c
    else
      Counters(c.checked + 1, c.retired + if Refuted(proof) then 1 else 0, c.unprovable + if proof.Unrunnable? then 1 else 0)
  }

  function Tally(xs: seq<Replay>): Counters {
    if xs == [] then Counters(0, 0, 0)
    else Counted(Tally(xs[..|xs| - 1]), xs[|xs| - 1].row, xs[|xs| - 1].proof)
  }

  ghost predicate DistinctReplays(xs: seq<Replay>) {
    forall j, k :: 0 <= j < k < |xs| ==> xs[j].row.id != xs[k].row.id
  }

  ghost predicate OutcomeOf(row: Row, xs: seq<Replay>, now: Time) {
    exists x :: x in xs && Outcome(x, now) == Some(row)
  }

  lemma {:induction false} RevalidatedShape(xs: seq<Replay>, now: Time)
    requires DistinctReplays(xs)
    ensures forall row :: row in Revalidated(xs, now) <==> OutcomeOf(row, xs, now)
    ensures forall j, k :: 0 <= j < k < |Revalidated(xs, now)| ==> Revalidated(xs, now)[j].id != Revalidated(xs, now)[k].id
  {
    if xs != [] {
      var n := |xs| - 1;
      var front := xs[..n];
      RevalidatedShape(front, now);
      assert xs == front + [xs[n]];
      var r := Revalidated(front, now);
      forall row | row in r ensures row.id != xs[n].row.id {
        assert OutcomeOf(row, front, now);
      }
      forall row ensures row in Revalidated(xs, now) <==> OutcomeOf(row, xs, now) {
        OutcomeSnoc(row, front, xs[n], now);
      }
    }
  }

  lemma OutcomeSnoc(row: Row, front: seq<Replay>, x: Replay, now: Time)
    ensures OutcomeOf(row, front + [x], now) <==> OutcomeOf(row, front, now) || Outcome(x, now) == Some(row)
  {
    assert x in front + [x];
  }

  /** The pass replays rows it selected. */
  ghost predicate ReplayInput(rows: Store, xs: seq<Replay>, p: Principal) {
    && DistinctReplays(xs)
    && forall x :: x in xs ==> x.row.id in rows && rows[x.row.id] == x.row && Seen(x.row, p)
  }

  lemma RevalidateUpdates(rows: Store, xs: seq<Replay>, p: Principal, now: Time)
    requires ReplayInput(rows, xs, p)
    ensures Updating(rows, Revalidated(xs, now), p)
  {
    RevalidatedShape(xs, now);
    var updated := Revalidated(xs, now);
    forall k | 0 <= k < |updated|
      ensures updated[k].id in rows && Current(rows[updated[k].id]) && Seen(rows[updated[k].id], p)
      ensures Keeps(rows[updated[k].id], updated[k])
    {
      assert OutcomeOf(updated[k], xs, now);
    }
  }

  lemma OutcomeIsOwn(xs: seq<Replay>, now: Time, x: Replay, row: Row)
    requires DistinctReplays(xs) && x in xs && OutcomeOf(row, xs, now) && row.id == x.row.id
    ensures Outcome(x, now) == Some(row)
  {
    var y :| y in xs && Outcome(y, now) == Some(row);
    assert y.row.id == row.id;
    assert y == x;
  }

  /** After the pass a replayed row is its outcome, or what it was. */
  lemma ReplayWritten(rows: Store, xs: seq<Replay>, p: Principal, now: Time, x: Replay)
    requires ReplayInput(rows, xs, p) && x in xs
    ensures var after := ApplyAll(rows, Upserts(Revalidated(xs, now)), p);
      x.row.id in after && after[x.row.id] == match Outcome(x, now) { case Some(row) => Tag(row, p) case None => x.row }
  {
    RevalidateUpdates(rows, xs, p, now);
    RevalidatedShape(xs, now);
    UpdatesExact(rows, Revalidated(xs, now), p, now);
    match Outcome(x, now)
    case Some(row) =>
      assert OutcomeOf(row, xs, now);
    case None =>
      forall row | row in Revalidated(xs, now) ensures row.id != x.row.id {
        if row.id == x.row.id {
          OutcomeIsOwn(xs, now, x, row);
        }
      }
  }

  /**
   * Only a note's own proof retires it: of the rows a replay pass fetched, exactly the grounded
   * notes whose proof ran and contradicted them are closed; an unrunnable proof closes nothing.
   */
  lemma ReplayExact(rows: Store, xs: seq<Replay>, p: Principal, now: Time, x: Replay)
    requires ReplayInput(rows, xs, p) && x in xs
    ensures var after := ApplyAll(rows, Upserts(Revalidated(xs, now)), p);
      x.row.id in after
      && (Current(after[x.row.id]) <==> Current(x.row) && !(x.delivered && Replayable(x.row) && Refuted(x.proof)))
  {
    ReplayWritten(rows, xs, p, now, x);
  }
}
