// What reinforcement, decay and proof replay leave of a row, field by field.

module Outcomes {
  import opened Basics
  import opened Text
  import opened Rows
  import opened Upkeep

  // ---- reinforcement -----------------------------------------------------------------------------

  /** A delivered row has one recall more, now, and the reason if the result made it suspect; nothing else changes. */
  lemma ReinforcedExact(rows: Store, found: seq<Row>, reasons: map<RowId, string>, p: Principal, now: Time, k: nat)
    requires Selection(rows, found, p) && (forall j :: 0 <= j < |found| ==> Current(found[j])) && k < |found|
    ensures var after, row := ApplyAll(rows, Upserts(Reinforced(found, reasons, now)), p), found[k];
      && row.id in after
      && after[row.id] == row.(recallCount := row.recallCount + 1, lastRecalled := Some(now), principal := Some(p),
                               attrs := if row.id in reasons then row.attrs["suspect_reason" := reasons[row.id]] else row.attrs)
  {
    ReinforceSafe(rows, found, reasons, p, now);
    var rs := Reinforced(found, reasons, now);
    UpdatesExact(rows, rs, p, now);
    assert rs[k] in rs;
  }

  // ---- decay ---------------------------------------------------------------------------------------

  /** A note without a query that was never recalled and is older than thirty days, in seconds. */
  predicate Neglected(row: Row, now: Time) {
    && row.typ == "Note" && (row.sourceQuery == None || row.sourceQuery == Some("")) && row.recallCount == 0
    && now - (match row.lastRecalled case None => row.validFrom case Some(t) => t) > 2592000
  }

  lemma NeglectedExact(row: Row, now: Time)
    ensures DecayCandidate(row, now) <==> Neglected(row, now)
  {
  }

  /** A decay pass over rows it read archives the neglected ones, with the reason, and leaves every other row as it was. */
  lemma DecayedExact(rows: Store, found: seq<Row>, p: Principal, now: Time, i: RowId)
    requires Selection(rows, found, p) && (forall k :: 0 <= k < |found| ==> Current(found[k])) && i in rows && rows[i].id == i
    ensures var after := ApplyAll(rows, Upserts(Decayed(found, now)), p);
      i in after && after[i] == if rows[i] in found && Neglected(rows[i], now) then Filed(rows[i], now, p) else rows[i]
  {
    NeglectedExact(rows[i], now);
    DecayExact(rows, found, p, now, i);
  }

  /** The archived form of a row. */
  function Filed(row: Row, now: Time, p: Principal): Row {
    row.(validTo := Some(now), principal := Some(p),
         attrs := row.attrs["archived_reason" := "unverified and never recalled within 30 days"])
  }

  // ---- proof replay --------------------------------------------------------------------------------

  /** A current note with a query to replay. */
  predicate HasProof(row: Row) {
    row.validTo == None && row.typ == "Note" && row.sourceQuery.Some? && row.sourceQuery.value != ""
  }

  /** The proof ran, gave rows, and they conflict with the note. */
  predicate Contradicted(proof: Proof) {
    match proof
    case Unrunnable => false
    case Ran(n, conflicts) => n != 0 && |conflicts| != 0
  }

  /** The reason a retired note carries: its conflicts, cut to 500 characters. */
  function Reason(conflicts: seq<string>): string {
    var whole := "refuted by its own source_query: " + Join(conflicts, "; ");
    if |whole| > 500 then whole[..500] else whole
  }

  /**
   * What a replay pass leaves of a row it replayed: a note its proof contradicts is retired with the
   * reason, one whose proof does not run is marked suspect and stays, and any other, or one whose
   * write was lost, is as it was.
   */
  lemma ReplayedExact(rows: Store, xs: seq<Replay>, p: Principal, now: Time, x: Replay)
    requires ReplayInput(rows, xs, p) && x in xs
    ensures var after, row := ApplyAll(rows, Upserts(Revalidated(xs, now)), p), x.row;
      && row.id in after
      && after[row.id] ==
           if !x.delivered || !HasProof(row) then row
           else if x.proof == Unrunnable then
             row.(principal := Some(p), attrs := row.attrs["suspect_reason" := "its proving query no longer runs"])
           else if Contradicted(x.proof) then
             row.(principal := Some(p), validTo := Some(now), attrs := row.attrs["archived_reason" := Reason(x.proof.conflicts)])
           else row
  {
    ReplayWritten(rows, xs, p, now, x);
    OutcomeExact(x, now);
  }

  lemma OutcomeExact(x: Replay, now: Time)
    ensures Outcome(x, now) ==
      if !x.delivered || !HasProof(x.row) then None
      else if x.proof == Unrunnable then Some(x.row.(attrs := x.row.attrs["suspect_reason" := "its proving query no longer runs"]))
      else if Contradicted(x.proof) then
        Some(x.row.(validTo := Some(now), attrs := x.row.attrs["archived_reason" := Reason(x.proof.conflicts)]))
      else None
  {
  }

  predicate IsTried(x: Replay) {
    HasProof(x.row)
  }

  predicate IsRefuted(x: Replay) {
    HasProof(x.row) && Contradicted(x.proof)
  }

  predicate IsUnprovable(x: Replay) {
    HasProof(x.row) && x.proof == Unrunnable
  }

  ghost function Places(xs: seq<Replay>, p: Replay -> bool): set<int> {
    set i | 0 <= i < |xs| && p(xs[i])
  }

  /** The counters of a pass count its replays of each kind, delivered or not. */
  lemma {:induction false} TallyExact(xs: seq<Replay>)
    ensures Tally(xs) == Counters(|Places(xs, IsTried)|, |Places(xs, IsRefuted)|, |Places(xs, IsUnprovable)|)
  {
    if xs != [] {
      var n := |xs| - 1;
      TallyExact(xs[..n]);
      CountSnoc(xs, IsTried);
      CountSnoc(xs, IsRefuted);
      CountSnoc(xs, IsUnprovable);
    }
  }

  lemma CountSnoc(xs: seq<Replay>, p: Replay -> bool)
    requires xs != []
    ensures var n := |xs| - 1; |Places(xs, p)| == |Places(xs[..n], p)| + if p(xs[n]) then 1 else 0
  {
    var n := |xs| - 1;
    assert Places(xs, p) == if p(xs[n]) then Places(xs[..n], p) + {n} else Places(xs[..n], p);
  }
}
