// Runs of the memory store: any interleaving of whole passes by any tenants, each pass
// possibly cut short by a failed write, under a strictly increasing clock.

module Runs {
  import opened Basics
  import opened Text
  import opened Rows
  import opened Upkeep
  import opened NoteWrite
  import Reconcile
  import Dedup
  import Adoption

  const PREFERENCE := "preference"
  const PREFERENCE_TYPE := "Preference"

  datatype State = State(rows: Store, clock: Time)

  /** One pass: who ran it, when, what its reads returned, and how many of its writes landed. */
  datatype Event =
    | Walk(p: Principal, now: Time, cut: nat, bundle: seq<Reconcile.Doc>, current: seq<Row>, scope: Option<string>)
    | WriteNote(p: Principal, now: Time, cut: nat, found: seq<Row>, req: Request)
    | Remember(p: Principal, now: Time, cut: nat, found: seq<Row>, subject: string, rule: string, attrs: map<string, string>)
    | Reinforce(p: Principal, now: Time, cut: nat, found: seq<Row>, reasons: map<RowId, string>)
    | Decay(p: Principal, now: Time, cut: nat, found: seq<Row>)
    | Revalidate(p: Principal, now: Time, cut: nat, replays: seq<Replay>)
    | Deduplicate(p: Principal, now: Time, cut: nat, found: seq<Row>)
    | Adopt(p: Principal, now: Time, cut: nat, found: seq<Row>)

  /** remember_preference: a row of its own kind, unless the rule is already there. */
  function PreferenceWrites(found: seq<Row>, subject: string, rule: string, attrs: map<string, string>, now: Time): seq<Write> {
    if exists k :: 0 <= k < |found| && Strip(found[k].text, IsSpace) == rule then []
    else [Insert(Row(RowId(subject, now), subject, PREFERENCE_TYPE, PREFERENCE, None, None, rule, now, None, None, None, 0,
                     None, None, attrs))]
  }

  /** A preference is stored iff no stored one of its scope says it already, as a current row of its own kind. */
  lemma PreferenceExact(found: seq<Row>, subject: string, rule: string, attrs: map<string, string>, now: Time)
    ensures var ws := PreferenceWrites(found, subject, rule, attrs, now);
      if exists row :: row in found && Strip(row.text, IsSpace) == rule then ws == []
      else |ws| == 1 && ws[0].Insert? && ws[0].row == Row(RowId(subject, now), subject, "Preference", "preference", None, None, rule, now,
                                                          None, None, None, 0, None, None, attrs)
  {
    RuleStored(found, rule, IsSpace);
  }

  lemma RuleStored(found: seq<Row>, rule: string, p: char -> bool)
    ensures (exists k :: 0 <= k < |found| && Strip(found[k].text, p) == rule) <==>
      (exists row :: row in found && Strip(row.text, p) == rule)
  {
    if row :| row in found && Strip(row.text, p) == rule {
      var k :| 0 <= k < |found| && found[k] == row;
    }
  }

  function Writes(e: Event, lex: Lexicon): seq<Write> {
    match e
    case Walk(_, now, _, bundle, current, scope) => Reconcile.WalkWrites(bundle, current, now, scope)
    case WriteNote(_, now, _, found, req) => NoteWrites(First(found), req, now, lex)
    case Remember(_, now, _, found, subject, rule, attrs) => PreferenceWrites(found, subject, rule, attrs, now)
    case Reinforce(_, now, _, found, reasons) => Upserts(Reinforced(found, reasons, now))
    case Decay(_, now, _, found) => Upserts(Decayed(found, now))
    case Revalidate(_, now, _, replays) => Upserts(Revalidated(replays, now))
    case Deduplicate(_, now, _, found) => Upserts(Dedup.DedupUpdates(found, now))
    case Adopt(_, _, _, found) => Upserts(found)
  }

  /** The pass read what the store held: the rows its query selects for its tenant. */
  ghost predicate Reads(rows: Store, e: Event) {
    match e
    case Walk(p, _, _, bundle, current, _) => LiveView(rows, current, p) && Reconcile.DistinctDocs(bundle)
    case WriteNote(p, _, _, found, req) => SubjectView(rows, found, req.subject, p) && Validate(true, req).None?
    case Remember(p, _, _, found, subject, _, _) => SubjectView(rows, found, subject, p)
    case Reinforce(p, _, _, found, _) => Selection(rows, found, p) && forall k :: 0 <= k < |found| ==> Current(found[k])
    case Decay(p, _, _, found) => Selection(rows, found, p) && forall k :: 0 <= k < |found| ==> Current(found[k])
    case Revalidate(p, _, _, replays) => ReplayInput(rows, replays, p)
    case Deduplicate(p, _, _, found) => Dedup.LiveSelection(rows, found, p)
    case Adopt(p, _, _, found) => Adoption.Unowned(rows, found)
  }

  /**
   * The clock moved, a tenant ran the pass, and it stopped after cut of its writes. Adoption is
   * only allowed where no adopted row clashes with a visible one (AdoptFits: iff).
   */
  ghost predicate Enabled(s: State, e: Event, lex: Lexicon) {
    && e.now > s.clock && e.p != GLOBAL && e.cut <= |Writes(e, lex)| && Reads(s.rows, e)
    && (e.Adopt? ==> Adoption.Fits(s.rows, e.p))
  }

  function Next(s: State, e: Event, lex: Lexicon): State
    requires e.cut <= |Writes(e, lex)|
  {
    State(ApplyAll(s.rows, Writes(e, lex)[..e.cut], e.p), e.now)
  }

  ghost predicate Valid(s: State, es: seq<Event>, lex: Lexicon)
    decreases |es|
  {
    es == [] || (Enabled(s, es[0], lex) && Valid(Next(s, es[0], lex), es[1..], lex))
  }

  function Run(s: State, es: seq<Event>, lex: Lexicon): State
    decreases |es|
  {
    if es == [] then s
    else if es[0].cut <= |Writes(es[0], lex)| then Run(Next(s, es[0], lex), es[1..], lex)
    else s
  }

  ghost predicate Kept(s: State) {
    Inv(s.rows, s.clock)
  }

  // ---- one pass ---------------------------------------------------------------------

  lemma PassSafe(s: State, e: Event, lex: Lexicon)
    requires Kept(s) && Enabled(s, e, lex) && !e.Adopt?
    ensures SafePass(s.rows, Writes(e, lex), e.p, e.now)
  {
    match e
    case Walk(p, now, _, bundle, current, scope) => Reconcile.WalkSafe(s.rows, bundle, current, s.clock, now, scope, p);
    case WriteNote(p, now, _, found, req) => NoteWriteSafe(s.rows, found, req, s.clock, now, lex, p);
    case Remember(p, now, _, found, subject, rule, attrs) => PreferenceSafe(s, found, subject, rule, attrs, now, p);
    case Reinforce(p, now, _, found, reasons) => ReinforceSafe(s.rows, found, reasons, p, now);
    case Decay(p, now, _, found) =>
      DecayUpdates(s.rows, found, p, now);
      UpdatesSafe(s.rows, Decayed(found, now), p, now);
    case Revalidate(p, now, _, replays) =>
      RevalidateUpdates(s.rows, replays, p, now);
      UpdatesSafe(s.rows, Revalidated(replays, now), p, now);
    case Deduplicate(p, now, _, found) =>
      Dedup.DedupIsUpdating(s.rows, found, p, now);
      UpdatesSafe(s.rows, Dedup.DedupUpdates(found, now), p, now);
  }

  lemma PreferenceSafe(s: State, found: seq<Row>, subject: string, rule: string, attrs: map<string, string>, now: Time, p: Principal)
    requires Kept(s) && now > s.clock
    ensures SafePass(s.rows, PreferenceWrites(found, subject, rule, attrs, now), p, now)
  {
    var ws := PreferenceWrites(found, subject, rule, attrs, now);
    if ws != [] {
      PreferenceIsNotLive(ws[0].row);
      assert PassWrite(s.rows, ws, 0, p, now);
    }
  }

  lemma PreferenceIsNotLive(row: Row)
    requires row.kind == PREFERENCE && row.core.None?
    ensures !Live(row) && WalkLayered(row)
  {
    assert PREFERENCE[0] == 'p' && SEMANTIC[0] == 's';
  }

  /** What one pass keeps, wherever it stops. */
  lemma StepKeeps(s: State, e: Event, lex: Lexicon)
    requires Kept(s) && Enabled(s, e, lex)
    ensures var t := Next(s, e, lex);
      Kept(t) && History(s.rows, t.rows) && Frame(s.rows, t.rows, e.p)
  {
    if e.Adopt? {
      AdoptStepKeeps(s, e, lex);
    } else {
      PassSafe(s, e, lex);
      SafePassKeeps(s.rows, Writes(e, lex), e.cut, e.p, e.now);
    }
  }

  lemma AdoptsPart(s: State, e: Event, lex: Lexicon)
    requires e.Adopt? && e.cut <= |e.found| && Adoption.Unowned(s.rows, e.found)
    ensures e.cut <= |Writes(e, lex)| && Next(s, e, lex) == State(Adoption.AfterAdopting(s.rows, e.found[..e.cut], e.p), e.now)
    ensures Adoption.Unowned(s.rows, e.found[..e.cut])
  {
    assert Upserts(e.found)[..e.cut] == Upserts(e.found[..e.cut]);
  }

  lemma AdoptStepKeeps(s: State, e: Event, lex: Lexicon)
    requires Kept(s) && Enabled(s, e, lex) && e.Adopt?
    ensures var t := Next(s, e, lex);
      Kept(t) && History(s.rows, t.rows) && Frame(s.rows, t.rows, e.p)
  {
    AdoptsPart(s, e, lex);
    Adoption.AdoptKeeps(s.rows, e.found[..e.cut], e.p, s.clock);
    Adoption.AdoptKeepsOne(s.rows, e.found[..e.cut], e.p, s.clock);
  }

  /**
   * Whichever pass rewrites a row, and wherever it stops, another tenant's view of that row is
   * unchanged iff the tenant of the pass owned it already: closing or reinforcing a shared row
   * takes it from everyone else.
   */
  lemma SharedRowsChangeHands(s: State, e: Event, lex: Lexicon, k: nat, q: Principal)
    requires Kept(s) && Enabled(s, e, lex) && !e.Adopt? && q != e.p
    requires k < e.cut && Writes(e, lex)[k].Upsert?
    ensures var after, i := Next(s, e, lex).rows, Writes(e, lex)[k].row.id;
      && i in s.rows && i in after
      && ((Seen(after[i], q) <==> Seen(s.rows[i], q)) <==> s.rows[i].principal == Some(e.p))
  {
    PassSafe(s, e, lex);
    RewriteTakesRow(s.rows, Writes(e, lex), e.cut, k, e.p, q, e.now);
  }

  // ---- delivered notes --------------------------------------------------------------------

  /** A decay pass, wherever it stops, leaves a row that was ever recalled exactly as it is. */
  lemma DecaySpares(s: State, e: Event, lex: Lexicon, i: RowId)
    requires Kept(s) && Enabled(s, e, lex) && e.Decay? && i in s.rows && s.rows[i].recallCount > 0
    ensures i in Next(s, e, lex).rows && Next(s, e, lex).rows[i] == s.rows[i]
  {
    var updated := Decayed(e.found, e.now);
    DecayedShape(e.found, e.now);
    forall k | 0 <= k < |updated| ensures updated[k].id != i {
      assert updated[k] in updated;
    }
    PassSafe(s, e, lex);
    UnwrittenRow(s.rows, Writes(e, lex), e.cut, e.p, e.now, i);
  }

  /** Reinforcing a row, once its write landed, leaves it recalled. */
  lemma ReinforcedIsRecalled(s: State, e: Event, lex: Lexicon, k: nat)
    requires Kept(s) && Enabled(s, e, lex) && e.Reinforce? && k < e.cut
    ensures k < |e.found| && e.found[k].id in Next(s, e, lex).rows && Next(s, e, lex).rows[e.found[k].id].recallCount > 0
  {
    PassSafe(s, e, lex);
    PrefixWrites(s.rows, Writes(e, lex), e.cut, e.p, e.now);
    assert Writes(e, lex)[..e.cut][k].row == Reinforced(e.found, e.reasons, e.now)[k];
  }

  /**
   * One delivery protects a note for good: from a reinforcement that landed on, its recalls never
   * fall over any run, and no decay pass of that run changes the row.
   */
  lemma DeliveredNeverDecays(s: State, bump: Event, k: nat, es: seq<Event>, decay: Event, lex: Lexicon)
    requires Kept(s) && Enabled(s, bump, lex) && bump.Reinforce? && k < bump.cut
    requires Valid(Next(s, bump, lex), es, lex)
    requires decay.Decay? && Enabled(Run(Next(s, bump, lex), es, lex), decay, lex)
    ensures k < |bump.found|
    ensures var first, then_, i := Next(s, bump, lex).rows, Run(Next(s, bump, lex), es, lex), bump.found[k].id;
      && i in first && i in then_.rows && 0 < first[i].recallCount <= then_.rows[i].recallCount
      && i in Next(then_, decay, lex).rows && Next(then_, decay, lex).rows[i] == then_.rows[i]
  {
    StepKeeps(s, bump, lex);
    ReinforcedIsRecalled(s, bump, lex, k);
    RunKeeps(Next(s, bump, lex), es, lex);
    DecaySpares(Run(Next(s, bump, lex), es, lex), decay, lex, bump.found[k].id);
  }

  // ---- the layers of every row -----------------------------------------------------------

  /** A note that supersedes a row of foreign type with a core by another text, and whose insert landed. */
  predicate Unmerges(e: Event, lex: Lexicon) {
    e.WriteNote? && Unlayers(First(e.found), e.req, lex) && e.cut == 2
  }

  /** The rows an event inserted are layered iff it is not such a note. */
  lemma InsertsLayered(s: State, e: Event, lex: Lexicon)
    requires Kept(s) && Enabled(s, e, lex) && AllLayered(s.rows) && !e.Adopt?
    ensures (forall k :: 0 <= k < e.cut && Writes(e, lex)[k].Insert? ==> Layered(Writes(e, lex)[k].row)) <==> !Unmerges(e, lex)
  {
    match e
    case Walk(_, now, _, bundle, current, scope) => WalkInsertsLayered(bundle, current, now, scope);
    case WriteNote(_, now, cut, found, req) => NoteInserts(First(found), req, now, lex, cut);
    case Remember(_, now, _, found, subject, rule, attrs) =>
      assert forall k :: 0 <= k < e.cut ==> Writes(e, lex)[k].row.core.None?;
    case _ =>
  }

  lemma WalkInsertsLayered(bundle: seq<Reconcile.Doc>, current: seq<Row>, now: Time, scope: Option<string>)
    requires Reconcile.DistinctDocs(bundle)
    ensures forall w :: w in Reconcile.WalkWrites(bundle, current, now, scope) && w.Insert? ==> Layered(w.row)
  {
    forall w | w in Reconcile.WalkWrites(bundle, current, now, scope) && w.Insert? ensures Layered(w.row) {
      assert w.row in Reconcile.Inserts(bundle, current, now);
      Reconcile.InsertIsNew(bundle, current, now, w.row);
    }
  }

  lemma AdoptLayers(s: State, e: Event, lex: Lexicon)
    requires e.Adopt? && Kept(s) && Enabled(s, e, lex) && AllLayered(s.rows)
    ensures AllLayered(Next(s, e, lex).rows)
  {
    AdoptsPart(s, e, lex);
    var after := Next(s, e, lex).rows;
    forall i | i in after ensures Layered(after[i]) {
      Adoption.AdoptedRow(s.rows, e.found[..e.cut], e.p, i);
    }
  }

  /** One pass leaves every row with a core reading as the merge of its layers, iff it is not such a note. */
  lemma StepLayers(s: State, e: Event, lex: Lexicon)
    requires Kept(s) && Enabled(s, e, lex) && AllLayered(s.rows)
    ensures AllLayered(Next(s, e, lex).rows) <==> !Unmerges(e, lex)
  {
    if e.Adopt? {
      AdoptLayers(s, e, lex);
    } else {
      PassSafe(s, e, lex);
      PassLayers(s.rows, Writes(e, lex), e.cut, e.p, e.now);
      InsertsLayered(s, e, lex);
    }
  }

  // ---- whole runs ---------------------------------------------------------------------

  /**
   * Over every run: no row id disappears, an id keeps its content and its valid_from, its recalls
   * never fall, a closed row is never written again, every view has one current semantic row per subject, and every
   * walk-owned layered row reads as the merge of its layers.
   */
  lemma {:induction false} RunKeeps(s: State, es: seq<Event>, lex: Lexicon)
    requires Kept(s) && Valid(s, es, lex)
    ensures Kept(Run(s, es, lex)) && History(s.rows, Run(s, es, lex).rows)
    decreases |es|
  {
    if es != [] {
      var t := Next(s, es[0], lex);
      StepKeeps(s, es[0], lex);
      RunKeeps(t, es[1..], lex);
      KeepsTransitive(s.rows, t.rows, Run(t, es[1..], lex).rows);
    }
  }

  /**
   * Over every run: all rows read as the merge of their layers at the end iff no note of the run
   * superseded a row of foreign type that has a core by a different text.
   */
  lemma {:induction false} RunLayers(s: State, es: seq<Event>, lex: Lexicon)
    requires Kept(s) && Valid(s, es, lex) && AllLayered(s.rows)
    ensures AllLayered(Run(s, es, lex).rows) <==> NoneUnmerges(es, lex)
    decreases |es|
  {
    if es != [] {
      var t := Next(s, es[0], lex);
      StepKeeps(s, es[0], lex);
      StepLayers(s, es[0], lex);
      NoneCons(es, lex);
      RunKeeps(t, es[1..], lex);
      StaysUnlayered(t.rows, Run(t, es[1..], lex).rows);
      if !Unmerges(es[0], lex) {
        RunLayers(t, es[1..], lex);
      }
    }
  }

  ghost predicate NoneUnmerges(es: seq<Event>, lex: Lexicon) {
    forall k :: 0 <= k < |es| ==> !Unmerges(es[k], lex)
  }

  lemma NoneCons(es: seq<Event>, lex: Lexicon)
    requires es != []
    ensures NoneUnmerges(es, lex) <==> !Unmerges(es[0], lex) && NoneUnmerges(es[1..], lex)
  {
    assert forall k :: 1 <= k < |es| ==> es[1..][k - 1] == es[k];
  }

  /** Content is never rewritten, so a row that does not read as its merge never will. */
  lemma StaysUnlayered(before: Store, after: Store)
    requires History(before, after)
    ensures AllLayered(after) ==> AllLayered(before)
  {
    forall i | i in before && AllLayered(after) ensures Layered(before[i]) {
      assert i in after && Keeps(before[i], after[i]);
    }
  }

  /** Every row q owns before is the same row after, and q owns no row it did not own before. */
  ghost predicate Undisturbed(before: Store, after: Store, q: Principal) {
    && (forall i :: i in before && before[i].principal == Some(q) ==> i in after && after[i] == before[i])
    && (forall i :: i in after && after[i].principal == Some(q) ==> i in before && before[i] == after[i])
  }

  lemma OthersUndisturbed(before: Store, after: Store, p: Principal, q: Principal)
    requires History(before, after) && Frame(before, after, p) && p != q && q != GLOBAL
    ensures Undisturbed(before, after, q)
  {
  }

  lemma UndisturbedTransitive(a: Store, b: Store, c: Store, q: Principal)
    requires Undisturbed(a, b, q) && Undisturbed(b, c, q)
    ensures Undisturbed(a, c, q)
  {
  }

  /** Tenant isolation over runs: passes of other tenants leave exactly the rows q owned, as they were. */
  lemma {:induction false} TenantsAreIsolated(s: State, es: seq<Event>, q: Principal, lex: Lexicon)
    requires Kept(s) && Valid(s, es, lex) && q != GLOBAL
    requires forall k :: 0 <= k < |es| ==> es[k].p != q
    ensures Undisturbed(s.rows, Run(s, es, lex).rows, q)
    decreases |es|
  {
    if es != [] {
      var t := Next(s, es[0], lex);
      StepKeeps(s, es[0], lex);
      OthersUndisturbed(s.rows, t.rows, es[0].p, q);
      assert forall k :: 0 <= k < |es[1..]| ==> es[1..][k] == es[k + 1];
      TenantsAreIsolated(t, es[1..], q, lex);
      UndisturbedTransitive(s.rows, t.rows, Run(t, es[1..], lex).rows, q);
    }
  }
}
