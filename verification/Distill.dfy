// distill.py: mining episodic events, whatever order or however often they were recorded.

module Distill {
  import opened Basics
  import opened Text
  import opened Ordering

  /** One recorded query outcome. A missing field is None. */
  datatype Event = Event(
    id: Option<string>,
    session: Option<string>,
    ts: Option<int>,
    statement: Option<string>,
    outcome: Option<string>,
    error: Option<string>)

  const SUCCESS := "success"

  datatype Identity =
    | ById(id: string)
    | ByFields(session: Option<string>, ts: Option<int>, statement: Option<string>)

  /** event.get("id") or (session, ts, statement) */
  function IdentityOf(e: Event): Identity {
    if e.id.GetOr("") != "" then ById(e.id.value) else ByFields(e.session, e.ts, e.statement)
  }

  predicate Succeeded(e: Event) {
    e.outcome == Some(SUCCESS)
  }

  function StatementOf(e: Event): string {
    e.statement.GetOr("")
  }

  function SessionOf(e: Event): string {
    e.session.GetOr("")
  }

  function ErrorOf(e: Event): string {
    e.error.GetOr("")
  }

  /** subjects_from_statement, which lists each subject once. */
  type Subjects = string -> seq<string>

  ghost predicate ListsOnce(subjects: Subjects) {
    forall statement :: Distinct(subjects(statement))
  }

  predicate About(subjects: Subjects, e: Event, subject: string) {
    subject in subjects(StatementOf(e))
  }

  // ---- dedupe_events -------------------------------------------------------------------------

  /** The first event of each identity, in order. */
  function Unique(events: seq<Event>): seq<Event> {
    if events == [] then []
    else
      var n := |events| - 1;
      if exists k :: 0 <= k < n && IdentityOf(events[k]) == IdentityOf(events[n]) then Unique(events[..n])
      else Unique(events[..n]) + [events[n]]
  }

  method DedupeEvents(events: seq<Event>) returns (unique: seq<Event>)
    ensures unique == Unique(events)
  {
    var seen: set<Identity> := {};
    unique := [];
    for n := 0 to |events|
      invariant unique == Unique(events[..n])
      invariant forall key :: key in seen <==> exists k :: 0 <= k < n && IdentityOf(events[k]) == key
    {
      assert events[..n + 1][..n] == events[..n];
      var key := IdentityOf(events[n]);
      if key in seen {
        continue;
      }
      seen := seen + {key};
      unique := unique + [events[n]];
    }
    assert events[..|events|] == events;
  }

  /** Two records with the same identity are the same record. */
  ghost predicate IdentityIsEvent(events: seq<Event>) {
    forall e, f :: e in events && f in events && IdentityOf(e) == IdentityOf(f) ==> e == f
  }

  /** Replays go, nothing else does. */
  lemma {:induction false} UniqueExact(events: seq<Event>)
    requires IdentityIsEvent(events)
    ensures Distinct(Unique(events))
    ensures forall e :: e in Unique(events) <==> e in events
  {
    if events != [] {
      var n := |events| - 1;
      assert events == events[..n] + [events[n]];
      UniqueExact(events[..n]);
      if events[n] in events[..n] {
        var k :| 0 <= k < n && events[k] == events[n];
        assert IdentityOf(events[k]) == IdentityOf(events[n]);
      }
      if k :| 0 <= k < n && IdentityOf(events[k]) == IdentityOf(events[n]) {
        assert events[k] in events && events[k] in events[..n] && events[k] == events[n];
      }
    }
  }

  // ---- proven_queries -------------------------------------------------------------------------

  datatype Proven = Proven(subject: string, note: string, sourceQuery: string)

  function ProvenNote(sessions: nat, statement: string): string {
    "Proven query, used successfully in " + Decimal(sessions) + " sessions: " + statement
  }

  /** The sessions in which this statement succeeded against this subject. */
  function SessionsFor(subjects: Subjects, events: seq<Event>, key: Pair): set<string> {
    set e | e in events && Succeeded(e) && StatementOf(e) == key.1 && About(subjects, e, key.0) :: SessionOf(e)
  }

  /** The output names exactly the pairs proven in enough sessions, in sorted order. */
  ghost predicate ProvenFrom(subjects: Subjects, events: seq<Event>, minSessions: int, out: seq<Proven>) {
    exists keys: seq<Pair> ::
      && SortedPairs(keys) && Distinct(keys)
      && (forall key :: key in keys <==> |SessionsFor(subjects, events, key)| >= minSessions && SessionsFor(subjects, events, key) != {})
      && out == ProvenRows(subjects, events, keys)
  }

  function ProvenRow(subjects: Subjects, events: seq<Event>, key: Pair): Proven {
    Proven(key.0, ProvenNote(|SessionsFor(subjects, events, key)|, key.1), key.1)
  }

  function ProvenRows(subjects: Subjects, events: seq<Event>, keys: seq<Pair>): seq<Proven> {
    seq(|keys|, i requires 0 <= i < |keys| => ProvenRow(subjects, events, keys[i]))
  }

  function At(sessionsByKey: map<Pair, set<string>>, key: Pair): set<string> {
    if key in sessionsByKey then sessionsByKey[key] else {}
  }

  /** for subject in subjects: sessions_by_key[(subject, statement)].add(session) */
  method AddSession(subs: seq<string>, statement: string, session: string, before: map<Pair, set<string>>)
    returns (after: map<Pair, set<string>>)
    ensures forall key :: key in after <==> key in before || (key.1 == statement && key.0 in subs)
    ensures forall key :: At(after, key) == At(before, key) + (if key.1 == statement && key.0 in subs then {session} else {})
  {
    after := before;
    for i := 0 to |subs|
      invariant forall key :: key in after <==> key in before || (key.1 == statement && key.0 in subs[..i])
      invariant forall key :: At(after, key) == At(before, key) + (if key.1 == statement && key.0 in subs[..i] then {session} else {})
    {
      assert subs[..i + 1] == subs[..i] + [subs[i]];
      var key := (subs[i], statement);
      after := after[key := At(after, key) + {session}];
    }
    assert subs[..|subs|] == subs;
  }

  lemma SessionsStep(subjects: Subjects, events: seq<Event>, n: nat, key: Pair)
    requires n < |events|
    ensures SessionsFor(subjects, events[..n + 1], key) == SessionsFor(subjects, events[..n], key) +
              (if Succeeded(events[n]) && StatementOf(events[n]) == key.1 && About(subjects, events[n], key.0)
               then {SessionOf(events[n])} else {})
  {
    assert events[..n + 1] == events[..n] + [events[n]];
  }

  method SessionsByKey(subjects: Subjects, events: seq<Event>) returns (sessionsByKey: map<Pair, set<string>>)
    ensures forall key :: key in sessionsByKey <==> SessionsFor(subjects, events, key) != {}
    ensures forall key :: At(sessionsByKey, key) == SessionsFor(subjects, events, key)
  {
    sessionsByKey := map[];
    for n := 0 to |events|
      invariant forall key :: key in sessionsByKey <==> SessionsFor(subjects, events[..n], key) != {}
      invariant forall key :: At(sessionsByKey, key) == SessionsFor(subjects, events[..n], key)
    {
      forall key { SessionsStep(subjects, events, n, key); }
      if !Succeeded(events[n]) {
        continue;
      }
      var statement := StatementOf(events[n]);
      sessionsByKey := AddSession(subjects(statement), statement, SessionOf(events[n]), sessionsByKey);
    }
    assert events[..|events|] == events;
  }

  lemma StaysSorted(sorted: seq<Pair>, i: nat, kept: seq<Pair>)
    requires i < |sorted| && SortedPairs(sorted) && Distinct(sorted) && SortedPairs(kept) && Distinct(kept)
    requires forall key :: key in kept ==> key in sorted[..i]
    ensures SortedPairs(kept + [sorted[i]]) && Distinct(kept + [sorted[i]])
  {
    forall k | 0 <= k < |kept| ensures PairBefore(kept[k], sorted[i]) && kept[k] != sorted[i] {
      assert kept[k] in sorted[..i];
    }
  }

  method ProvenQueries(subjects: Subjects, events: seq<Event>, minSessions: int) returns (distilled: seq<Proven>)
    ensures ProvenFrom(subjects, events, minSessions, distilled)
  {
    var sessionsByKey := SessionsByKey(subjects, events);
    var sorted := SortedKeys(sessionsByKey.Keys);
    distilled := [];
    ghost var kept: seq<Pair> := [];
    for i := 0 to |sorted|
      invariant SortedPairs(kept) && Distinct(kept)
      invariant forall key :: key in kept <==> key in sorted[..i] && |At(sessionsByKey, key)| >= minSessions
      invariant distilled == ProvenRows(subjects, events, kept)
    {
      assert sorted[..i + 1] == sorted[..i] + [sorted[i]];
      var key := sorted[i];
      var sessions := sessionsByKey[key];
      assert sessions == At(sessionsByKey, key) == SessionsFor(subjects, events, key);
      if |sessions| >= minSessions {
        StaysSorted(sorted, i, kept);
        distilled := distilled + [Proven(key.0, ProvenNote(|sessions|, key.1), key.1)];
        kept := kept + [key];
      }
    }
    assert sorted[..|sorted|] == sorted;
  }

  // ---- recurring_failures ----------------------------------------------------------------------

  datatype Caution = Caution(subject: string, note: string)

  function CautionNote(count: nat, error: string): string {
    "Caution: queries on this dataset failed " + Decimal(count) + " times with " + error + "."
  }

  predicate FailsFor(subjects: Subjects, e: Event, key: Pair) {
    !Succeeded(e) && ErrorOf(e) == key.1 && About(subjects, e, key.0)
  }

  /** How many of the events are failures of this subject with this error. */
  function Failures(subjects: Subjects, events: seq<Event>, key: Pair): nat {
    if events == [] then 0
    else
      var n := |events| - 1;
      Failures(subjects, events[..n], key) + (if FailsFor(subjects, events[n], key) then 1 else 0)
  }

  predicate Resolved(subjects: Subjects, events: seq<Event>, subject: string) {
    exists e :: e in events && Succeeded(e) && About(subjects, e, subject)
  }

  ghost predicate Reported(subjects: Subjects, events: seq<Event>, minFailures: int, key: Pair) {
    Failures(subjects, events, key) >= 1 && Failures(subjects, events, key) >= minFailures && !Resolved(subjects, events, key.0)
  }

  function CautionRows(subjects: Subjects, events: seq<Event>, keys: seq<Pair>): seq<Caution> {
    seq(|keys|, i requires 0 <= i < |keys| => Caution(keys[i].0, CautionNote(Failures(subjects, events, keys[i]), keys[i].1)))
  }

  ghost predicate CautionsFrom(subjects: Subjects, events: seq<Event>, minFailures: int, out: seq<Caution>) {
    exists keys: seq<Pair> ::
      && SortedPairs(keys) && Distinct(keys)
      && (forall key :: key in keys <==> Reported(subjects, events, minFailures, key))
      && out == CautionRows(subjects, events, keys)
  }

  function CountAt(failures: map<Pair, nat>, key: Pair): nat {
    if key in failures then failures[key] else 0
  }

  /** for subject in subjects: failures[(subject, error)] += 1 */
  method AddFailure(subs: seq<string>, error: string, before: map<Pair, nat>) returns (after: map<Pair, nat>)
    requires Distinct(subs)
    ensures forall key :: key in after <==> key in before || (key.1 == error && key.0 in subs)
    ensures forall key :: CountAt(after, key) == CountAt(before, key) + (if key.1 == error && key.0 in subs then 1 else 0)
  {
    after := before;
    for i := 0 to |subs|
      invariant forall key :: key in after <==> key in before || (key.1 == error && key.0 in subs[..i])
      invariant forall key :: CountAt(after, key) == CountAt(before, key) + (if key.1 == error && key.0 in subs[..i] then 1 else 0)
    {
      assert subs[..i + 1] == subs[..i] + [subs[i]] && subs[i] !in subs[..i];
      var key := (subs[i], error);
      after := after[key := CountAt(after, key) + 1];
    }
    assert subs[..|subs|] == subs;
  }

  method CountFailures(subjects: Subjects, events: seq<Event>) returns (failures: map<Pair, nat>, resolved: set<string>)
    requires ListsOnce(subjects)
    ensures forall key :: CountAt(failures, key) == Failures(subjects, events, key)
    ensures forall key :: key in failures <==> Failures(subjects, events, key) >= 1
    ensures forall subject :: subject in resolved <==> Resolved(subjects, events, subject)
  {
    failures, resolved := map[], {};
    for n := 0 to |events|
      invariant forall key :: CountAt(failures, key) == Failures(subjects, events[..n], key)
      invariant forall key :: key in failures <==> Failures(subjects, events[..n], key) >= 1
      invariant forall subject :: subject in resolved <==> Resolved(subjects, events[..n], subject)
    {
      assert events[..n + 1][..n] == events[..n] && events[..n + 1] == events[..n] + [events[n]];
      var subs := subjects(StatementOf(events[n]));
      if Succeeded(events[n]) {
        resolved := resolved + (set s | s in subs);
      } else {
        failures := AddFailure(subs, ErrorOf(events[n]), failures);
      }
    }
    assert events[..|events|] == events;
  }

  method RecurringFailures(subjects: Subjects, events: seq<Event>, minFailures: int) returns (distilled: seq<Caution>)
    requires ListsOnce(subjects)
    ensures CautionsFrom(subjects, events, minFailures, distilled)
  {
    var failures, resolved := CountFailures(subjects, events);
    var sorted := SortedKeys(failures.Keys);
    distilled := [];
    ghost var kept: seq<Pair> := [];
    for i := 0 to |sorted|
      invariant SortedPairs(kept) && Distinct(kept)
      invariant forall key :: key in kept <==> key in sorted[..i] && Reported(subjects, events, minFailures, key)
      invariant distilled == CautionRows(subjects, events, kept)
    {
      assert sorted[..i + 1] == sorted[..i] + [sorted[i]];
      var key := sorted[i];
      var count := failures[key];
      assert count == CountAt(failures, key) == Failures(subjects, events, key);
      if count >= minFailures && key.0 !in resolved {
        StaysSorted(sorted, i, kept);
        distilled := distilled + [Caution(key.0, CautionNote(count, key.1))];
        kept := kept + [key];
      }
    }
    assert sorted[..|sorted|] == sorted;
  }

  // ---- order and replay independence -------------------------------------------------------------

  lemma SessionsSame(subjects: Subjects, a: seq<Event>, b: seq<Event>, key: Pair)
    requires forall e :: e in a <==> e in b
    ensures SessionsFor(subjects, a, key) == SessionsFor(subjects, b, key)
  {
  }

  lemma {:induction false} FailuresAreSet(subjects: Subjects, events: seq<Event>, key: Pair)
    requires Distinct(events)
    ensures Failures(subjects, events, key) == |set e | e in events && FailsFor(subjects, e, key)|
  {
    if events != [] {
      var n := |events| - 1;
      FailuresAreSet(subjects, events[..n], key);
      assert events == events[..n] + [events[n]];
      assert events[n] !in events[..n];
      FailingSnoc(subjects, events[..n], events[n], key);
    }
  }

  lemma FailingSnoc(subjects: Subjects, front: seq<Event>, last: Event, key: Pair)
    requires last !in front
    ensures |set e | e in front + [last] && FailsFor(subjects, e, key)|
         == |set e | e in front && FailsFor(subjects, e, key)| + if FailsFor(subjects, last, key) then 1 else 0
  {
    var before := set e | e in front && FailsFor(subjects, e, key);
    assert (set e | e in front + [last] && FailsFor(subjects, e, key)) ==
           if FailsFor(subjects, last, key) then before + {last} else before;
  }

  lemma FailuresSame(subjects: Subjects, a: seq<Event>, b: seq<Event>, key: Pair)
    requires Distinct(a) && Distinct(b) && forall e :: e in a <==> e in b
    ensures Failures(subjects, a, key) == Failures(subjects, b, key)
  {
    FailuresAreSet(subjects, a, key);
    FailuresAreSet(subjects, b, key);
    assert (set e | e in a && FailsFor(subjects, e, key)) == (set e | e in b && FailsFor(subjects, e, key));
  }

  lemma ProvenSame(subjects: Subjects, a: seq<Event>, b: seq<Event>, minSessions: int, ra: seq<Proven>, rb: seq<Proven>)
    requires forall e :: e in a <==> e in b
    requires ProvenFrom(subjects, a, minSessions, ra) && ProvenFrom(subjects, b, minSessions, rb)
    ensures ra == rb
  {
    forall key { SessionsSame(subjects, a, b, key); }
    var ka: seq<Pair> :| SortedPairs(ka) && Distinct(ka) && ra == ProvenRows(subjects, a, ka)
      && forall key :: key in ka <==> |SessionsFor(subjects, a, key)| >= minSessions && SessionsFor(subjects, a, key) != {};
    var kb: seq<Pair> :| SortedPairs(kb) && Distinct(kb) && rb == ProvenRows(subjects, b, kb)
      && forall key :: key in kb <==> |SessionsFor(subjects, b, key)| >= minSessions && SessionsFor(subjects, b, key) != {};
    SortedUnique(ka, kb);
  }

  lemma CautionsSame(subjects: Subjects, a: seq<Event>, b: seq<Event>, minFailures: int, ra: seq<Caution>, rb: seq<Caution>)
    requires Distinct(a) && Distinct(b) && forall e :: e in a <==> e in b
    requires CautionsFrom(subjects, a, minFailures, ra) && CautionsFrom(subjects, b, minFailures, rb)
    ensures ra == rb
  {
    forall key { FailuresSame(subjects, a, b, key); }
    var ka: seq<Pair> :| SortedPairs(ka) && Distinct(ka) && ra == CautionRows(subjects, a, ka)
      && forall key :: key in ka <==> Reported(subjects, a, minFailures, key);
    var kb: seq<Pair> :| SortedPairs(kb) && Distinct(kb) && rb == CautionRows(subjects, b, kb)
      && forall key :: key in kb <==> Reported(subjects, b, minFailures, key);
    SortedUnique(ka, kb);
  }

  /**
   * Two logs of the same events, in any order and with any replays, distil to the same notes,
   * when an identity names one event.
   */
  lemma DistillationIsASetFunction(subjects: Subjects, log: seq<Event>, replayed: seq<Event>, minSessions: int, minFailures: int,
                                   proven: seq<Proven>, proven': seq<Proven>, cautions: seq<Caution>, cautions': seq<Caution>)
    requires IdentityIsEvent(log) && forall e :: e in log <==> e in replayed
    requires ProvenFrom(subjects, Unique(log), minSessions, proven) && ProvenFrom(subjects, Unique(replayed), minSessions, proven')
    requires CautionsFrom(subjects, Unique(log), minFailures, cautions) && CautionsFrom(subjects, Unique(replayed), minFailures, cautions')
    ensures proven == proven' && cautions == cautions'
  {
    UniqueExact(log);
    UniqueExact(replayed);
    ProvenSame(subjects, Unique(log), Unique(replayed), minSessions, proven, proven');
    CautionsSame(subjects, Unique(log), Unique(replayed), minFailures, cautions, cautions');
  }

  ghost predicate Earned(subjects: Subjects, events: seq<Event>, minFailures: int, c: Caution, error: string) {
    && Reported(subjects, events, minFailures, (c.subject, error))
    && c.note == CautionNote(Failures(subjects, events, (c.subject, error)), error)
  }

  /** Every caution is about a subject that never succeeded and failed that way often enough. */
  lemma CautionsAreEarned(subjects: Subjects, events: seq<Event>, minFailures: int, out: seq<Caution>, c: Caution)
    requires CautionsFrom(subjects, events, minFailures, out)
    ensures c in out <==> exists error :: Earned(subjects, events, minFailures, c, error)
  {
    var keys: seq<Pair> :| SortedPairs(keys) && Distinct(keys) && out == CautionRows(subjects, events, keys)
      && forall key :: key in keys <==> Reported(subjects, events, minFailures, key);
    if c in out {
      var i :| 0 <= i < |out| && out[i] == c;
      assert keys[i] in keys && keys[i] == (c.subject, keys[i].1);
      assert Earned(subjects, events, minFailures, c, keys[i].1);
    }
    if error :| Earned(subjects, events, minFailures, c, error) {
      var i :| 0 <= i < |keys| && keys[i] == (c.subject, error);
      assert out[i] == c;
    }
  }
}
