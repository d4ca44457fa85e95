// What distillation reports, in the fields of the events it read (distill.py).

module Distilled {
  import opened Basics
  import opened Text
  import opened Ordering
  import opened Distill

  /** Two records of one event: the same non-empty id, or no id and the same session, time and statement. */
  predicate SameEvent(e: Event, f: Event) {
    if e.id.GetOr("") != "" || f.id.GetOr("") != "" then e.id == f.id
    else e.session == f.session && e.ts == f.ts && e.statement == f.statement
  }

  lemma IdentityExact(e: Event, f: Event)
    ensures IdentityOf(e) == IdentityOf(f) <==> SameEvent(e, f)
  {
  }

  /** A success of this statement that concerns the subject. */
  predicate Proves(subjects: Subjects, e: Event, subject: string, statement: string) {
    e.outcome == Some("success") && e.statement.GetOr("") == statement && subject in subjects(statement)
  }

  /** The sessions that saw one. */
  function ProvingSessions(subjects: Subjects, events: seq<Event>, subject: string, statement: string): set<string> {
    set e | e in events && Proves(subjects, e, subject, statement) :: e.session.GetOr("")
  }

  lemma SessionsExact(subjects: Subjects, events: seq<Event>, subject: string, statement: string)
    ensures SessionsFor(subjects, events, (subject, statement)) == ProvingSessions(subjects, events, subject, statement)
  {
    forall e | e in events
      ensures Proves(subjects, e, subject, statement) <==>
        Succeeded(e) && StatementOf(e) == statement && About(subjects, e, subject)
    {
    }
  }

  /** The note of a statement proven in this many sessions. */
  ghost predicate ProvenText(note: string, sessions: nat, statement: string) {
    exists digits: string :: Numeral(digits, sessions) && note == "Proven query, used successfully in " + digits + " sessions: " + statement
  }

  /**
   * A statement is reported for a subject iff it succeeded on it in at least the asked number of
   * distinct sessions, and at all; the one note it gets carries their number.
   */
  lemma ProvenMeans(subjects: Subjects, events: seq<Event>, minSessions: int, out: seq<Proven>, row: Proven)
    requires ProvenFrom(subjects, events, minSessions, out)
    ensures row in out <==>
      var n := |ProvingSessions(subjects, events, row.subject, row.sourceQuery)|;
      n >= minSessions && n >= 1 && ProvenText(row.note, n, row.sourceQuery)
  {
    var keys: seq<Pair> :| SortedPairs(keys) && Distinct(keys) && out == ProvenRows(subjects, events, keys)
      && forall key :: key in keys <==> |SessionsFor(subjects, events, key)| >= minSessions && SessionsFor(subjects, events, key) != {};
    var key := (row.subject, row.sourceQuery);
    var n := |ProvingSessions(subjects, events, row.subject, row.sourceQuery)|;
    SessionsExact(subjects, events, row.subject, row.sourceQuery);
    ProvenNoteExact(row.note, n, row.sourceQuery);
    if row in out {
      var i :| 0 <= i < |out| && out[i] == row;
      assert keys[i] in keys && keys[i] == key;
    }
    if key in keys && row.note == ProvenNote(n, row.sourceQuery) {
      var i :| 0 <= i < |keys| && keys[i] == key;
      assert out[i] == row;
    }
  }

  lemma ProvenNoteExact(note: string, n: nat, statement: string)
    ensures note == ProvenNote(n, statement) <==> ProvenText(note, n, statement)
  {
    forall digits: string ensures Numeral(digits, n) <==> digits == Decimal(n) {
      DecimalExact(digits, n);
    }
  }

  /** An unsuccessful event with this error that concerns the subject. */
  predicate Fails(subjects: Subjects, e: Event, subject: string, error: string) {
    e.outcome != Some("success") && e.error.GetOr("") == error && subject in subjects(e.statement.GetOr(""))
  }

  /** Where in the log it happened. */
  ghost function FailurePlaces(subjects: Subjects, events: seq<Event>, subject: string, error: string): set<int> {
    set i | 0 <= i < |events| && Fails(subjects, events[i], subject, error)
  }

  lemma {:induction false} FailuresCount(subjects: Subjects, events: seq<Event>, subject: string, error: string)
    ensures Failures(subjects, events, (subject, error)) == |FailurePlaces(subjects, events, subject, error)|
  {
    if events != [] {
      var n := |events| - 1;
      FailuresCount(subjects, events[..n], subject, error);
      PlacesSnoc(subjects, events, subject, error);
    }
  }

  lemma PlacesSnoc(subjects: Subjects, events: seq<Event>, subject: string, error: string)
    requires events != []
    ensures var n := |events| - 1;
      |FailurePlaces(subjects, events, subject, error)|
      == |FailurePlaces(subjects, events[..n], subject, error)| + if Fails(subjects, events[n], subject, error) then 1 else 0
  {
    var n := |events| - 1;
    var front := FailurePlaces(subjects, events[..n], subject, error);
    assert FailurePlaces(subjects, events, subject, error) == if Fails(subjects, events[n], subject, error) then front + {n} else front;
  }

  /** The note of an error that happened this often. */
  ghost predicate CautionText(note: string, failures: nat, error: string) {
    exists digits: string :: Numeral(digits, failures)
      && note == "Caution: queries on this dataset failed " + digits + " times with " + error + "."
  }

  lemma CautionNoteExact(note: string, n: nat, error: string)
    ensures note == CautionNote(n, error) <==> CautionText(note, n, error)
  {
    forall digits: string ensures Numeral(digits, n) <==> digits == Decimal(n) {
      DecimalExact(digits, n);
    }
  }

  /** Often enough, at all, and the subject never succeeded with any statement. */
  ghost predicate Recurs(subjects: Subjects, events: seq<Event>, minFailures: int, subject: string, error: string) {
    && |FailurePlaces(subjects, events, subject, error)| >= minFailures
    && |FailurePlaces(subjects, events, subject, error)| >= 1
    && forall e :: e in events && subject in subjects(e.statement.GetOr("")) ==> e.outcome != Some("success")
  }

  /** The caution about this error of its subject. */
  ghost predicate Reports(subjects: Subjects, events: seq<Event>, minFailures: int, c: Caution, error: string) {
    && Recurs(subjects, events, minFailures, c.subject, error)
    && CautionText(c.note, |FailurePlaces(subjects, events, c.subject, error)|, error)
  }

  /** A caution is reported iff some error of its subject recurs, and its note carries how often. */
  lemma CautionMeans(subjects: Subjects, events: seq<Event>, minFailures: int, out: seq<Caution>, c: Caution)
    requires CautionsFrom(subjects, events, minFailures, out)
    ensures c in out <==> exists error :: Reports(subjects, events, minFailures, c, error)
  {
    CautionsAreEarned(subjects, events, minFailures, out, c);
    forall error ensures Earned(subjects, events, minFailures, c, error) <==> Reports(subjects, events, minFailures, c, error) {
      EarnedExact(subjects, events, minFailures, c, error);
    }
  }

  lemma EarnedExact(subjects: Subjects, events: seq<Event>, minFailures: int, c: Caution, error: string)
    ensures Earned(subjects, events, minFailures, c, error) <==> Reports(subjects, events, minFailures, c, error)
  {
    FailuresCount(subjects, events, c.subject, error);
    CautionNoteExact(c.note, Failures(subjects, events, (c.subject, error)), error);
  }
}
