// tools/memory_capture.py: pairing a failed statement with the working form that follows it.

module Capture {
  import opened Basics
  import opened Text

  datatype PendingFailure = PendingFailure(error: string, statement: string)

  /** One query outcome as record sees it. */
  datatype Outcome = Outcome(statement: string, error: Option<string>)

  type Subjects = string -> seq<string>

  type Pending = map<string, PendingFailure>

  /** _fix_note, with _trim as a parameter. */
  function FixNote(trim: string -> string, pending: PendingFailure, statement: string): string {
    "A query on this dataset failed (" + pending.error + "): " + trim(pending.statement) + " | working form: " + trim(statement)
  }

  /** The two statements differ in more than surrounding whitespace. */
  predicate Reworked(before: string, after: string) {
    Strip(before, IsSpace) != Strip(after, IsSpace)
  }

  /** self._failures[subject] = pending, for each subject. */
  function Marked(failures: Pending, subs: seq<string>, pending: PendingFailure): Pending {
    map s | s in failures.Keys + (set x | x in subs) :: if s in subs then pending else failures[s]
  }

  /** self._failures.pop(subject, None), for each subject. */
  function Cleared(failures: Pending, subs: seq<string>): Pending {
    failures - (set s | s in subs)
  }

  lemma MarkedSnoc(failures: Pending, subs: seq<string>, n: nat, pending: PendingFailure)
    requires n < |subs|
    ensures Marked(failures, subs[..n + 1], pending) == Marked(failures, subs[..n], pending)[subs[n] := pending]
  {
    assert subs[..n + 1] == subs[..n] + [subs[n]];
  }

  lemma ClearedSnoc(failures: Pending, subs: seq<string>, n: nat)
    requires n < |subs| && Distinct(subs)
    ensures Cleared(failures, subs[..n + 1]) == Cleared(failures, subs[..n]) - {subs[n]}
    ensures subs[n] in Cleared(failures, subs[..n]) <==> subs[n] in failures
  {
    assert subs[..n + 1] == subs[..n] + [subs[n]];
  }

  /** self._failures after one outcome. */
  function After(subjects: Subjects, failures: Pending, o: Outcome): Pending {
    match o.error
    case Some(error) => Marked(failures, subjects(o.statement), PendingFailure(error, o.statement))
    case None => Cleared(failures, subjects(o.statement))
  }

  /** The notes one success makes, subject by subject. */
  function Captured(trim: string -> string, failures: Pending, subs: seq<string>, statement: string): seq<(string, string)> {
    if subs == [] then []
    else
      var n := |subs| - 1;
      var front := Captured(trim, failures, subs[..n], statement);
      if subs[n] in failures && Reworked(failures[subs[n]].statement, statement) then
        front + [(subs[n], FixNote(trim, failures[subs[n]], statement))]
      else front
  }

  lemma CapturedSnoc(trim: string -> string, failures: Pending, subs: seq<string>, n: nat, statement: string)
    requires n < |subs|
    ensures Captured(trim, failures, subs[..n + 1], statement) == Captured(trim, failures, subs[..n], statement)
      + (if subs[n] in failures && Reworked(failures[subs[n]].statement, statement) then
           [(subs[n], FixNote(trim, failures[subs[n]], statement))]
         else [])
  {
    assert subs[..n + 1][..n] == subs[..n];
  }

  function Notes(subjects: Subjects, trim: string -> string, failures: Pending, o: Outcome): seq<(string, string)> {
    if o.error.Some? then [] else Captured(trim, failures, subjects(o.statement), o.statement)
  }

  class CaptureState {
    var failures: Pending

    constructor ()
      ensures failures == map[]
    {
      failures := map[];
    }

    /** record, for a subjects_from_statement that lists each subject once. */
    method Record(subjects: Subjects, trim: string -> string, statement: string, resultError: Option<string>)
      returns (captured: seq<(string, string)>)
      requires Distinct(subjects(statement))
      modifies this
      ensures failures == After(subjects, old(failures), Outcome(statement, resultError))
      ensures captured == Notes(subjects, trim, old(failures), Outcome(statement, resultError))
    {
      var subs := subjects(statement);
      captured := [];
      if resultError.Some? {
        var pending := PendingFailure(resultError.value, statement);
        for n := 0 to |subs|
          invariant failures == Marked(old(failures), subs[..n], pending)
        {
          MarkedSnoc(old(failures), subs, n, pending);
          failures := failures[subs[n] := pending];
        }
        assert subs[..|subs|] == subs;
        return;
      }
      for n := 0 to |subs|
        invariant failures == Cleared(old(failures), subs[..n])
        invariant captured == Captured(trim, old(failures), subs[..n], statement)
      {
        ClearedSnoc(old(failures), subs, n);
        CapturedSnoc(trim, old(failures), subs, n, statement);
        var subject := subs[n];
        var pending := if subject in failures then Some(failures[subject]) else None;
        failures := failures - {subject};
        if pending.Some? && Reworked(pending.value.statement, statement) {
          captured := captured + [(subject, FixNote(trim, pending.value, statement))];
        }
      }
      assert subs[..|subs|] == subs;
    }
  }

  // ---- the history it stands for ------------------------------------------------------------------

  predicate Touches(subjects: Subjects, o: Outcome, subject: string) {
    subject in subjects(o.statement)
  }

  /** Outcome i is the latest one touching the subject, and it failed. */
  ghost predicate PendingAt(subjects: Subjects, history: seq<Outcome>, subject: string, i: nat) {
    && i < |history| && Touches(subjects, history[i], subject) && history[i].error.Some?
    && forall j :: i < j < |history| ==> !Touches(subjects, history[j], subject)
  }

  function FailureOf(o: Outcome): PendingFailure
    requires o.error.Some?
  {
    PendingFailure(o.error.value, o.statement)
  }

  function Replayed(subjects: Subjects, history: seq<Outcome>): Pending {
    if history == [] then map[]
    else After(subjects, Replayed(subjects, history[..|history| - 1]), history[|history| - 1])
  }

  /** What is remembered for a subject is exactly the latest outcome touching it, when that failed. */
  lemma {:induction false} PendingExact(subjects: Subjects, history: seq<Outcome>, subject: string)
    ensures subject in Replayed(subjects, history) <==> exists i: nat :: PendingAt(subjects, history, subject, i)
    ensures forall i: nat :: PendingAt(subjects, history, subject, i) ==>
              subject in Replayed(subjects, history) && Replayed(subjects, history)[subject] == FailureOf(history[i])
  {
    if history != [] {
      var n := |history| - 1;
      var front := history[..n];
      PendingExact(subjects, front, subject);
      PendingStep(subjects, history, subject);
      if Touches(subjects, history[n], subject) {
        assert history[n].error.Some? ==> PendingAt(subjects, history, subject, n);
      } else {
        assert subject in Replayed(subjects, history) <==> subject in Replayed(subjects, front);
      }
    }
  }

  lemma PendingStep(subjects: Subjects, history: seq<Outcome>, subject: string)
    requires history != []
    ensures var n := |history| - 1;
            && (Touches(subjects, history[n], subject) ==>
                  forall i: nat :: PendingAt(subjects, history, subject, i) <==> i == n && history[n].error.Some?)
            && (!Touches(subjects, history[n], subject) ==>
                  forall i: nat :: PendingAt(subjects, history, subject, i) <==> PendingAt(subjects, history[..n], subject, i))
  {
    var n := |history| - 1;
    if !Touches(subjects, history[n], subject) {
      forall i: nat ensures PendingAt(subjects, history, subject, i) <==> PendingAt(subjects, history[..n], subject, i) {
        if PendingAt(subjects, history[..n], subject, i) {
          forall j | i < j < |history| ensures !Touches(subjects, history[j], subject) {
            assert j < n ==> history[j] == history[..n][j];
          }
        }
      }
    }
  }

  /** Outcome k is the success that took up failure i of this subject. */
  ghost predicate Paired(subjects: Subjects, history: seq<Outcome>, subject: string, i: nat, k: nat) {
    && k < |history| && history[k].error.None? && Touches(subjects, history[k], subject)
    && PendingAt(subjects, history[..k], subject, i)
  }

  lemma {:induction false} CapturedExact(trim: string -> string, failures: Pending, subs: seq<string>, statement: string,
                                         subject: string, note: string)
    ensures (subject, note) in Captured(trim, failures, subs, statement) <==>
      (&& subject in subs && subject in failures
       && Reworked(failures[subject].statement, statement)
       && note == FixNote(trim, failures[subject], statement))
  {
    if subs != [] {
      var n := |subs| - 1;
      assert subs == subs[..n] + [subs[n]];
      CapturedExact(trim, failures, subs[..n], statement, subject, note);
    }
  }

  /** The note of that pair names error, failed and working form; a form that only differs in outer blanks makes none. */
  predicate NoteOf(trim: string -> string, failed: Outcome, working: Outcome, note: string) {
    && failed.error.Some? && Strip(failed.statement, IsSpace) != Strip(working.statement, IsSpace)
    && note == "A query on this dataset failed (" + failed.error.value + "): " + trim(failed.statement)
               + " | working form: " + trim(working.statement)
  }

  /** A note comes out of outcome k iff k takes up the subject's latest failure with a reworked statement. */
  lemma NotesExact(subjects: Subjects, trim: string -> string, history: seq<Outcome>, k: nat, subject: string, note: string)
    requires k < |history|
    ensures (subject, note) in Notes(subjects, trim, Replayed(subjects, history[..k]), history[k]) <==>
      exists i: nat :: Paired(subjects, history, subject, i, k) && NoteOf(trim, history[i], history[k], note)
  {
    var front := history[..k];
    var failures := Replayed(subjects, front);
    PendingExact(subjects, front, subject);
    CapturedExact(trim, failures, subjects(history[k].statement), history[k].statement, subject, note);
    if (subject, note) in Notes(subjects, trim, failures, history[k]) {
      var i: nat :| PendingAt(subjects, front, subject, i);
      assert front[i] == history[i];
      assert Paired(subjects, history, subject, i, k);
    }
    if i: nat :| Paired(subjects, history, subject, i, k) && NoteOf(trim, history[i], history[k], note) {
      assert front[i] == history[i];
    }
  }

  /** Whatever touches the subject before a pairing comes no later than the failure paired. */
  lemma NothingBetween(subjects: Subjects, history: seq<Outcome>, subject: string, i: nat, j: nat, k: nat)
    requires j < |history|
    ensures Paired(subjects, history, subject, i, k) && j < k && Touches(subjects, history[j], subject) ==> j <= i
    ensures Paired(subjects, history, subject, i, k) ==> i < k && history[i].error.Some?
  {
    if Paired(subjects, history, subject, i, k) {
      assert history[..k][i] == history[i];
      assert j < k ==> history[..k][j] == history[j];
    }
  }

  /** A failure is spent by its first working form: it is never paired twice for one subject. */
  lemma PairedOnce(subjects: Subjects, history: seq<Outcome>, subject: string, i: nat, k: nat, k': nat)
    requires Paired(subjects, history, subject, i, k) && Paired(subjects, history, subject, i, k')
    ensures k == k'
  {
    NothingBetween(subjects, history, subject, i, k, k');
    NothingBetween(subjects, history, subject, i, k', k);
  }

  /** A success clears its subjects: what a later success pairs with failed after it. */
  lemma SuccessClears(subjects: Subjects, history: seq<Outcome>, subject: string, i: nat, k: nat, later: nat)
    requires k < later < |history| && history[k].error.None? && Touches(subjects, history[k], subject)
    requires Paired(subjects, history, subject, i, later)
    ensures k < i
  {
    NothingBetween(subjects, history, subject, i, k, later);
  }
}
