// audit_log.py: a lazily pruned map that stands for the whole recording history.

module AuditLog {
  import opened Basics

  /** The fields of AuditEntry that routing a follow-up call needs. */
  datatype AuditEntry = AuditEntry(
    clientContextId: string,
    session: string,
    submittedAt: real,
    handle: Option<string>,
    resultHandle: Option<string>,
    outcome: Option<string>)

  const OUTCOME_ERROR := "ERROR"

  /** A clock that never goes back; last is its latest reading. */
  class Clock {
    var last: real

    constructor () {
      last := 0.0;
    }

    method Read() returns (t: real)
      modifies this
      ensures t == last && last >= old(last)
    {
      var d: real := *;
      if d > 0.0 {
        last := last + d;
      }
      t := last;
    }

    /** Resumes no earlier than asked. */
    method Sleep(duration: real)
      modifies this
      ensures last >= old(last) + duration
    {
      var d: real := *;
      last := last + duration + if d > 0.0 then d else 0.0;
    }
  }

  // ---- the history -----------------------------------------------------------------------------

  datatype Entry = Recorded(entry: AuditEntry) | Forgotten(key: string)

  function KeyOf(e: Entry): string {
    match e
    case Recorded(entry) => entry.clientContextId
    case Forgotten(key) => key
  }

  /** The last entry recorded for the key and not forgotten since. */
  function Known(history: seq<Entry>, key: string): Option<AuditEntry> {
    if history == [] then None
    else
      var last := history[|history| - 1];
      if KeyOf(last) != key then Known(history[..|history| - 1], key)
      else if last.Recorded? then Some(last.entry) else None
  }

  /** Entry i recorded it, and nothing later concerns the key. */
  ghost predicate RecordedLast(history: seq<Entry>, key: string, i: nat) {
    && i < |history| && history[i].Recorded? && KeyOf(history[i]) == key
    && forall j :: i < j < |history| ==> KeyOf(history[j]) != key
  }

  lemma {:induction false} KnownExact(history: seq<Entry>, key: string)
    ensures Known(history, key).Some? <==> exists i: nat :: RecordedLast(history, key, i)
    ensures forall i: nat :: RecordedLast(history, key, i) ==> Known(history, key) == Some(history[i].entry)
  {
    if history != [] {
      var n := |history| - 1;
      var front := history[..n];
      KnownExact(front, key);
      if KeyOf(history[n]) != key {
        forall i: nat ensures RecordedLast(front, key, i) <==> RecordedLast(history, key, i) {
          if RecordedLast(front, key, i) {
            assert history[i] == front[i] && forall j :: i < j < n ==> KeyOf(history[j]) == KeyOf(front[j]);
          }
        }
      } else {
        assert history[n].Recorded? ==> RecordedLast(history, key, n);
      }
    }
  }

  lemma KnownKey(history: seq<Entry>, key: string)
    ensures Known(history, key).Some? ==> Known(history, key).value.clientContextId == key
  {
    KnownExact(history, key);
    if i: nat :| RecordedLast(history, key, i) {
      assert Known(history, key) == Some(history[i].entry);
    }
  }

  lemma KnownSnoc(history: seq<Entry>, e: Entry, key: string)
    ensures Known(history + [e], key) ==
            if KeyOf(e) != key then Known(history, key) else if e.Recorded? then Some(e.entry) else None
  {
    assert (history + [e])[..|history|] == history;
  }

  predicate Expired(entry: AuditEntry, now: real, ttl: real) {
    now - entry.submittedAt >= ttl
  }

  /** What a lookup promises: the history's answer, while it is within its time to live. */
  function Live(history: seq<Entry>, key: string, now: real, ttl: real): Option<AuditEntry> {
    match Known(history, key)
    case None => None
    case Some(entry) => if Expired(entry, now, ttl) then None else Some(entry)
  }

  /** An entry is answered from its recording on until its time to live has passed, to the instant. */
  lemma LiveExact(history: seq<Entry>, key: string, now: real, ttl: real, entry: AuditEntry)
    ensures Live(history, key, now, ttl) == Some(entry) <==> Known(history, key) == Some(entry) && now < entry.submittedAt + ttl
  {
  }

  /** The map agrees with the history, except that expired entries may be gone already. */
  ghost predicate Stands(entries: map<string, AuditEntry>, history: seq<Entry>, now: real, ttl: real) {
    && (forall k :: k in entries ==> Known(history, k) == Some(entries[k]))
    && (forall k :: k !in entries ==> Live(history, k, now, ttl) == None)
  }

  /** Time passing keeps it. */
  lemma LaterStands(entries: map<string, AuditEntry>, history: seq<Entry>, now: real, later: real, ttl: real)
    requires Stands(entries, history, now, ttl) && now <= later
    ensures Stands(entries, history, later, ttl)
  {
    forall k | k !in entries ensures Live(history, k, later, ttl) == None {
      assert Live(history, k, now, ttl) == None;
    }
  }

  /** So does dropping an entry that has expired. */
  lemma DropStands(entries: map<string, AuditEntry>, history: seq<Entry>, now: real, ttl: real, key: string)
    requires Stands(entries, history, now, ttl) && key in entries && Expired(entries[key], now, ttl)
    ensures Stands(entries - {key}, history, now, ttl)
  {
  }

  lemma RecordStands(entries: map<string, AuditEntry>, history: seq<Entry>, now: real, ttl: real, entry: AuditEntry)
    requires Stands(entries, history, now, ttl)
    ensures Stands(entries[entry.clientContextId := entry], history + [Recorded(entry)], now, ttl)
  {
    forall k { KnownSnoc(history, Recorded(entry), k); }
  }

  lemma ForgetStands(entries: map<string, AuditEntry>, history: seq<Entry>, now: real, ttl: real, key: string)
    requires Stands(entries, history, now, ttl)
    ensures Stands(entries - {key}, history + [Forgotten(key)], now, ttl)
  {
    forall k { KnownSnoc(history, Forgotten(key), k); }
  }

  /** The pruned map answers every lookup as the history does. */
  lemma StandsAnswers(entries: map<string, AuditEntry>, history: seq<Entry>, now: real, ttl: real, key: string)
    requires Stands(entries, history, now, ttl)
    ensures Live(history, key, now, ttl) == if key in entries && !Expired(entries[key], now, ttl) then Some(entries[key]) else None
  {
  }

  // ---- the log -----------------------------------------------------------------------------------

  class AuditLog {
    const ttl: real
    const clock: Clock
    var entries: map<string, AuditEntry>
    ghost var history: seq<Entry>

    ghost predicate Valid()
      reads this, clock
    {
      Stands(entries, history, clock.last, ttl)
    }

    constructor (ttl: real, clock: Clock)
      ensures this.ttl == ttl && this.clock == clock && Valid() && history == []
    {
      this.ttl, this.clock := ttl, clock;
      entries, history := map[], [];
    }

    /** __init__: the time to live must be positive. */
    static method Create(ttl: real, clock: Clock) returns (log: Result<AuditLog>)
      ensures log.Err? <==> ttl <= 0.0
      ensures log.Err? ==> log.error == BadValue
      ensures log.Ok? ==> fresh(log.value) && log.value.Valid() && log.value.history == []
      ensures log.Ok? ==> log.value.ttl == ttl && log.value.clock == clock
    {
      if ttl <= 0.0 {
        return Err(BadValue);
      }
      var l := new AuditLog(ttl, clock);
      log := Ok(l);
    }

    /** now */
    method Now() returns (t: real)
      requires Valid()
      modifies clock
      ensures Valid() && clock.last >= old(clock.last) && t == clock.last
    {
      t := clock.Read();
      LaterStands(entries, history, old(clock.last), clock.last, ttl);
    }

    /** _is_expired: every question reads the clock. */
    method IsExpired(entry: AuditEntry) returns (expired: bool)
      requires Valid()
      modifies clock
      ensures Valid() && clock.last >= old(clock.last)
      ensures expired <==> Expired(entry, clock.last, ttl)
    {
      var now := clock.Read();
      LaterStands(entries, history, old(clock.last), clock.last, ttl);
      expired := now - entry.submittedAt >= ttl;
    }

    /** _prune: collect the expired keys, then delete them. */
    method Prune()
      requires Valid()
      modifies this`entries, clock
      ensures Valid() && clock.last >= old(clock.last)
      ensures forall k :: k in entries ==> k in old(entries) && !Expired(entries[k], old(clock.last), ttl)
    {
      var expired: set<string> := {};
      var todo := entries.Keys;
      while todo != {}
        invariant todo <= entries.Keys && expired <= entries.Keys && Valid() && clock.last >= old(clock.last)
        invariant entries == old(entries)
        invariant forall k :: k in expired ==> Expired(entries[k], clock.last, ttl)
        invariant forall k :: k in entries && k !in todo && k !in expired ==> !Expired(entries[k], old(clock.last), ttl)
        decreases todo
      {
        var k :| k in todo;
        var gone := IsExpired(entries[k]);
        if gone {
          expired := expired + {k};
        }
        todo := todo - {k};
      }
      while expired != {}
        invariant expired <= entries.Keys && Valid() && clock.last >= old(clock.last)
        invariant forall k :: k in entries ==> k in old(entries) && entries[k] == old(entries)[k]
        invariant forall k :: k in expired ==> Expired(entries[k], clock.last, ttl)
        invariant forall k :: k in entries && k !in expired ==> !Expired(entries[k], old(clock.last), ttl)
        decreases expired
      {
        var k :| k in expired;
        DropStands(entries, history, clock.last, ttl, k);
        entries := entries - {k};
        expired := expired - {k};
      }
    }

    /** record */
    method Record(entry: AuditEntry)
      requires Valid()
      modifies this, clock
      ensures Valid() && clock.last >= old(clock.last)
      ensures history == old(history) + [Recorded(entry)]
    {
      Prune();
      RecordStands(entries, history, clock.last, ttl, entry);
      entries := entries[entry.clientContextId := entry];
      history := history + [Recorded(entry)];
    }

    /** get: the history's live answer, whatever was pruned before. */
    method Get(clientContextId: string) returns (entry: Option<AuditEntry>)
      requires Valid()
      modifies this`entries, clock
      ensures Valid() && clock.last >= old(clock.last)
      ensures entry == Live(history, clientContextId, clock.last, ttl)
    {
      if clientContextId !in entries {
        return None;
      }
      var found := entries[clientContextId];
      var gone := IsExpired(found);
      if gone {
        DropStands(entries, history, clock.last, ttl, clientContextId);
        entries := entries - {clientContextId};
        return None;
      }
      entry := Some(found);
    }

    /** forget */
    method Forget(clientContextId: string)
      requires Valid()
      modifies this`entries, this`history
      ensures Valid() && history == old(history) + [Forgotten(clientContextId)]
    {
      ForgetStands(entries, history, clock.last, ttl, clientContextId);
      entries := entries - {clientContextId};
      history := history + [Forgotten(clientContextId)];
    }

    /**
     * recent: newest submission first, at most limit. Nothing that had expired before the call
     * is listed, and what is left out was expired by its end, is filtered, or is no newer than
     * anything listed.
     */
    method Recent(limit: int, failuresOnly: bool) returns (listed: seq<AuditEntry>)
      requires Valid()
      modifies this`entries, clock
      ensures Valid() && clock.last >= old(clock.last)
      ensures |listed| <= (if limit < 0 then 0 else limit)
      ensures NewestFirst(listed) && Distinct(listed)
      ensures forall e :: e in listed ==> Wanted(e, failuresOnly) && Live(history, e.clientContextId, old(clock.last), ttl) == Some(e)
      ensures forall k :: Live(history, k, clock.last, ttl).Some? && Wanted(Live(history, k, clock.last, ttl).value, failuresOnly) ==>
                Shown(Live(history, k, clock.last, ttl).value, listed, limit)
    {
      Prune();
      forall k | k in entries ensures entries[k].clientContextId == k {
        KnownKey(history, k);
      }
      var all := Values(entries);
      var wanted := SortNewest(all, failuresOnly);
      listed := wanted[..if limit < 0 then 0 else if limit < |wanted| then limit else |wanted|];
      forall e | e in listed ensures Wanted(e, failuresOnly) && Live(history, e.clientContextId, old(clock.last), ttl) == Some(e) {
        assert e in wanted;
        var k :| k in entries && entries[k] == e;
      }
      forall k | Live(history, k, clock.last, ttl).Some? && Wanted(Live(history, k, clock.last, ttl).value, failuresOnly)
        ensures Shown(Live(history, k, clock.last, ttl).value, listed, limit)
      {
        StandsAnswers(entries, history, clock.last, ttl, k);
        assert entries[k] in wanted;
      }
    }

    /** __len__: the live entries, after pruning. */
    method Len() returns (n: nat)
      requires Valid()
      modifies this`entries, clock
      ensures Valid() && clock.last >= old(clock.last) && n == |entries|
      ensures forall k :: Live(history, k, clock.last, ttl).Some? ==> k in entries
      ensures forall k :: k in entries ==> Live(history, k, old(clock.last), ttl) == Some(entries[k])
    {
      Prune();
      n := |entries|;
    }
  }

  ghost predicate NewestFirst(es: seq<AuditEntry>) {
    forall i, j :: 0 <= i < j < |es| ==> es[i].submittedAt >= es[j].submittedAt
  }

  predicate Wanted(e: AuditEntry, failuresOnly: bool) {
    failuresOnly ==> e.outcome == Some(OUTCOME_ERROR)
  }

  /** With failures only, exactly the entries whose outcome is an error are listed. */
  lemma WantedExact(e: AuditEntry)
    ensures Wanted(e, false) && (Wanted(e, true) <==> e.outcome.Some? && e.outcome.value == "ERROR")
  {
  }

  /** Listed, or cut off by a full listing of entries at least as new. */
  ghost predicate Shown(e: AuditEntry, listed: seq<AuditEntry>, limit: int) {
    e in listed || (|listed| >= limit && forall l :: l in listed ==> l.submittedAt >= e.submittedAt)
  }

  method Values(entries: map<string, AuditEntry>) returns (all: seq<AuditEntry>)
    requires forall k :: k in entries ==> entries[k].clientContextId == k
    ensures Distinct(all)
    ensures forall e :: e in all <==> exists k :: k in entries && entries[k] == e
  {
    all := [];
    var todo := entries.Keys;
    while todo != {}
      invariant todo <= entries.Keys && Distinct(all)
      invariant forall e :: e in all <==> exists k :: k in entries && k !in todo && entries[k] == e
      decreases todo
    {
      var k :| k in todo;
      assert entries[k] !in all by {
        assert forall other :: other in entries && entries[other] == entries[k] ==> other == k by {
          assert entries[k].clientContextId == k;
        }
      }
      all := all + [entries[k]];
      todo := todo - {k};
    }
  }

  /** Where an entry goes in a newest-first list: after those at least as new. */
  function NewestRank(es: seq<AuditEntry>, e: AuditEntry): (k: nat)
    ensures k <= |es|
    ensures forall i :: 0 <= i < k ==> es[i].submittedAt >= e.submittedAt
    ensures k < |es| ==> es[k].submittedAt < e.submittedAt
  {
    if es == [] || es[0].submittedAt < e.submittedAt then 0 else 1 + NewestRank(es[1..], e)
  }

  lemma PlaceNewest(es: seq<AuditEntry>, e: AuditEntry)
    requires NewestFirst(es) && Distinct(es) && e !in es
    ensures var k := NewestRank(es, e); var placed := es[..k] + [e] + es[k..];
      NewestFirst(placed) && Distinct(placed) && forall x :: x in placed <==> x in es || x == e
  {
    var k := NewestRank(es, e);
    StillDistinct(es, k, e);
    StillNewest(es, e);
    Placed(es, k, e);
  }

  lemma StillNewest(es: seq<AuditEntry>, e: AuditEntry)
    requires NewestFirst(es)
    ensures var k := NewestRank(es, e); NewestFirst(es[..k] + [e] + es[k..])
  {
  }

  lemma Placed(es: seq<AuditEntry>, k: nat, e: AuditEntry)
    requires k <= |es|
    ensures forall x :: x in es[..k] + [e] + es[k..] <==> x in es || x == e
  {
    assert es == es[..k] + es[k..];
  }

  /** The filter and the sort of recent. */
  method SortNewest(all: seq<AuditEntry>, failuresOnly: bool) returns (wanted: seq<AuditEntry>)
    requires Distinct(all)
    ensures NewestFirst(wanted) && Distinct(wanted)
    ensures forall e :: e in wanted <==> e in all && Wanted(e, failuresOnly)
  {
    wanted := [];
    for n := 0 to |all|
      invariant NewestFirst(wanted) && Distinct(wanted)
      invariant forall e :: e in wanted <==> e in all[..n] && Wanted(e, failuresOnly)
    {
      assert all[..n + 1] == all[..n] + [all[n]];
      if Wanted(all[n], failuresOnly) {
        var k := NewestRank(wanted, all[n]);
        assert all[n] !in all[..n];
        PlaceNewest(wanted, all[n]);
        wanted := wanted[..k] + [all[n]] + wanted[k..];
      }
    }
    assert all[..|all|] == all;
  }
}
