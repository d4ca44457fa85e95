// tools/async_query.py: submit, wait, fetch and cancel, over the audit log and in any interleaving.

module AsyncLifecycle {
  import opened Basics
  import opened AuditLog
  import opened ContextId
  import opened Permits
  import opened PlanPolicy

  const SUCCESS := "success"
  const OUTCOME_SUBMITTED := "SUBMITTED"

  /** What a status poll answers. */
  datatype Reply = Reply(status: Option<string>, handle: Option<string>)

  function LowerChar(c: char): char {
    if 'A' <= c <= 'Z' then (c as int + 32) as char else c
  }

  function Lower(s: string): string {
    seq(|s|, i requires 0 <= i < |s| => LowerChar(s[i]))
  }

  function StatusOf(reply: Reply): string {
    Lower(reply.status.GetOr(""))
  }

  predicate Terminal(status: string) {
    status in {"success", "failed", "fatal", "timeout"}
  }

  /** A status that ends a query without success, as an error class. */
  function FailureType(status: string): ErrorType {
    if status == "timeout" then Timeout else Internal
  }

  /** What a terminal poll makes the log record: only a success that carries a result handle. */
  function TerminalEntry(entry: AuditEntry, reply: Reply): Option<AuditEntry> {
    if StatusOf(reply) == SUCCESS && reply.handle.Some? then Some(entry.(resultHandle := reply.handle)) else None
  }

  function AfterReply(history: seq<Entry>, entry: AuditEntry, reply: Reply): seq<Entry> {
    match TerminalEntry(entry, reply)
    case None => history
    case Some(e) => history + [Recorded(e)]
  }

  /** _clamp_timeout */
  function ClampTimeout(requestedMs: Option<int>, ceilingMs: int): (ms: int)
    requires ceilingMs >= 0
    ensures 0 <= ms <= ceilingMs
    ensures requestedMs.Some? && 0 <= requestedMs.value <= ceilingMs ==> ms == requestedMs.value
    ensures requestedMs.Some? && requestedMs.value < 0 ==> ms == 0
    ensures requestedMs.None? || requestedMs.value > ceilingMs ==> ms == ceilingMs
  {
    match requestedMs
    case None => ceilingMs
    case Some(r) => if r < 0 then 0 else if r < ceilingMs then r else ceilingMs
  }

  // ---- one call at a time -----------------------------------------------------------------------

  datatype Contact =
    | AskedCompile(statement: string, id: string, compiled: Result<Envelope>)
    | AskedSubmit(statement: string, id: string, reply: Result<Reply>)
    | PolledStatus(handle: string, reply: Result<Reply>)
    | FetchedResult(handle: string, rows: Result<seq<string>>)
    | AskedCancel(id: string, cancelled: Result<bool>)

  /** The cluster may answer anything; contacts is everything it was asked. */
  class Cluster {
    ghost var contacts: seq<Contact>

    constructor ()
      ensures contacts == []
    {
      contacts := [];
    }

    method CompileQuery(statement: string, id: string) returns (compiled: Result<Envelope>)
      modifies this
      ensures contacts == old(contacts) + [AskedCompile(statement, id, compiled)]
    {
      compiled := *;
      contacts := contacts + [AskedCompile(statement, id, compiled)];
    }

    method SubmitAsync(statement: string, id: string) returns (reply: Result<Reply>)
      modifies this
      ensures contacts == old(contacts) + [AskedSubmit(statement, id, reply)]
    {
      reply := *;
      contacts := contacts + [AskedSubmit(statement, id, reply)];
    }

    method PollStatus(handle: string) returns (reply: Result<Reply>)
      modifies this
      ensures contacts == old(contacts) + [PolledStatus(handle, reply)]
    {
      reply := *;
      contacts := contacts + [PolledStatus(handle, reply)];
    }

    method FetchResult(handle: string) returns (rows: Result<seq<string>>)
      modifies this
      ensures contacts == old(contacts) + [FetchedResult(handle, rows)]
    {
      rows := *;
      contacts := contacts + [FetchedResult(handle, rows)];
    }

    method Cancel(id: string) returns (cancelled: Result<bool>)
      modifies this
      ensures contacts == old(contacts) + [AskedCancel(id, cancelled)]
    {
      cancelled := *;
      contacts := contacts + [AskedCancel(id, cancelled)];
    }
  }

  /** The plan check lets a compiled statement through. */
  ghost predicate Cleared(allowlist: Allowlist, principal: Option<string>, compiled: Result<Envelope>, dataverse: Option<string>) {
    compiled.Ok? && Passes(allowlist, principal, compiled.value, dataverse)
  }

  /** Why a submission is not sent: it does not compile, its plan is not authorized, or no permit is free. */
  ghost predicate Unsent(allowlist: Allowlist, principal: Option<string>, compiled: Result<Envelope>, dataverse: Option<string>,
                         why: ErrorType)
  {
    match compiled
    case Err(e) => why == e
    case Ok(_) => why == if Cleared(allowlist, principal, compiled, dataverse) then NotReady else Forbidden
  }

  /**
   * run_submit_async_query from its compile call on: the text is sent iff its compiled plan is
   * authorized and a permit is free, and exactly what was sent and accepted is recorded.
   */
  method SubmitText(me: string, cluster: Cluster, audit: AuditLog, pool: PermitPool, allowlist: Allowlist, principal: Option<string>,
                    text: string, dataverse: Option<string>, id: string)
    returns (r: Result<string>, ghost compiled: Result<Envelope>, ghost sent: Option<Result<Reply>>, ghost entry: AuditEntry)
    requires audit.Valid() && forall p :: p in pool.held ==> pool.held[p] >= 1
    modifies cluster, audit, audit.clock, pool
    ensures audit.Valid() && pool.Value() == old(pool.Value())
    ensures cluster.contacts == old(cluster.contacts) + Sent(text, id, compiled, sent)
    ensures sent.Some? <==> Cleared(allowlist, principal, compiled, dataverse)
                            && !Refuses(old(pool.Value()), pool.capacity, pool.perPrincipal, Who(principal))
    ensures sent.None? ==> r.Err? && Unsent(allowlist, principal, compiled, dataverse, r.error)
    ensures sent.Some? ==> r == (match sent.value { case Ok(_) => Ok(id) case Err(e) => Err(e) })
    ensures audit.history == old(audit.history) + (if r.Ok? then [Recorded(entry)] else [])
    ensures r.Ok? ==> FreshEntry(entry, id, me, sent.value.value.handle, old(audit.clock.last), audit.clock.last)
  {
    compiled, sent, entry := Err(Internal), None, AuditEntry("", "", 0.0, None, None, None);
    var envelope := cluster.CompileQuery(text, id);
    compiled := envelope;
    if envelope.Err? {
      return Err(envelope.error), compiled, sent, entry;
    }
    var denied := CheckCompiledPlan(allowlist, principal, envelope.value, dataverse);
    if denied.Some? {
      return Err(denied.value), compiled, sent, entry;
    }
    var taken := pool.Take(Who(principal));
    if taken.Err? {
      return Err(taken.error), compiled, sent, entry;
    }
    var reply := cluster.SubmitAsync(text, id);
    sent := Some(reply);
    TakeGive(old(pool.Value()), Who(principal));
    pool.GiveBack(Who(principal));
    if reply.Err? {
      return Err(reply.error), compiled, sent, entry;
    }
    var now := audit.Now();
    var submitted := AuditEntry(id, me, now, reply.value.handle, None, Some(OUTCOME_SUBMITTED));
    audit.Record(submitted);
    entry := submitted;
    r := Ok(id);
  }

  /** The entry of an accepted submission: the handle it was given, no result yet, and a time within the call. */
  predicate FreshEntry(entry: AuditEntry, id: string, me: string, handle: Option<string>, before: real, now: real) {
    && entry == AuditEntry(id, me, entry.submittedAt, handle, None, Some("SUBMITTED"))
    && before <= entry.submittedAt <= now
  }

  function Sent(text: string, id: string, compiled: Result<Envelope>, sent: Option<Result<Reply>>): seq<Contact> {
    [AskedCompile(text, id, compiled)] + if sent.Some? then [AskedSubmit(text, id, sent.value)] else []
  }

  datatype WaitResult = Done | StillRunning(queryStatus: string)

  /** A poll that lets the wait go on. */
  ghost predicate KeepsWaiting(c: Contact, handle: string) {
    c.PolledStatus? && c.handle == handle && c.reply.Ok? && !Terminal(StatusOf(c.reply.value))
  }

  /** What the last poll of a wait makes of it. */
  function Outcome(reply: Result<Reply>): Result<WaitResult> {
    match reply
    case Err(e) => Err(e)
    case Ok(r) =>
      var status := StatusOf(r);
      if status == SUCCESS then Ok(Done)
      else if Terminal(status) then Err(FailureType(status))
      else Ok(StillRunning(if status == "" then "running" else status))
  }

  /** The reply reports this status, whatever the case of its letters. */
  predicate Reports(reply: Reply, status: string) {
    var said := reply.status.GetOr("");
    |said| == |status| && forall i :: 0 <= i < |said| ==> said[i] == status[i] || ('A' <= said[i] <= 'Z' && said[i] as int + 32 == status[i] as int)
  }

  /** A status poll that ends no wait: it was answered, by none of the four final statuses. */
  predicate Undecided(reply: Result<Reply>) {
    && reply.Ok? && !Reports(reply.value, "success") && !Reports(reply.value, "failed") && !Reports(reply.value, "fatal")
    && !Reports(reply.value, "timeout")
  }

  /** What a wait answers to its last poll, status by status. */
  predicate Decides(last: Result<Reply>, result: Result<WaitResult>) {
    && (last.Err? ==> result == Err(last.error))
    && (last.Ok? && Reports(last.value, "success") ==> result == Ok(Done))
    && (last.Ok? && Reports(last.value, "timeout") ==> result == Err(Timeout))
    && (last.Ok? && (Reports(last.value, "failed") || Reports(last.value, "fatal")) ==> result == Err(Internal))
    && (result.Ok? && result.value.StillRunning? <==> Undecided(last))
    && (Undecided(last) ==> Tells(result.value.queryStatus, last.value.status.GetOr("")))
  }

  /** A query that goes on is told by its status in small letters, or as running when it has none. */
  predicate Tells(told: string, said: string) {
    if said == "" then told == "running"
    else
      |told| == |said| && forall i :: 0 <= i < |said| ==>
        if 'A' <= said[i] <= 'Z' then told[i] as int == said[i] as int + 32 else told[i] == said[i]
  }

  lemma StatusTells(reply: Reply)
    ensures Tells(if StatusOf(reply) == "" then "running" else StatusOf(reply), reply.status.GetOr(""))
  {
    var said := reply.status.GetOr("");
    assert |StatusOf(reply)| == |said|;
    assert forall i :: 0 <= i < |said| ==> StatusOf(reply)[i] == LowerChar(said[i]);
  }

  /** A wait ends at its first final status, and answers it. */
  predicate Answered(replies: seq<Result<Reply>>, result: Result<WaitResult>) {
    && replies != [] && Decides(replies[|replies| - 1], result)
    && forall i :: 0 <= i < |replies| - 1 ==> Undecided(replies[i])
  }

  /** What a wait leaves in the log: the entry with its result handle iff the last poll is a success that carries one. */
  predicate Remembers(before: seq<Entry>, after: seq<Entry>, entry: AuditEntry, last: Result<Reply>) {
    if last.Ok? && Reports(last.value, "success") && last.value.handle.Some? then
      after == before + [Recorded(entry.(resultHandle := last.value.handle))]
    else after == before
  }

  lemma ReplyRemembers(history: seq<Entry>, entry: AuditEntry, last: Result<Reply>)
    ensures Remembers(history, if last.Ok? then AfterReply(history, entry, last.value) else history, entry, last)
  {
    if last.Ok? {
      ReportsExact(last.value, "success");
    }
  }

  lemma ReportsExact(reply: Reply, status: string)
    requires forall i :: 0 <= i < |status| ==> 'a' <= status[i] <= 'z'
    ensures Reports(reply, status) <==> StatusOf(reply) == status
  {
    var said := reply.status.GetOr("");
    if Reports(reply, status) {
      assert forall i :: 0 <= i < |said| ==> LowerChar(said[i]) == status[i];
    }
  }

  lemma OutcomeDecides(last: Result<Reply>)
    ensures Decides(last, Outcome(last))
    ensures last.Ok? ==> (Undecided(last) <==> !Terminal(StatusOf(last.value)))
  {
    if last.Ok? {
      StatusTells(last.value);
      ReportsExact(last.value, "success");
      ReportsExact(last.value, "failed");
      ReportsExact(last.value, "fatal");
      ReportsExact(last.value, "timeout");
    }
  }

  /**
   * _poll_until_terminal, with readings and interval in milliseconds: only the entry's own handle
   * is polled, every poll but the last found the query running, the last one decides, and the log
   * changes only by the result handle of a success.
   */
  method PollUntilTerminal(cluster: Cluster, audit: AuditLog, clock: Clock, entry: AuditEntry, handle: string, deadline: real, interval: real)
    returns (result: Result<WaitResult>, ghost replies: seq<Result<Reply>>)
    requires audit.Valid() && clock != audit.clock && interval >= 1.0
    modifies cluster, audit, audit.clock, clock
    ensures audit.Valid()
    ensures |replies| >= 1 && result == Outcome(replies[|replies| - 1]) && Answered(replies, result)
    ensures cluster.contacts == old(cluster.contacts) + Polls(handle, replies)
    ensures forall i :: 0 <= i < |replies| - 1 ==> KeepsWaiting(PolledStatus(handle, replies[i]), handle)
    ensures var last := replies[|replies| - 1];
            audit.history == (if last.Ok? then AfterReply(old(audit.history), entry, last.value) else old(audit.history))
            && Remembers(old(audit.history), audit.history, entry, last)
    ensures result.Ok? && result.value.StillRunning? ==> clock.last >= deadline
  {
    replies := [];
    while true
      invariant audit.Valid() && audit.history == old(audit.history)
      invariant cluster.contacts == old(cluster.contacts) + Polls(handle, replies)
      invariant forall i :: 0 <= i < |replies| ==> KeepsWaiting(PolledStatus(handle, replies[i]), handle) && Undecided(replies[i])
      decreases deadline - clock.last
    {
      var reply := cluster.PollStatus(handle);
      replies := replies + [reply];
      OutcomeDecides(reply);
      ReplyRemembers(audit.history, entry, reply);
      if reply.Err? {
        return Err(reply.error), replies;
      }
      var status := StatusOf(reply.value);
      if Terminal(status) {
        result := TerminalResult(audit, entry, reply.value);
        return;
      }
      var now := clock.Read();
      if now >= deadline {
        return Ok(StillRunning(if status == "" then "running" else status)), replies;
      }
      clock.Sleep(interval);
    }
  }

  function Polls(handle: string, replies: seq<Result<Reply>>): seq<Contact> {
    seq(|replies|, i requires 0 <= i < |replies| => PolledStatus(handle, replies[i]))
  }

  /** _terminal_result */
  method TerminalResult(audit: AuditLog, entry: AuditEntry, reply: Reply) returns (result: Result<WaitResult>)
    requires audit.Valid() && Terminal(StatusOf(reply))
    modifies audit, audit.clock
    ensures audit.Valid() && audit.history == AfterReply(old(audit.history), entry, reply)
    ensures result == Outcome(Ok(reply))
  {
    var status := StatusOf(reply);
    if status == SUCCESS {
      if reply.handle.Some? {
        audit.Record(entry.(resultHandle := reply.handle));
      }
      return Ok(Done);
    }
    result := Err(FailureType(status));
  }

  /** Why a wait does not poll: a foreign id, no live submission with a handle, or no permit. */
  ghost predicate WaitRefused(me: string, id: string, entry: Option<AuditEntry>, full: bool, why: ErrorType) {
    if CheckOwnership(me, id).Some? then why == Forbidden
    else if entry.None? || entry.value.handle.None? then why == NotFound
    else full && why == NotReady
  }

  /** run_wait_on_async_query: the permit taken for the wait is given back however it ends. */
  method RunWait(me: string, cluster: Cluster, audit: AuditLog, waits: PermitPool, clock: Clock, principal: Option<string>,
                 id: string, timeoutMs: Option<int>, maxWaitMs: int, intervalMs: int)
    returns (result: Result<WaitResult>, ghost replies: seq<Result<Reply>>)
    requires audit.Valid() && clock != audit.clock && maxWaitMs >= 1 && intervalMs >= 1
    requires forall p :: p in waits.held ==> waits.held[p] >= 1
    modifies cluster, audit, audit.clock, clock, waits
    ensures audit.Valid() && waits.Value() == old(waits.Value())
    ensures replies == [] ==>
      && cluster.contacts == old(cluster.contacts) && audit.history == old(audit.history)
      && result.Err? && WaitRefused(me, id, Live(audit.history, id, audit.clock.last, audit.ttl),
                                    Refuses(old(waits.Value()), waits.capacity, waits.perPrincipal, Who(principal)), result.error)
    ensures forall i :: 0 <= i < |replies| - 1 ==> replies[i].Ok? && !Terminal(StatusOf(replies[i].value))
    ensures replies != [] ==> Answered(replies, result)
    ensures replies != [] ==>
      (&& CheckOwnership(me, id).None? && Known(old(audit.history), id).Some? && Known(old(audit.history), id).value.handle.Some?
       && Waited(Known(old(audit.history), id).value, old(audit.history), audit.history, replies, result)
       && cluster.contacts == old(cluster.contacts) + Polls(Known(old(audit.history), id).value.handle.value, replies))
  {
    replies := [];
    var owned := CheckOwnership(me, id);
    if owned.Some? {
      return Err(owned.value), [];
    }
    var entry := audit.Get(id);
    if entry.None? || entry.value.handle.None? {
      return Err(NotFound), [];
    }
    var budget := ClampTimeout(timeoutMs, maxWaitMs);
    var start := clock.Read();
    var deadline := start + budget as real;
    var who := Who(principal);
    var taken := waits.Take(who);
    if taken.Err? {
      return Err(taken.error), [];
    }
    result, replies := PollUntilTerminal(cluster, audit, clock, entry.value, entry.value.handle.value, deadline, intervalMs as real);
    TakeGive(old(waits.Value()), who);
    waits.GiveBack(who);
  }

  /** A wait's polls, its result and what it left in the log. */
  ghost predicate Waited(entry: AuditEntry, before: seq<Entry>, after: seq<Entry>, replies: seq<Result<Reply>>, result: Result<WaitResult>)
    requires replies != []
  {
    var last := replies[|replies| - 1];
    && result == Outcome(last) && Remembers(before, after, entry, last)
    && after == if last.Ok? then AfterReply(before, entry, last.value) else before
  }

  /** Why a fetch stops before the cluster. */
  function FetchRefusal(me: string, id: string, entry: Option<AuditEntry>): ErrorType {
    if CheckOwnership(me, id).Some? then Forbidden else if entry.None? then NotFound else NotReady
  }

  /** run_fetch_query_result: the cluster is asked only for the recorded result handle of a live, owned submission. */
  method RunFetch(me: string, cluster: Cluster, audit: AuditLog, id: string) returns (rows: Result<seq<string>>)
    requires audit.Valid()
    modifies cluster, audit, audit.clock
    ensures audit.Valid() && audit.history == old(audit.history)
    ensures var entry := Live(audit.history, id, audit.clock.last, audit.ttl);
            if CheckOwnership(me, id).None? && entry.Some? && entry.value.resultHandle.Some? then
              cluster.contacts == old(cluster.contacts) + [FetchedResult(entry.value.resultHandle.value, rows)]
            else
              cluster.contacts == old(cluster.contacts) && rows == Err(FetchRefusal(me, id, entry))
  {
    var owned := CheckOwnership(me, id);
    if owned.Some? {
      return Err(owned.value);
    }
    var entry := audit.Get(id);
    if entry.None? {
      return Err(NotFound);
    }
    if entry.value.resultHandle.None? {
      return Err(NotReady);
    }
    rows := cluster.FetchResult(entry.value.resultHandle.value);
  }

  /** run_cancel_query: the submission is forgotten iff the cluster cancelled it or no longer knows it. */
  method RunCancel(me: string, cluster: Cluster, audit: AuditLog, id: string) returns (cancelled: Result<bool>)
    requires audit.Valid()
    modifies cluster, audit
    ensures audit.Valid()
    ensures CheckOwnership(me, id).Some? ==>
      cancelled == Err(Forbidden) && audit.history == old(audit.history) && cluster.contacts == old(cluster.contacts)
    ensures CheckOwnership(me, id).None? ==>
      (&& cluster.contacts == old(cluster.contacts) + [AskedCancel(id, cancelled)]
       && audit.history == if cancelled.Ok? || cancelled.error == NotFound then old(audit.history) + [Forgotten(id)] else old(audit.history))
  {
    var owned := CheckOwnership(me, id);
    if owned.Some? {
      return Err(owned.value);
    }
    cancelled := cluster.Cancel(id);
    if cancelled.Err? {
      if cancelled.error == NotFound {
        audit.Forget(id);
      }
      return;
    }
    audit.Forget(id);
  }

  // ---- interleaved calls --------------------------------------------------------------------------

  /** One step of some call; the calls of a session interleave between their awaits. */
  datatype Event =
    | Submitted(entry: AuditEntry)
    | WaitStarted(wait: nat, id: string)
    | Polled(wait: nat, reply: Reply)
    | WaitEnded(wait: nat)
    | Fetched(id: string)
    | Forgot(id: string)

  /** The ids _check_ownership lets through. */
  type Ids = string -> bool

  function OwnedBy(me: string): Ids {
    id => CheckOwnership(me, id).None?
  }

  /** waits holds, for each wait in flight, the entry it captured when it started. */
  datatype State = State(history: seq<Entry>, waits: map<nat, AuditEntry>, ids: set<string>)

  const Start := State([], map[], {})

  /** Submission ids are fresh, and a lookup answers what the log knows (an expired entry makes no call possible). */
  predicate Possible(mine: Ids, s: State, e: Event) {
    match e
    case Submitted(entry) => entry.clientContextId !in s.ids && entry.resultHandle.None?
    case WaitStarted(wait, id) =>
      && wait !in s.waits && mine(id)
      && Known(s.history, id).Some? && Known(s.history, id).value.handle.Some?
    case Polled(wait, _) => wait in s.waits
    case WaitEnded(wait) => wait in s.waits
    case Fetched(id) => mine(id) && Known(s.history, id).Some? && Known(s.history, id).value.resultHandle.Some?
    case Forgot(id) => mine(id)
  }

  function Next(s: State, e: Event): State {
    match e
    case Submitted(entry) => s.(history := s.history + [Recorded(entry)], ids := s.ids + {entry.clientContextId})
    case WaitStarted(wait, id) =>
      if Known(s.history, id).Some? then s.(waits := s.waits[wait := Known(s.history, id).value]) else s
    case Polled(wait, reply) =>
      if wait in s.waits && Terminal(StatusOf(reply)) then
        State(AfterReply(s.history, s.waits[wait], reply), s.waits - {wait}, s.ids)
      else s
    case WaitEnded(wait) => s.(waits := s.waits - {wait})
    case Fetched(_) => s
    case Forgot(id) => s.(history := s.history + [Forgotten(id)])
  }

  function After(run: seq<Event>): State {
    if run == [] then Start else Next(After(run[..|run| - 1]), run[|run| - 1])
  }

  ghost predicate PossibleRun(mine: Ids, run: seq<Event>) {
    run == [] || (PossibleRun(mine, run[..|run| - 1]) && Possible(mine, After(run[..|run| - 1]), run[|run| - 1]))
  }

  /** Event k submitted what e describes: same id, status handle, session and time. */
  ghost predicate SubmittedAt(run: seq<Event>, e: AuditEntry, k: nat) {
    k < |run| && run[k].Submitted? && run[k].entry == e.(resultHandle := None)
  }

  /** Event j is a poll of that submission's own status handle that reported success with this result handle. */
  ghost predicate EarnedAt(run: seq<Event>, e: AuditEntry, j: nat) {
    && j < |run| && run[j].Polled?
    && run[j].wait in After(run[..j]).waits
    && After(run[..j]).waits[run[j].wait].(resultHandle := None) == e.(resultHandle := None)
    && StatusOf(run[j].reply) == SUCCESS && run[j].reply.handle == e.resultHandle
  }

  /** Where an entry comes from. */
  ghost predicate Grounded(run: seq<Event>, e: AuditEntry) {
    && (exists k: nat :: SubmittedAt(run, e, k))
    && (e.resultHandle.Some? ==> exists j: nat :: EarnedAt(run, e, j))
  }

  lemma StaysGrounded(run: seq<Event>, next: Event, e: AuditEntry)
    requires Grounded(run, e)
    ensures Grounded(run + [next], e)
  {
    var k: nat :| SubmittedAt(run, e, k);
    assert SubmittedAt(run + [next], e, k);
    if e.resultHandle.Some? {
      var j: nat :| EarnedAt(run, e, j);
      assert (run + [next])[..j] == run[..j];
      assert EarnedAt(run + [next], e, j);
    }
  }

  /** Everything the log knows or a wait carries. */
  ghost predicate AllGrounded(run: seq<Event>) {
    && (forall id :: Known(After(run).history, id).Some? ==> Grounded(run, Known(After(run).history, id).value))
    && (forall wait :: wait in After(run).waits ==> Grounded(run, After(run).waits[wait]))
  }

  lemma NextOf(run: seq<Event>, next: Event)
    ensures After(run + [next]) == Next(After(run), next)
    ensures forall j :: 0 <= j <= |run| ==> (run + [next])[..j] == run[..j]
  {
    assert (run + [next])[..|run|] == run;
  }

  lemma PollGrounds(run: seq<Event>, wait: nat, reply: Reply)
    requires wait in After(run).waits && Grounded(run, After(run).waits[wait])
    requires StatusOf(reply) == SUCCESS && reply.handle.Some?
    ensures Grounded(run + [Polled(wait, reply)], After(run).waits[wait].(resultHandle := reply.handle))
  {
    var e := After(run).waits[wait];
    var next := Polled(wait, reply);
    NextOf(run, next);
    var k: nat :| SubmittedAt(run, e, k);
    assert SubmittedAt(run + [next], e.(resultHandle := reply.handle), k);
    assert (run + [next])[..|run|] == run;
    assert EarnedAt(run + [next], e.(resultHandle := reply.handle), |run|);
  }

  lemma GroundedNext(mine: Ids, run: seq<Event>, next: Event)
    requires AllGrounded(run) && Possible(mine, After(run), next)
    ensures AllGrounded(run + [next])
  {
    NextOf(run, next);
    var s := After(run);
    var t := After(run + [next]);
    forall id | Known(t.history, id).Some? ensures Grounded(run + [next], Known(t.history, id).value) {
      KnownNext(mine, run, next, id);
    }
    forall wait | wait in t.waits ensures Grounded(run + [next], t.waits[wait]) {
      if wait in s.waits && t.waits[wait] == s.waits[wait] {
        StaysGrounded(run, next, s.waits[wait]);
      } else {
        StaysGrounded(run, next, Known(s.history, next.id).value);
      }
    }
  }

  lemma KnownNext(mine: Ids, run: seq<Event>, next: Event, id: string)
    requires AllGrounded(run) && Possible(mine, After(run), next)
    requires Known(Next(After(run), next).history, id).Some?
    ensures Grounded(run + [next], Known(Next(After(run), next).history, id).value)
  {
    var s := After(run);
    var known := Known(Next(s, next).history, id);
    if known == Known(s.history, id) {
      StaysGrounded(run, next, known.value);
    } else {
      match next {
        case Submitted(entry) =>
          KnownSnoc(s.history, Recorded(entry), id);
          assert SubmittedAt(run + [next], entry, |run|);
        case Polled(wait, reply) =>
          KnownSnoc(s.history, Recorded(s.waits[wait].(resultHandle := reply.handle)), id);
          PollGrounds(run, wait, reply);
        case Forgot(gone) =>
          KnownSnoc(s.history, Forgotten(gone), id);
        case _ =>
      }
    }
  }

  lemma {:induction false} RunGrounded(mine: Ids, run: seq<Event>)
    requires PossibleRun(mine, run)
    ensures AllGrounded(run)
  {
    if run != [] {
      var front := run[..|run| - 1];
      RunGrounded(mine, front);
      GroundedNext(mine, front, run[|run| - 1]);
      Snoc(run);
    }
  }

  lemma Snoc(run: seq<Event>)
    requires run != []
    ensures run == run[..|run| - 1] + [run[|run| - 1]]
  {
  }

  lemma {:induction false} Prefix(mine: Ids, run: seq<Event>, i: nat)
    requires PossibleRun(mine, run) && i <= |run|
    ensures PossibleRun(mine, run[..i])
    ensures i < |run| ==> Possible(mine, After(run[..i]), run[i])
    decreases |run|
  {
    if i < |run| {
      var front := run[..|run| - 1];
      if i < |run| - 1 {
        Prefix(mine, front, i);
        assert front[..i] == run[..i] && front[i] == run[i];
      }
    } else {
      assert run[..i] == run;
    }
  }

  /**
   * Over every interleaving: what a fetch asks the cluster for is the result handle that a
   * successful terminal poll of that very submission's status handle returned earlier, and a
   * poll asks only for the status handle its own submission was given.
   */
  lemma FetchIsSafe(mine: Ids, run: seq<Event>, i: nat)
    requires PossibleRun(mine, run) && i < |run|
    ensures run[i].Fetched? ==> Known(After(run[..i]).history, run[i].id).Some?
    ensures run[i].Fetched? ==>
      var e := Known(After(run[..i]).history, run[i].id).value;
      && e.clientContextId == run[i].id && e.resultHandle.Some?
      && (exists k: nat :: k < i && SubmittedAt(run, e, k))
      && (exists j: nat :: j < i && EarnedAt(run, e, j))
    ensures run[i].Polled? ==> run[i].wait in After(run[..i]).waits
    ensures run[i].Polled? ==> exists k: nat :: k < i && SubmittedAt(run, After(run[..i]).waits[run[i].wait], k)
  {
    var front := run[..i];
    Prefix(mine, run, i);
    RunGrounded(mine, front);
    if run[i].Fetched? {
      var e := Known(After(front).history, run[i].id).value;
      KnownKey(After(front).history, run[i].id);
      GroundedBefore(run, i, e);
    }
    if run[i].Polled? {
      GroundedBefore(run, i, After(front).waits[run[i].wait]);
    }
  }

  /** What was grounded before event i is grounded by events before i. */
  lemma GroundedBefore(run: seq<Event>, i: nat, e: AuditEntry)
    requires i <= |run| && Grounded(run[..i], e)
    ensures exists k: nat :: k < i && SubmittedAt(run, e, k)
    ensures e.resultHandle.Some? ==> exists j: nat :: j < i && EarnedAt(run, e, j)
  {
    var front := run[..i];
    var k: nat :| SubmittedAt(front, e, k);
    assert SubmittedAt(run, e, k);
    if e.resultHandle.Some? {
      var j: nat :| EarnedAt(front, e, j);
      assert run[..j] == front[..j];
      assert EarnedAt(run, e, j);
    }
  }

  /** A submission id is submitted once, so "that submission" is one event. */
  lemma {:induction false} OneSubmission(mine: Ids, run: seq<Event>, j: nat, k: nat)
    requires PossibleRun(mine, run) && j < k < |run| && run[j].Submitted? && run[k].Submitted?
    ensures run[j].entry.clientContextId != run[k].entry.clientContextId
  {
    Prefix(mine, run, k);
    SubmittedIds(mine, run[..k], j);
  }

  lemma {:induction false} SubmittedIds(mine: Ids, run: seq<Event>, j: nat)
    requires j < |run| && run[j].Submitted?
    ensures run[j].entry.clientContextId in After(run).ids
  {
    if j < |run| - 1 {
      SubmittedIds(mine, run[..|run| - 1], j);
    }
  }

  /**
   * An id with three segments (every made id has them: ParseMake) reaches the cluster through this
   * session only if its first one is this session's.
   */
  lemma ForeignIdsStay(me: string, s: State, id: string, session: string)
    ensures Parse(id).Ok? && Parse(id).value.0 == session ==>
      && (Possible(OwnedBy(me), s, Forgot(id)) <==> session == SessionSegment(me))
      && (Possible(OwnedBy(me), s, Fetched(id)) ==> session == SessionSegment(me))
      && forall wait :: Possible(OwnedBy(me), s, WaitStarted(wait, id)) ==> session == SessionSegment(me)
  {
    OnlyMine(OwnedBy(me), s, id);
    if Parse(id).Ok? && Parse(id).value.0 == session {
      OwnershipOf(me, id, session);
    }
  }

  lemma OnlyMine(mine: Ids, s: State, id: string)
    ensures Possible(mine, s, Forgot(id)) <==> mine(id)
    ensures Possible(mine, s, Fetched(id)) ==> mine(id)
    ensures forall wait :: Possible(mine, s, WaitStarted(wait, id)) ==> mine(id)
  {
  }

  // ---- one wait as a run ------------------------------------------------------------------------------

  /** The events of a wait that got these replies: its polls, and its end unless a terminal poll was it. */
  function PollEvents(wait: nat, replies: seq<Result<Reply>>): seq<Event> {
    if replies == [] then [WaitEnded(wait)]
    else if replies[0].Err? then [WaitEnded(wait)]
    else if Terminal(StatusOf(replies[0].value)) then [Polled(wait, replies[0].value)]
    else [Polled(wait, replies[0].value)] + PollEvents(wait, replies[1..])
  }

  lemma ConsRun(mine: Ids, s: State, e: Event, run: seq<Event>)
    ensures PossibleFrom(mine, s, [e] + run) <==> Possible(mine, s, e) && PossibleFrom(mine, Next(s, e), run)
    ensures From(s, [e] + run) == From(Next(s, e), run)
  {
    assert ([e] + run)[1..] == run;
  }

  lemma {:induction false} PollsAreARun(mine: Ids, s: State, wait: nat, entry: AuditEntry, replies: seq<Result<Reply>>)
    requires replies != [] && wait in s.waits && s.waits[wait] == entry
    requires forall i :: 0 <= i < |replies| - 1 ==> replies[i].Ok? && !Terminal(StatusOf(replies[i].value))
    ensures var last := replies[|replies| - 1];
      && PossibleFrom(mine, s, PollEvents(wait, replies))
      && From(s, PollEvents(wait, replies))
         == State(if last.Ok? then AfterReply(s.history, entry, last.value) else s.history, s.waits - {wait}, s.ids)
  {
    if replies[0].Err? {
      OneStep(mine, s, WaitEnded(wait));
    } else {
      var e := Polled(wait, replies[0].value);
      if Terminal(StatusOf(replies[0].value)) {
        OneStep(mine, s, e);
      } else if |replies| == 1 {
        OneStep(mine, s, WaitEnded(wait));
        ConsRun(mine, s, e, [WaitEnded(wait)]);
        OnlySuccessRecords(s.history, entry, replies[0].value);
        assert PollEvents(wait, replies) == [e] + [WaitEnded(wait)];
      } else {
        PollsAreARun(mine, s, wait, entry, replies[1..]);
        ConsRun(mine, s, e, PollEvents(wait, replies[1..]));
      }
    }
  }

  lemma OnlySuccessRecords(history: seq<Entry>, entry: AuditEntry, reply: Reply)
    requires !Terminal(StatusOf(reply))
    ensures AfterReply(history, entry, reply) == history
  {
  }

  /** What RunWait leaves behind is what its events leave behind: the interleaved model covers it. */
  lemma WaitIsARun(mine: Ids, s: State, wait: nat, id: string, replies: seq<Result<Reply>>, result: Result<WaitResult>, after: seq<Entry>)
    requires wait !in s.waits && mine(id) && Known(s.history, id).Some? && Known(s.history, id).value.handle.Some?
    requires replies != [] && forall i :: 0 <= i < |replies| - 1 ==> replies[i].Ok? && !Terminal(StatusOf(replies[i].value))
    requires Waited(Known(s.history, id).value, s.history, after, replies, result)
    ensures var run := [WaitStarted(wait, id)] + PollEvents(wait, replies);
      PossibleFrom(mine, s, run) && From(s, run) == State(after, s.waits, s.ids)
  {
    var entry := Known(s.history, id).value;
    var t := Next(s, WaitStarted(wait, id));
    PollsAreARun(mine, t, wait, entry, replies);
    ConsRun(mine, s, WaitStarted(wait, id), PollEvents(wait, replies));
    assert t.waits - {wait} == s.waits;
  }

  // ---- a cancelled submission -----------------------------------------------------------------------

  /** No wait in flight carries this submission. */
  ghost predicate NoWaitOn(s: State, id: string) {
    forall wait :: wait in s.waits ==> s.waits[wait].clientContextId != id
  }

  ghost predicate Gone(s: State, id: string) {
    id in s.ids && Known(s.history, id).None? && NoWaitOn(s, id)
  }

  ghost predicate PossibleFrom(mine: Ids, s: State, run: seq<Event>)
    decreases |run|
  {
    run == [] || (Possible(mine, s, run[0]) && PossibleFrom(mine, Next(s, run[0]), run[1..]))
  }

  function From(s: State, run: seq<Event>): State
    decreases |run|
  {
    if run == [] then s else From(Next(s, run[0]), run[1..])
  }

  lemma GoneNext(mine: Ids, s: State, e: Event, id: string)
    requires Gone(s, id) && Possible(mine, s, e)
    ensures Gone(Next(s, e), id)
  {
    match e {
      case Submitted(entry) =>
        KnownSnoc(s.history, Recorded(entry), id);
      case WaitStarted(wait, other) =>
        KnownKey(s.history, other);
      case Polled(wait, reply) =>
        KnownSnoc(s.history, Recorded(s.waits[wait].(resultHandle := reply.handle)), id);
      case Forgot(other) =>
        KnownSnoc(s.history, Forgotten(other), id);
      case _ =>
    }
  }

  lemma {:induction false} GoneForever(mine: Ids, s: State, run: seq<Event>, id: string)
    requires Gone(s, id) && PossibleFrom(mine, s, run)
    ensures Gone(From(s, run), id)
    decreases |run|
  {
    if run != [] {
      GoneNext(mine, s, run[0], id);
      GoneForever(mine, Next(s, run[0]), run[1..], id);
    }
  }

  /** Nothing that can follow makes the log know the id again. */
  ghost predicate StaysForgotten(mine: Ids, s: State, id: string) {
    forall run :: PossibleFrom(mine, s, run) ==> Known(From(s, run).history, id).None?
  }

  /**
   * A cancel forgets its submission for good iff no wait on it is in flight: a wait that then
   * polls a success records the entry it captured, and the cancelled query can be fetched again.
   */
  lemma CancelForgetsForGood(mine: Ids, s: State, id: string)
    requires id in s.ids
    ensures StaysForgotten(mine, Next(s, Forgot(id)), id) <==> NoWaitOn(s, id)
  {
    var t := Next(s, Forgot(id));
    KnownSnoc(s.history, Forgotten(id), id);
    if NoWaitOn(s, id) {
      forall run | PossibleFrom(mine, t, run) ensures Known(From(t, run).history, id).None? {
        GoneForever(mine, t, run, id);
      }
    } else {
      var wait :| wait in s.waits && s.waits[wait].clientContextId == id;
      var reply := Reply(Some(SUCCESS), Some(""));
      SuccessIsTerminal(reply);
      var next := Polled(wait, reply);
      KnownSnoc(t.history, Recorded(s.waits[wait].(resultHandle := reply.handle)), id);
      OneStep(mine, t, next);
      assert Known(From(t, [next]).history, id).Some?;
    }
  }

  lemma SuccessIsTerminal(reply: Reply)
    requires reply.status == Some(SUCCESS)
    ensures StatusOf(reply) == SUCCESS && Terminal(StatusOf(reply))
  {
  }

  lemma OneStep(mine: Ids, s: State, e: Event)
    ensures PossibleFrom(mine, s, [e]) <==> Possible(mine, s, e)
    ensures From(s, [e]) == Next(s, e)
  {
    assert [e][1..] == [];
  }
}
