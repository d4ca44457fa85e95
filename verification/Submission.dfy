// tools/async_query.py: a whole submission, from the statement as it came to the audit entry.

module Submission {
  import opened Basics
  import opened ContextId
  import opened Permits
  import opened PlanPolicy
  import opened AuditLog
  import opened AsyncLifecycle
  import StatementGuard

  const MAX_LIMIT: nat := 1000

  /** id is Make(me, tag, uuid), worded so that a proof that only passes it on need not unfold Make. */
  ghost predicate IsMinted(id: string, me: string, tag: Option<string>, uuid: string) {
    forall drawn {:trigger Make(me, tag, drawn)} :: drawn == uuid ==> id == Make(me, tag, drawn)
  }

  /** The statement this tool compiles and sends. */
  method Normalized(statement: string, isWord: char -> bool) returns (text: string)
    ensures text == StatementGuard.Normalize(statement, MAX_LIMIT, isWord)
  {
    text := StatementGuard.NormalizeStatement(statement, MAX_LIMIT, isWord);
  }

  /** The id it sends it under. */
  method Mint(me: string, tag: Option<string>, uuid: string) returns (id: string)
    ensures IsMinted(id, me, tag, uuid)
  {
    id := Make(me, tag, uuid);
  }

  /** Every id the session sends a statement under is one it may use. */
  lemma MintedIsOwn(id: string, me: string, tag: Option<string>, uuid: string)
    requires IsMinted(id, me, tag, uuid)
    ensures CheckOwnership(me, id).None?
  {
    assert id == Make(me, tag, uuid);
    OwnershipExact(me, me, tag, uuid);
  }

  /** One submission: the text and its id, what compiling and sending it answered, and what was recorded. */
  datatype Call = Call(text: string, id: string, compiled: Result<Envelope>, sent: Option<Result<Reply>>, entry: AuditEntry)

  /** It was sent iff its plan is cleared and a permit was free, and the answer says what came of it. */
  ghost predicate Handled(call: Call, allowlist: Allowlist, principal: Option<string>, dataverse: Option<string>, full: bool,
                          r: Result<string>)
  {
    && (call.sent.Some? <==> Cleared(allowlist, principal, call.compiled, dataverse) && !full)
    && (call.sent.None? ==> r.Err? && Unsent(allowlist, principal, call.compiled, dataverse, r.error))
    && (call.sent.Some? ==> r == (match call.sent.value { case Ok(_) => Ok(call.id) case Err(e) => Err(e) }))
  }

  /**
   * run_submit_async_query: a statement the function and parameter checks bar is never compiled;
   * what is compiled and sent is the normalized statement, under an id this session makes.
   */
  method RunSubmit(me: string, cluster: Cluster, audit: AuditLog, pool: PermitPool, allowlist: Allowlist, principal: Option<string>,
                   statement: string, dataverse: Option<string>, tag: Option<string>, uuid: string, isWord: char -> bool,
                   barred: Option<ErrorType>)
    returns (r: Result<string>, ghost call: Option<Call>)
    requires audit.Valid() && forall p :: p in pool.held ==> pool.held[p] >= 1
    modifies cluster, audit, audit.clock, pool
    ensures audit.Valid() && pool.Value() == old(pool.Value())
    ensures call.None? <==> barred.Some?
    ensures barred.Some? ==> r == Err(barred.value) && cluster.contacts == old(cluster.contacts) && audit.history == old(audit.history)
    ensures call.Some? ==>
      && call.value.text == StatementGuard.Normalize(statement, 1000, isWord) && IsMinted(call.value.id, me, tag, uuid)
      && cluster.contacts == old(cluster.contacts) + Sent(call.value.text, call.value.id, call.value.compiled, call.value.sent)
      && Handled(call.value, allowlist, principal, dataverse, Refuses(pool.Value(), pool.capacity, pool.perPrincipal, Who(principal)), r)
      && audit.history == old(audit.history) + (if r.Ok? then [Recorded(call.value.entry)] else [])
      && (r.Ok? ==> FreshEntry(call.value.entry, call.value.id, me, call.value.sent.value.value.handle, old(audit.clock.last), audit.clock.last))
  {
    if barred.Some? {
      return Err(barred.value), None;
    }
    ghost var compiled, sent, entry;
    var text := Normalized(statement, isWord);
    var id := Mint(me, tag, uuid);
    r, compiled, sent, entry := SubmitText(me, cluster, audit, pool, allowlist, principal, text, dataverse, id);
    call := Some(Call(text, id, compiled, sent, entry));
  }
}
