// plan_parser.py and tenant_policy.py: what a compiled plan reads, and whether the
// tenant may read it.

module PlanPolicy {
  import opened Basics
  import opened Text

  datatype Json =
    | Null
    | Bool(b: bool)
    | Num(n: int)
    | Str(s: string)
    | Arr(items: seq<Json>)
    | Obj(fields: map<string, Json>)

  const PLAN_KEY := "optimizedLogicalPlan"

  datatype PlanOperator = PlanOperator(
    kind: Option<string>,
    operatorId: Option<string>,
    physicalOperator: Option<string>,
    dataSource: Option<string>,
    predicates: seq<string>,
    inputs: seq<PlanOperator>)

  function AsStr(fields: map<string, Json>, key: string): Option<string> {
    if key in fields && fields[key].Str? then Some(fields[key].s) else None
  }

  function StringList(items: seq<Json>): seq<string> {
    if items == [] then []
    else (if items[0].Str? then [items[0].s] else []) + StringList(items[1..])
  }

  function ListField(fields: map<string, Json>, key: string): seq<string> {
    if key in fields && fields[key].Arr? then StringList(fields[key].items) else []
  }

  function Predicates(fields: map<string, Json>): seq<string> {
    (if "condition" !in fields then []
     else match fields["condition"]
       case Obj(inner) => ListField(inner, "expressions")
       case Str(s) => [s]
       case _ => [])
    + ListField(fields, "expressions")
  }

  // ---- parsing -----------------------------------------------------------------------

  function ParseNode(node: Json): PlanOperator
    requires node.Obj?
    decreases node, 1
  {
    var f := node.fields;
    PlanOperator(AsStr(f, "operator"), AsStr(f, "operatorId"), AsStr(f, "physical-operator"), AsStr(f, "data-source"),
                 Predicates(f),
                 if "inputs" in f && f["inputs"].Arr? then ParseInputs(f["inputs"].items) else [])
  }

  /** The object entries of an inputs array, parsed in order. */
  function ParseInputs(items: seq<Json>): seq<PlanOperator>
    decreases items, 0
  {
    if items == [] then []
    else (if items[0].Obj? then [ParseNode(items[0])] else []) + ParseInputs(items[1..])
  }

  // ---- collecting ----------------------------------------------------------------------

  function Sources(op: PlanOperator): seq<string>
    decreases op, 1
  {
    (if op.dataSource.Some? then [op.dataSource.value] else []) + SourcesOf(op.inputs)
  }

  function SourcesOf(ops: seq<PlanOperator>): seq<string>
    decreases ops, 0
  {
    if ops == [] then [] else Sources(ops[0]) + SourcesOf(ops[1..])
  }

  function CountOf(op: PlanOperator, kind: string): nat
    decreases op, 1
  {
    (if op.kind == Some(kind) then 1 else 0) + CountOfAll(op.inputs, kind)
  }

  function CountOfAll(ops: seq<PlanOperator>, kind: string): nat
    decreases ops, 0
  {
    if ops == [] then 0 else CountOf(ops[0], kind) + CountOfAll(ops[1..], kind)
  }

  function Tallied(counts: map<string, nat>, kind: string): nat {
    if kind in counts then counts[kind] else 0
  }

  lemma {:induction false} SourcesSnoc(ops: seq<PlanOperator>, n: nat, kind: string)
    requires n < |ops|
    ensures SourcesOf(ops[..n + 1]) == SourcesOf(ops[..n]) + Sources(ops[n])
    ensures CountOfAll(ops[..n + 1], kind) == CountOfAll(ops[..n], kind) + CountOf(ops[n], kind)
  {
    if n == 0 {
      assert ops[..1][1..] == [];
    } else {
      assert ops[..n + 1][1..] == ops[1..][..n] && ops[..n][1..] == ops[1..][..n - 1];
      SourcesSnoc(ops[1..], n - 1, kind);
    }
  }

  lemma InputStep(ops: seq<PlanOperator>, n: nat)
    requires n < |ops|
    ensures SourcesOf(ops[..n + 1]) == SourcesOf(ops[..n]) + Sources(ops[n])
    ensures forall k :: CountOfAll(ops[..n + 1], k) == CountOfAll(ops[..n], k) + CountOf(ops[n], k)
  {
    SourcesSnoc(ops, n, "");
    forall k ensures CountOfAll(ops[..n + 1], k) == CountOfAll(ops[..n], k) + CountOf(ops[n], k) {
      SourcesSnoc(ops, n, k);
    }
  }

  /** The accumulators _collect mutates. */
  class Tally {
    var counts: map<string, nat>
    var sources: seq<string>

    constructor ()
      ensures counts == map[] && sources == []
    {
      counts, sources := map[], [];
    }

    /** _collect: every operator is counted and every data source appended, depth first. */
    method Collect(op: PlanOperator)
      modifies this
      ensures sources == old(sources) + Sources(op)
      ensures forall k :: Tallied(counts, k) == Tallied(old(counts), k) + CountOf(op, k)
      decreases op, 1
    {
      if op.kind.Some? {
        counts := counts[op.kind.value := Tallied(counts, op.kind.value) + 1];
      }
      if op.dataSource.Some? {
        sources := sources + [op.dataSource.value];
      }
      CollectInputs(op.inputs);
    }

    /** for child in op.inputs: _collect(child, ...) */
    method CollectInputs(ops: seq<PlanOperator>)
      modifies this
      ensures sources == old(sources) + SourcesOf(ops)
      ensures forall k :: Tallied(counts, k) == Tallied(old(counts), k) + CountOfAll(ops, k)
      decreases ops, 0
    {
      for n := 0 to |ops|
        invariant sources == old(sources) + SourcesOf(ops[..n])
        invariant forall k :: Tallied(counts, k) == Tallied(old(counts), k) + CountOfAll(ops[..n], k)
      {
        InputStep(ops, n);
        Collect(ops[n]);
      }
      assert ops[..|ops|] == ops;
    }
  }

  /** _dedupe_preserving_order: what a loop with a seen set keeps. */
  function Dedupe<T(==,!new)>(items: seq<T>): (r: seq<T>)
    ensures Distinct(r) && forall s :: s in r <==> s in items
  {
    if items == [] then []
    else
      var n := |items| - 1;
      var front := Dedupe(items[..n]);
      assert items == items[..n] + [items[n]];
      if items[n] in items[..n] then front else front + [items[n]]
  }

  method DedupePreservingOrder(items: seq<string>) returns (r: seq<string>)
    ensures r == Dedupe(items)
  {
    var seen: set<string> := {};
    r := [];
    for n := 0 to |items|
      invariant r == Dedupe(items[..n]) && seen == set s | s in items[..n]
    {
      assert items[..n + 1][..n] == items[..n] && items[..n + 1] == items[..n] + [items[n]];
      if items[n] !in seen {
        seen := seen + {items[n]};
        r := r + [items[n]];
      }
    }
    assert items[..|items|] == items;
  }

  /** First occurrences keep their order. */
  lemma {:induction false} DedupeKeepsOrder<T(!new)>(items: seq<T>, i: nat, j: nat)
    requires i < j < |Dedupe(items)|
    ensures FirstAt(items, Dedupe(items)[i]) < FirstAt(items, Dedupe(items)[j])
  {
    var n := |items| - 1;
    var front := items[..n];
    assert items == front + [items[n]];
    FirstAtFront(front, items[n], Dedupe(items)[i]);
    FirstAtFront(front, items[n], Dedupe(items)[j]);
    if j < |Dedupe(front)| {
      DedupeKeepsOrder(front, i, j);
    }
  }

  function FirstAt<T(==)>(items: seq<T>, s: T): (r: nat)
    ensures r <= |items| && (r < |items| ==> items[r] == s) && s !in items[..r]
    ensures s in items ==> r < |items|
  {
    if items == [] || items[0] == s then 0
    else
      var r := 1 + FirstAt(items[1..], s);
      assert items[..r] == [items[0]] + items[1..][..r - 1];
      r
  }

  lemma {:induction false} FirstAtFront<T>(front: seq<T>, last: T, s: T)
    ensures s in front ==> FirstAt(front + [last], s) == FirstAt(front, s) < |front|
    ensures s !in front && s == last ==> FirstAt(front + [last], s) == |front|
  {
    if front != [] && front[0] != s {
      assert (front + [last])[1..] == front[1..] + [last];
      FirstAtFront(front[1..], last, s);
    }
  }

  function FieldOf(plans: Json, key: string): Option<Json> {
    if plans.Obj? && key in plans.fields then Some(plans.fields[key]) else None
  }

  /** parse_plan: no recognizable tree under the key gives None. */
  function PlanSources(plans: Json, key: string): Option<seq<string>> {
    match FieldOf(plans, key)
    case None => None
    case Some(root) => if root.Obj? then Some(Dedupe(Sources(ParseNode(root)))) else None
  }

  method ParsePlan(plans: Json, key: string) returns (dataSources: Option<seq<string>>)
    ensures dataSources == PlanSources(plans, key)
  {
    if !plans.Obj? || key !in plans.fields || !plans.fields[key].Obj? {
      return None;
    }
    var root := ParseNode(plans.fields[key]);
    var tally := new Tally();
    tally.Collect(root);
    assert tally.sources == Sources(root);
    var unique := DedupePreservingOrder(tally.sources);
    dataSources := Some(unique);
  }

  // ---- what a raw tree reads -------------------------------------------------------------

  /** The node reached by following inputs positions; only object nodes are nodes. */
  function Follow(node: Json, path: seq<nat>): Option<Json>
    decreases |path|
  {
    if !node.Obj? then None
    else if path == [] then Some(node)
    else if "inputs" in node.fields && node.fields["inputs"].Arr? && path[0] < |node.fields["inputs"].items| then
      Follow(node.fields["inputs"].items[path[0]], path[1..])
    else None
  }

  /** Some operator anywhere in the tree names this data source. */
  ghost predicate Reads(root: Json, source: string) {
    exists path: seq<nat> :: ReadsAt(root, path, source)
  }

  predicate ReadsAt(root: Json, path: seq<nat>, source: string) {
    match Follow(root, path)
    case None => false
    case Some(node) => node.Obj? && AsStr(node.fields, "data-source") == Some(source)
  }

  lemma {:induction false} SourcesExact(root: Json, source: string)
    requires root.Obj?
    ensures source in Sources(ParseNode(root)) <==> Reads(root, source)
    decreases root, 1
  {
    var own := AsStr(root.fields, "data-source") == Some(source);
    assert own <==> ReadsAt(root, [], source);
    if "inputs" in root.fields && root.fields["inputs"].Arr? {
      var items := root.fields["inputs"].items;
      InputSourcesExact(items, source);
      if Reads(root, source) && !own {
        var path: seq<nat> :| ReadsAt(root, path, source);
        assert ReadsAt(items[path[0]], path[1..], source);
      }
      if InputReads(items, source) {
        var k: nat, path: seq<nat> :| k < |items| && ReadsAt(items[k], path, source);
        assert ([k] + path)[1..] == path;
        assert ReadsAt(root, [k] + path, source);
      }
    } else {
      assert forall path: seq<nat> :: path != [] ==> !ReadsAt(root, path, source);
    }
  }

  ghost predicate InputReads(items: seq<Json>, source: string) {
    exists k: nat, path: seq<nat> :: k < |items| && ReadsAt(items[k], path, source)
  }

  lemma {:induction false} InputSourcesExact(items: seq<Json>, source: string)
    ensures source in SourcesOf(ParseInputs(items)) <==> InputReads(items, source)
    decreases items, 0
  {
    if items != [] {
      InputSourcesExact(items[1..], source);
      var rest := ParseInputs(items[1..]);
      if items[0].Obj? {
        SourcesExact(items[0], source);
        assert ([ParseNode(items[0])] + rest)[1..] == rest;
      } else {
        assert [] + rest == rest;
      }
      InputReadsCons(items, source);
    }
  }

  lemma InputReadsCons(items: seq<Json>, source: string)
    requires items != []
    ensures InputReads(items, source) <==> (items[0].Obj? && Reads(items[0], source)) || InputReads(items[1..], source)
  {
    if InputReads(items, source) {
      var k: nat, path: seq<nat> :| k < |items| && ReadsAt(items[k], path, source);
      if k > 0 {
        assert ReadsAt(items[1..][k - 1], path, source);
      }
    }
    if items[0].Obj? && Reads(items[0], source) {
      var path: seq<nat> :| ReadsAt(items[0], path, source);
    }
    if InputReads(items[1..], source) {
      var k: nat, path: seq<nat> :| k < |items[1..]| && ReadsAt(items[1..][k], path, source);
      assert ReadsAt(items[k + 1], path, source);
    }
  }

  // ---- resolving ---------------------------------------------------------------------------

  /** Dataverse.Dataset[.index], or a bare name under a default dataverse. */
  function Resolve(source: string, default_: Option<string>): Option<(string, string)> {
    var parts := Split(source, ".");
    if |parts| >= 2 then Some((parts[0], parts[1]))
    else if default_.GetOr("") != "" then Some((default_.value, parts[0]))
    else None
  }

  /**
   * A dotted source names its first two segments, whatever follows; a bare one is a dataset of the
   * default dataverse, and without a default it is not resolved.
   */
  lemma ResolveExact(source: string, default_: Option<string>)
    ensures var r := Resolve(source, default_);
      && (Contains(source, ".") ==>
            && r.Some? && !Contains(r.value.0, ".") && !Contains(r.value.1, ".")
            && (source == r.value.0 + "." + r.value.1 || StartsWith(source, r.value.0 + "." + r.value.1 + ".")))
      && (!Contains(source, ".") ==> r == if default_.GetOr("") == "" then None else Some((default_.value, source)))
  {
    DottedParts(source, ".");
  }

  lemma DottedParts(source: string, dot: string)
    requires dot != ""
    ensures var parts := Split(source, dot);
      && (Contains(source, dot) ==>
            && |parts| >= 2 && !Contains(parts[0], dot) && !Contains(parts[1], dot)
            && (source == parts[0] + dot + parts[1] || StartsWith(source, parts[0] + dot + parts[1] + dot)))
      && (!Contains(source, dot) ==> parts == [source])
  {
    var parts := Split(source, dot);
    FindNone(source, dot);
    if Contains(source, dot) {
      SplitPieces(source, dot, 0);
      SplitPieces(source, dot, 1);
      JoinSplit(source, dot);
      TwoParts(parts, dot);
    }
  }

  lemma TwoParts(parts: seq<string>, dot: string)
    requires |parts| >= 2
    ensures var s := Join(parts, dot);
      if |parts| == 2 then s == parts[0] + dot + parts[1] else parts[0] + dot + parts[1] + dot <= s
  {
    assert parts[1..][0] == parts[1];
    if |parts| == 2 {
      assert parts[1..] == [parts[1]];
    } else {
      var rest := Join(parts[1..][1..], dot);
      assert Join(parts, dot) == parts[0] + dot + (parts[1] + dot + rest);
      assert parts[0] + dot + (parts[1] + dot + rest) == (parts[0] + dot + parts[1] + dot) + rest;
    }
  }

  /** The pairs the sources resolve to, in their order. */
  function Pairs(sources: seq<string>, default_: Option<string>): seq<(string, string)> {
    if sources == [] then []
    else
      var n := |sources| - 1;
      var r := Resolve(sources[n], default_);
      var front := Pairs(sources[..n], default_);
      if r.Some? then front + [r.value] else front
  }

  /** The sources that resolve to nothing, in their order. */
  function Unnamed(sources: seq<string>, default_: Option<string>): seq<string> {
    if sources == [] then []
    else
      var n := |sources| - 1;
      var front := Unnamed(sources[..n], default_);
      if Resolve(sources[n], default_).None? then front + [sources[n]] else front
  }

  lemma ResolveStep(sources: seq<string>, n: nat, default_: Option<string>)
    requires n < |sources|
    ensures var r := Resolve(sources[n], default_);
      && Pairs(sources[..n + 1], default_)
         == (if r.Some? then Pairs(sources[..n], default_) + [r.value] else Pairs(sources[..n], default_))
      && Unnamed(sources[..n + 1], default_)
         == (if r.None? then Unnamed(sources[..n], default_) + [sources[n]] else Unnamed(sources[..n], default_))
  {
    assert sources[..n + 1][..n] == sources[..n];
  }

  lemma DedupeStep<T(!new)>(items: seq<T>, last: T)
    ensures Dedupe(items + [last]) == if last in items then Dedupe(items) else Dedupe(items) + [last]
  {
    assert (items + [last])[..|items|] == items;
  }

  /** No source falls between the pairs and the failures. */
  lemma {:induction false} ResolvedExact(sources: seq<string>, default_: Option<string>)
    ensures forall pair :: pair in Pairs(sources, default_) <==> exists s :: s in sources && Resolve(s, default_) == Some(pair)
    ensures forall s :: s in Unnamed(sources, default_) <==> s in sources && Resolve(s, default_).None?
  {
    if sources != [] {
      var n := |sources| - 1;
      assert sources == sources[..n] + [sources[n]];
      ResolvedExact(sources[..n], default_);
    }
  }

  /** resolve_sources: pairs and failures, each once, in the order of their first sources. */
  method ResolveSources(dataSources: seq<string>, default_: Option<string>)
    returns (datasets: seq<(string, string)>, unresolved: seq<string>)
    ensures datasets == Dedupe(Pairs(dataSources, default_)) && unresolved == Dedupe(Unnamed(dataSources, default_))
  {
    var seen: set<(string, string)> := {};
    datasets, unresolved := [], [];
    for n := 0 to |dataSources|
      invariant datasets == Dedupe(Pairs(dataSources[..n], default_))
      invariant unresolved == Dedupe(Unnamed(dataSources[..n], default_))
      invariant forall pair :: pair in seen <==> pair in datasets
    {
      ResolveStep(dataSources, n, default_);
      var pair := Resolve(dataSources[n], default_);
      if pair.None? {
        DedupeStep(Unnamed(dataSources[..n], default_), dataSources[n]);
        if dataSources[n] !in unresolved {
          unresolved := unresolved + [dataSources[n]];
        }
        continue;
      }
      DedupeStep(Pairs(dataSources[..n], default_), pair.value);
      if pair.value !in seen {
        seen := seen + {pair.value};
        datasets := datasets + [pair.value];
      }
    }
    assert dataSources[..|dataSources|] == dataSources;
  }

  // ---- the predicates of a node ---------------------------------------------------------------

  /** The strings of a list, in order; nothing else in it counts. */
  lemma {:induction false} StringListExact(front: seq<Json>, item: Json)
    ensures StringList(front + [item]) == StringList(front) + match item { case Str(s) => [s] case _ => [] }
  {
    if front == [] {
      assert front + [item] == [item] && [item][1..] == [];
    } else {
      assert (front + [item])[0] == front[0] && (front + [item])[1..] == front[1..] + [item];
      StringListExact(front[1..], item);
    }
  }

  /** The expressions of a node's condition, or the condition when it is one string, and then the node's own. */
  lemma PredicatesExact(fields: map<string, Json>)
    ensures var own := if "expressions" in fields && fields["expressions"].Arr? then StringList(fields["expressions"].items) else [];
      Predicates(fields) ==
        if "condition" in fields && fields["condition"].Str? then [fields["condition"].s] + own
        else if "condition" in fields && fields["condition"].Obj? && "expressions" in fields["condition"].fields
                && fields["condition"].fields["expressions"].Arr? then
          StringList(fields["condition"].fields["expressions"].items) + own
        else own
  {
  }

  // ---- policy -------------------------------------------------------------------------------

  /** dataverse_allowlist, when configured. */
  type Allowlist = Option<map<string, seq<string>>>

  predicate IsEnforced(allowlist: Allowlist) {
    allowlist.Some? && allowlist.value != map[]
  }

  function AllowedDataverses(allowlist: Allowlist, principal: Option<string>): (r: set<string>)
    ensures principal.None? ==> r == {}
  {
    if allowlist.None? || principal.None? || principal.value !in allowlist.value then {}
    else set d | d in allowlist.value[principal.value]
  }

  /** d is on this principal's own list. */
  predicate OnOwnList(allowlist: Allowlist, principal: Option<string>, d: string) {
    && allowlist.Some? && principal.Some? && principal.value in allowlist.value
    && exists k :: 0 <= k < |allowlist.value[principal.value]| && allowlist.value[principal.value][k] == d
  }

  /** Nobody else's list is consulted, and without a principal or a list nothing is allowed. */
  lemma AllowedExact(allowlist: Allowlist, principal: Option<string>, d: string)
    ensures d in AllowedDataverses(allowlist, principal) <==> OnOwnList(allowlist, principal, d)
  {
    if allowlist.Some? && principal.Some? && principal.value in allowlist.value {
      var own := allowlist.value[principal.value];
      assert d in own <==> exists k :: 0 <= k < |own| && own[k] == d;
    }
  }

  predicate AllInside(allowlist: Allowlist, principal: Option<string>, datasets: seq<(string, string)>) {
    forall pair :: pair in datasets ==> OnOwnList(allowlist, principal, pair.0)
  }

  method CheckSources(allowlist: Allowlist, principal: Option<string>, datasets: seq<(string, string)>, unresolved: seq<string>)
    returns (denied: Option<ErrorType>)
    ensures denied.None? || denied == Some(Forbidden)
    ensures denied.None? <==>
      (allowlist.None? || allowlist.value == map[] || (unresolved == [] && AllInside(allowlist, principal, datasets)))
  {
    if !IsEnforced(allowlist) {
      return None;
    }
    if unresolved != [] {
      return Some(Forbidden);
    }
    var touched := set pair | pair in datasets :: pair.0;
    var outside := touched - AllowedDataverses(allowlist, principal);
    OutsideExact(allowlist, principal, datasets, touched, outside);
    return if outside == {} then None else Some(Forbidden);
  }

  lemma OutsideExact(allowlist: Allowlist, principal: Option<string>, datasets: seq<(string, string)>, touched: set<string>, outside: set<string>)
    requires forall d :: d in touched <==> exists pair :: pair in datasets && pair.0 == d
    requires outside == touched - AllowedDataverses(allowlist, principal)
    ensures outside == {} <==> AllInside(allowlist, principal, datasets)
  {
    if outside != {} {
      var d :| d in outside;
      var pair :| pair in datasets && pair.0 == d;
      AllowedExact(allowlist, principal, d);
    } else {
      forall pair | pair in datasets ensures OnOwnList(allowlist, principal, pair.0) {
        AllowedExact(allowlist, principal, pair.0);
        assert pair.0 in touched && pair.0 !in outside;
      }
    }
  }

  /** The parts of a compile-only envelope the check looks at. */
  datatype Envelope = Envelope(hasErrors: bool, plans: Json)

  /** The tenant may read this source: it has a dataverse, and that dataverse is allowed. */
  predicate MayRead(allowlist: Allowlist, principal: Option<string>, source: string, default_: Option<string>) {
    match Resolve(source, default_)
    case None => false
    case Some(pair) => OnOwnList(allowlist, principal, pair.0)
  }

  /** A tree was compiled, and every data source anywhere in it may be read. */
  ghost predicate Authorized(allowlist: Allowlist, principal: Option<string>, plans: Json, default_: Option<string>) {
    && plans.Obj? && "optimizedLogicalPlan" in plans.fields && plans.fields["optimizedLogicalPlan"].Obj?
    && forall source :: Reads(plans.fields["optimizedLogicalPlan"], source) ==> MayRead(allowlist, principal, source, default_)
  }

  /** What the check lets through: anything without an allowlist or that did not compile, else authorized plans. */
  ghost predicate Passes(allowlist: Allowlist, principal: Option<string>, envelope: Envelope, default_: Option<string>) {
    allowlist.None? || allowlist.value == map[] || envelope.hasErrors || Authorized(allowlist, principal, envelope.plans, default_)
  }

  /** Two allowlists agree on the entry of a principal. */
  predicate SameEntry(a: map<string, seq<string>>, b: map<string, seq<string>>, principal: string) {
    (principal in a <==> principal in b) && (principal in a && principal in b ==> a[principal] == b[principal])
  }

  /** No other tenant's entry matters: enforced allowlists that agree on a principal decide every plan alike for it. */
  lemma OthersDoNotMatter(a: map<string, seq<string>>, b: map<string, seq<string>>, principal: string, envelope: Envelope,
                          default_: Option<string>)
    requires a != map[] && b != map[] && SameEntry(a, b, principal)
    ensures Passes(Some(a), Some(principal), envelope, default_) <==> Passes(Some(b), Some(principal), envelope, default_)
  {
    forall source ensures MayRead(Some(a), Some(principal), source, default_) <==> MayRead(Some(b), Some(principal), source, default_) {
      if Resolve(source, default_).Some? {
        assert OnOwnList(Some(a), Some(principal), Resolve(source, default_).value.0)
          <==> OnOwnList(Some(b), Some(principal), Resolve(source, default_).value.0);
      }
    }
  }

  /**
   * check_compiled_plan is sound and complete: with an allowlist and no compile error it passes
   * iff a plan tree exists and every data source at any depth of it resolves into an allowed
   * dataverse; without an allowlist, or for a statement that does not compile, it passes.
   */
  method CheckCompiledPlan(allowlist: Allowlist, principal: Option<string>, envelope: Envelope, default_: Option<string>)
    returns (denied: Option<ErrorType>)
    ensures denied.None? || denied == Some(Forbidden)
    ensures denied.None? <==> Passes(allowlist, principal, envelope, default_)
  {
    if !IsEnforced(allowlist) {
      return None;
    }
    if envelope.hasErrors {
      return None;
    }
    var parsed := ParsePlan(envelope.plans, PLAN_KEY);
    if parsed.None? {
      return Some(Forbidden);
    }
    var datasets, unresolved := ResolveSources(parsed.value, default_);
    denied := CheckSources(allowlist, principal, datasets, unresolved);
    ResolvedExact(parsed.value, default_);
    AllResolveExact(allowlist, principal, parsed.value, datasets, unresolved, default_);
    forall source ensures source in parsed.value <==> Reads(FieldOf(envelope.plans, PLAN_KEY).value, source) {
      SourcesExact(FieldOf(envelope.plans, PLAN_KEY).value, source);
    }
  }

  /** No source is lost between resolving and the subset check. */
  lemma AllResolveExact(allowlist: Allowlist, principal: Option<string>, sources: seq<string>,
                        datasets: seq<(string, string)>, unresolved: seq<string>, default_: Option<string>)
    requires forall pair :: pair in datasets <==> exists s :: s in sources && Resolve(s, default_) == Some(pair)
    requires forall s :: s in unresolved <==> s in sources && Resolve(s, default_).None?
    ensures (unresolved == [] && AllInside(allowlist, principal, datasets)) <==>
      (forall s :: s in sources ==> MayRead(allowlist, principal, s, default_))
  {
    if unresolved != [] {
      assert unresolved[0] in unresolved;
    }
  }
}
