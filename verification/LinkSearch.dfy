// memory_search: the link-hop loop over the concept graph.
//
// A store read returns current rows by subject; subjects are unique among them, so the
// visible concepts are a map. Initial hits come from the key and full-text passes.

module LinkSearch {
  import opened Basics
  import opened Text

  const MAX_LINK_DEPTH: nat := 2

  /** A concept as the search projects it. */
  datatype Concept = Concept(subject: string, links: seq<string>)

  /** A match and how it was reached: 0 for a hit, h for h link hops. */
  datatype Match = Match(concept: Concept, via: nat)

  type Graph = map<string, Concept>

  ghost predicate WellFormed(g: Graph) {
    forall s :: s in g ==> g[s].subject == s && s != ""
  }

  /** A link that may be followed to an existing concept. */
  predicate Edge(g: Graph, from_: string, to: string) {
    from_ in g && to in g && Identifier(to) && to in g[from_].links
  }

  // ---- the loop -----------------------------------------------------------------------

  /** _link_targets: valid, unseen targets of the frontier, each once. */
  method LinkTargets(frontier: seq<Match>, seen: set<string>) returns (out: seq<string>)
    ensures forall t :: t in out <==>
      t !in seen && Identifier(t) && exists m :: m in frontier && t in m.concept.links
    ensures Distinct(out)
  {
    out := [];
    for n := 0 to |frontier|
      invariant Distinct(out)
      invariant forall t :: t in out <==> t !in seen && Identifier(t) && exists k :: 0 <= k < n && t in frontier[k].concept.links
    {
      var links := frontier[n].concept.links;
      for j := 0 to |links|
        invariant Distinct(out)
        invariant forall t :: t in out <==>
          t !in seen && Identifier(t) && ((exists k :: 0 <= k < n && t in frontier[k].concept.links) || t in links[..j])
      {
        var target := links[j];
        if target !in seen && target !in out && Identifier(target) {
          out := out + [target];
        }
        assert links[..j + 1] == links[..j] + [target];
      }
      assert links[..|links|] == links;
    }
  }

  /** One store read by subject: every existing concept asked for, each once, or nothing on failure. */
  method Fetch(g: Graph, subjects: seq<string>, failed: bool) returns (docs: seq<Concept>)
    requires WellFormed(g) && Distinct(subjects)
    ensures !failed ==> forall d :: d in docs <==> d.subject in subjects && d.subject in g && d == g[d.subject]
    ensures failed ==> docs == []
    ensures DistinctConcepts(docs)
  {
    docs := [];
    if failed {
      return;
    }
    for n := 0 to |subjects|
      invariant forall d :: d in docs <==> d.subject in subjects[..n] && d.subject in g && d == g[d.subject]
      invariant DistinctConcepts(docs)
    {
      assert subjects[..n + 1] == subjects[..n] + [subjects[n]];
      assert subjects[n] !in subjects[..n];
      if subjects[n] in g {
        docs := docs + [g[subjects[n]]];
      }
    }
    assert subjects[..|subjects|] == subjects;
  }

  ghost predicate DistinctConcepts(docs: seq<Concept>) {
    forall i, j :: 0 <= i < j < |docs| ==> docs[i].subject != docs[j].subject
  }

  ghost predicate DistinctMatches(ms: seq<Match>) {
    forall i, j :: 0 <= i < j < |ms| ==> ms[i].concept.subject != ms[j].concept.subject
  }

  function Subjects(ms: seq<Match>): (r: set<string>)
    ensures forall s :: s in r <==> exists m :: m in ms && m.concept.subject == s
  {
    set m | m in ms :: m.concept.subject
  }

  /** The subjects a pass over docs would add. */
  function Named(docs: seq<Concept>): (r: set<string>)
    ensures forall s :: s in r <==> s != "" && exists d :: d in docs && d.subject == s
  {
    set d | d in docs && d.subject != "" :: d.subject
  }

  /** The documents not seen yet, each at its first place, as matches of this hop. */
  function Fresh(docs: seq<Concept>, seen: set<string>, hop: nat): seq<Match> {
    if docs == [] then []
    else
      var doc, front := docs[|docs| - 1], Fresh(docs[..|docs| - 1], seen, hop);
      if doc.subject != "" && doc.subject !in seen && doc.subject !in Subjects(front) then front + [Match(doc, hop)] else front
  }

  /** _add over fetched documents: each unseen one becomes a match and a frontier member. */
  method AddAll(matches: seq<Match>, seen: set<string>, docs: seq<Concept>, hop: nat)
    returns (matches': seq<Match>, seen': set<string>, frontier: seq<Match>)
    requires DistinctMatches(matches) && Subjects(matches) <= seen
    ensures matches' == matches + frontier && DistinctMatches(matches')
    ensures seen' == seen + Named(docs) && Subjects(frontier) == Named(docs) - seen
    ensures forall m :: m in frontier ==> m.via == hop && m.concept in docs
    ensures frontier == Fresh(docs, seen, hop)
  {
    matches', seen', frontier := matches, seen, [];
    for n := 0 to |docs|
      invariant matches' == matches + frontier && seen' == seen + Named(docs[..n])
      invariant frontier == Fresh(docs[..n], seen, hop)
    {
      var doc := docs[n];
      assert docs[..n + 1][..n] == docs[..n];
      NamedStep(docs, n);
      FreshNamed(docs[..n], seen, hop);
      if doc.subject != "" && doc.subject !in seen' {
        seen' := seen' + {doc.subject};
        matches' := matches' + [Match(doc, hop)];
        frontier := frontier + [matches'[|matches'| - 1]];
      }
    }
    assert docs[..|docs|] == docs;
    FreshNamed(docs, seen, hop);
    FreshDistinct(matches, docs, seen, hop);
  }

  lemma {:induction false} FreshNamed(docs: seq<Concept>, seen: set<string>, hop: nat)
    ensures Subjects(Fresh(docs, seen, hop)) == Named(docs) - seen
    ensures forall m :: m in Fresh(docs, seen, hop) ==> m.via == hop && m.concept in docs
  {
    if docs != [] {
      var n := |docs| - 1;
      FreshNamed(docs[..n], seen, hop);
      NamedStep(docs, n);
      assert docs[..n + 1] == docs;
      JoinSubjects(Fresh(docs[..n], seen, hop), [Match(docs[n], hop)]);
      assert Subjects([Match(docs[n], hop)]) == {docs[n].subject};
    }
  }

  lemma {:induction false} FreshDistinct(matches: seq<Match>, docs: seq<Concept>, seen: set<string>, hop: nat)
    requires DistinctMatches(matches) && Subjects(matches) <= seen
    ensures DistinctMatches(matches + Fresh(docs, seen, hop))
  {
    var front := Fresh(docs, seen, hop);
    if docs == [] {
      assert matches + front == matches;
    } else {
      var n := |docs| - 1;
      var before := Fresh(docs[..n], seen, hop);
      FreshDistinct(matches, docs[..n], seen, hop);
      if front != before {
        JoinSubjects(matches, before);
        AddOne(matches + before, Match(docs[n], hop));
        assert matches + front == (matches + before) + [Match(docs[n], hop)];
      }
    }
  }

  lemma NamedStep(docs: seq<Concept>, n: nat)
    requires n < |docs|
    ensures Named(docs[..n + 1]) == Named(docs[..n]) + if docs[n].subject == "" then {} else {docs[n].subject}
  {
    assert docs[..n + 1] == docs[..n] + [docs[n]];
  }

  lemma AddOne(ms: seq<Match>, m: Match)
    requires DistinctMatches(ms) && m.concept.subject !in Subjects(ms)
    ensures DistinctMatches(ms + [m])
  {
    forall i | 0 <= i < |ms| ensures ms[i].concept.subject != m.concept.subject {
      assert ms[i] in ms;
    }
  }

  // ---- reachability ---------------------------------------------------------------------

  /** Concepts within k link hops of the hits that never step on a blocked subject. */
  ghost function Reach(g: Graph, hits: set<string>, blocked: set<string>, k: nat): set<string> {
    if k == 0 then hits
    else
      var near := Reach(g, hits, blocked, k - 1);
      near + set t | t in g && t !in blocked && exists s :: s in near && Edge(g, s, t)
  }

  lemma {:induction false} ReachGrows(g: Graph, hits: set<string>, blocked: set<string>, j: nat, k: nat)
    requires j <= k
    ensures Reach(g, hits, blocked, j) <= Reach(g, hits, blocked, k)
    decreases k - j
  {
    if j < k {
      ReachGrows(g, hits, blocked, j, k - 1);
    }
  }

  /** A hop that adds nothing is the last: the reach is complete. */
  lemma {:induction false} ReachStops(g: Graph, hits: set<string>, blocked: set<string>, j: nat, k: nat)
    requires j <= k && Reach(g, hits, blocked, j + 1) == Reach(g, hits, blocked, j)
    ensures Reach(g, hits, blocked, k) == Reach(g, hits, blocked, j)
    decreases k - j
  {
    if j < k {
      ReachStops(g, hits, blocked, j, k - 1);
    }
  }

  /** p walks from a hit along valid links to existing, unblocked concepts. */
  ghost predicate Path(g: Graph, hits: set<string>, blocked: set<string>, p: seq<string>) {
    && p != [] && p[0] in hits
    && forall i :: 0 < i < |p| ==> p[i] !in blocked && Edge(g, p[i - 1], p[i])
  }

  /** Reach is what paths of at most k links reach: both directions. */
  lemma {:induction false} ReachIsPaths(g: Graph, hits: set<string>, blocked: set<string>, k: nat, t: string)
    ensures t in Reach(g, hits, blocked, k)
       <==> exists p :: Path(g, hits, blocked, p) && p[|p| - 1] == t && |p| - 1 <= k
  {
    if t in Reach(g, hits, blocked, k) {
      var p := PathTo(g, hits, blocked, k, t);
    }
    if p :| Path(g, hits, blocked, p) && p[|p| - 1] == t && |p| - 1 <= k {
      PathReaches(g, hits, blocked, p);
      ReachGrows(g, hits, blocked, |p| - 1, k);
    }
  }

  lemma {:induction false} PathTo(g: Graph, hits: set<string>, blocked: set<string>, k: nat, t: string) returns (p: seq<string>)
    requires t in Reach(g, hits, blocked, k)
    ensures Path(g, hits, blocked, p) && p[|p| - 1] == t && |p| - 1 <= k
  {
    if k == 0 {
      p := [t];
    } else if t in Reach(g, hits, blocked, k - 1) {
      p := PathTo(g, hits, blocked, k - 1, t);
    } else {
      var s :| s in Reach(g, hits, blocked, k - 1) && Edge(g, s, t);
      p := PathTo(g, hits, blocked, k - 1, s);
      LongerPath(g, hits, blocked, p, t);
      p := p + [t];
    }
  }

  lemma LongerPath(g: Graph, hits: set<string>, blocked: set<string>, p: seq<string>, t: string)
    requires Path(g, hits, blocked, p) && Edge(g, p[|p| - 1], t) && t !in blocked
    ensures Path(g, hits, blocked, p + [t])
  {
  }

  lemma {:induction false} PathReaches(g: Graph, hits: set<string>, blocked: set<string>, p: seq<string>)
    requires Path(g, hits, blocked, p)
    ensures p[|p| - 1] in Reach(g, hits, blocked, |p| - 1)
    decreases |p|
  {
    if |p| > 1 {
      var n := |p| - 1;
      PathReaches(g, hits, blocked, p[..n]);
      assert Edge(g, p[n - 1], p[n]);
    }
  }

  // ---- the expansion is exact --------------------------------------------------------------

  /** The matches are exactly what k hops reach, and each tag is the shortest distance. */
  ghost predicate Exact(g: Graph, hits: set<string>, blocked: set<string>, ms: seq<Match>, k: nat) {
    && DistinctMatches(ms)
    && Subjects(ms) == Reach(g, hits, blocked, k)
    && forall m :: m in ms ==> m.via <= k && AtDistance(g, hits, blocked, m.concept.subject, m.via)
  }

  /** Within via hops and not within fewer. */
  ghost predicate AtDistance(g: Graph, hits: set<string>, blocked: set<string>, s: string, via: nat) {
    s in Reach(g, hits, blocked, via) && (via > 0 ==> s !in Reach(g, hits, blocked, via - 1))
  }

  /** The frontier: the matches at the last distance, with the links the store gave them. */
  ghost predicate Frontier(g: Graph, hits: set<string>, blocked: set<string>, frontier: seq<Match>, k: nat) {
    forall s :: s in Subjects(frontier) <==>
      s in Reach(g, hits, blocked, k) && (k > 0 ==> s !in Reach(g, hits, blocked, k - 1))
  }

  ghost predicate FromGraph(g: Graph, ms: seq<Match>) {
    forall m :: m in ms ==> m.concept.subject in g && g[m.concept.subject] == m.concept
  }

  /** What one hop asks the store for, given what is seen. */
  lemma HopTargets(g: Graph, hits: set<string>, blocked: set<string>, frontier: seq<Match>, k: nat, t: string)
    requires FromGraph(g, frontier) && Frontier(g, hits, blocked, frontier, k)
    requires t in g && t !in blocked && t !in Reach(g, hits, blocked, k)
    ensures t in Reach(g, hits, blocked, k + 1) <==> Identifier(t) && exists m :: m in frontier && t in m.concept.links
  {
    if t in Reach(g, hits, blocked, k + 1) {
      var s :| s in Reach(g, hits, blocked, k) && Edge(g, s, t);
      assert s in Subjects(frontier);
      var m :| m in frontier && m.concept.subject == s;
    }
    if Identifier(t) && exists m :: m in frontier && t in m.concept.links {
      var m :| m in frontier && t in m.concept.links;
      assert m.concept.subject in Subjects(frontier);
      assert Edge(g, m.concept.subject, t);
    }
  }

  /** The state between hops: exact so far, the frontier at distance k, and what is seen. */
  ghost predicate HopState(g: Graph, hits: set<string>, blocked: set<string>, ms: seq<Match>, seen: set<string>, frontier: seq<Match>, k: nat) {
    && Exact(g, hits, blocked, ms, k) && FromGraph(g, ms)
    && Frontier(g, hits, blocked, frontier, k) && FromGraph(g, frontier)
    && seen == Reach(g, hits, blocked, k) + blocked
  }

  ghost predicate Asked(linked: seq<string>, seen: set<string>, frontier: seq<Match>) {
    forall t :: t in linked <==> t !in seen && Identifier(t) && exists m :: m in frontier && t in m.concept.links
  }

  ghost predicate Answered(g: Graph, linked: seq<string>, docs: seq<Concept>) {
    forall d :: d in docs <==> d.subject in linked && d.subject in g && d == g[d.subject]
  }

  /** The documents a hop reads are exactly the concepts one link further out. */
  lemma HopNames(g: Graph, hits: set<string>, blocked: set<string>, seen: set<string>, frontier: seq<Match>, k: nat,
                 linked: seq<string>, docs: seq<Concept>)
    requires WellFormed(g) && FromGraph(g, frontier) && Frontier(g, hits, blocked, frontier, k)
    requires seen == Reach(g, hits, blocked, k) + blocked
    requires Asked(linked, seen, frontier) && Answered(g, linked, docs)
    ensures Named(docs) == Reach(g, hits, blocked, k + 1) - Reach(g, hits, blocked, k)
    ensures Named(docs) !! seen
  {
    var near, far := Reach(g, hits, blocked, k), Reach(g, hits, blocked, k + 1);
    forall t ensures t in Named(docs) <==> t in far && t !in near {
      if t in g && t !in blocked && t !in near {
        HopTargets(g, hits, blocked, frontier, k, t);
        assert t in linked ==> g[t] in docs;
      }
    }
  }

  lemma JoinSubjects(ms: seq<Match>, next: seq<Match>)
    ensures Subjects(ms + next) == Subjects(ms) + Subjects(next)
  {
  }

  /** A hop whose read succeeded is exact. */
  lemma HopExact(g: Graph, hits: set<string>, blocked: set<string>, ms: seq<Match>, seen: set<string>, frontier: seq<Match>, k: nat,
                 linked: seq<string>, docs: seq<Concept>, next: seq<Match>)
    requires WellFormed(g) && HopState(g, hits, blocked, ms, seen, frontier, k)
    requires Asked(linked, seen, frontier) && Answered(g, linked, docs)
    requires DistinctMatches(ms + next) && Subjects(next) == Named(docs) - seen
    requires forall m :: m in next ==> m.via == k + 1 && m.concept in docs
    ensures HopState(g, hits, blocked, ms + next, seen + Named(docs), next, k + 1)
  {
    HopNames(g, hits, blocked, seen, frontier, k, linked, docs);
    JoinSubjects(ms, next);
    ReachGrows(g, hits, blocked, k, k + 1);
    assert Subjects(next) == Named(docs);
    forall m | m in next ensures AtDistance(g, hits, blocked, m.concept.subject, k + 1) {
      assert m.concept.subject in Subjects(next);
    }
    HopParts(g, hits, blocked, ms, next, k);
  }

  lemma HopParts(g: Graph, hits: set<string>, blocked: set<string>, ms: seq<Match>, next: seq<Match>, k: nat)
    requires Exact(g, hits, blocked, ms, k) && DistinctMatches(ms + next)
    requires Subjects(ms + next) == Reach(g, hits, blocked, k + 1)
    requires forall m :: m in next ==> m.via == k + 1 && AtDistance(g, hits, blocked, m.concept.subject, k + 1)
    ensures Exact(g, hits, blocked, ms + next, k + 1)
  {
    forall m | m in ms + next ensures m.via <= k + 1 && AtDistance(g, hits, blocked, m.concept.subject, m.via) {
      assert m in ms || m in next;
    }
  }

  ghost predicate NothingToFollow(g: Graph, seen: set<string>, frontier: seq<Match>) {
    forall t :: t in g && t !in seen && Identifier(t) ==> !exists m :: m in frontier && t in m.concept.links
  }

  lemma NothingAsked(g: Graph, seen: set<string>, frontier: seq<Match>)
    requires Asked([], seen, frontier)
    ensures NothingToFollow(g, seen, frontier)
  {
  }

  /** With nothing left to follow, the reach is complete. */
  lemma HopEmpty(g: Graph, hits: set<string>, blocked: set<string>, ms: seq<Match>, seen: set<string>, frontier: seq<Match>, k: nat, depth: nat)
    requires HopState(g, hits, blocked, ms, seen, frontier, k) && k <= depth
    requires NothingToFollow(g, seen, frontier)
    ensures Exact(g, hits, blocked, ms, depth)
  {
    forall t | t in Reach(g, hits, blocked, k + 1) ensures t in Reach(g, hits, blocked, k) {
      if t !in Reach(g, hits, blocked, k) {
        HopTargets(g, hits, blocked, frontier, k, t);
      }
    }
    ReachStops(g, hits, blocked, k, depth);
  }

  lemma SubjectsEmpty(ms: seq<Match>)
    ensures Subjects(ms) == {} <==> ms == []
  {
    if ms != [] {
      assert ms[0].concept.subject in Subjects(ms);
    }
  }

  /** One turn of the hop loop; `more` is false when there was nothing to follow. */
  method Hop(g: Graph, matches: seq<Match>, seen: set<string>, frontier: seq<Match>, hop: nat, failed: bool,
             ghost hits: set<string>, ghost blocked: set<string>)
    returns (matches': seq<Match>, seen': set<string>, frontier': seq<Match>, more: bool)
    requires WellFormed(g) && hop > 0 && HopState(g, hits, blocked, matches, seen, frontier, hop - 1)
    ensures matches <= matches'
    ensures !more || failed ==> matches' == matches
    ensures !more ==> NothingToFollow(g, seen, frontier)
    ensures more && !failed ==> HopState(g, hits, blocked, matches', seen', frontier', hop)
    ensures more && failed ==> frontier' == []
  {
    var linked := LinkTargets(frontier, seen);
    assert Asked(linked, seen, frontier);
    if linked == [] {
      NothingAsked(g, seen, frontier);
      return matches, seen, frontier, false;
    }
    more := true;
    var docs := Fetch(g, linked, failed);
    matches', seen', frontier' := AddAll(matches, seen, docs, hop);
    HopDone(g, hits, blocked, matches, seen, frontier, hop - 1, linked, docs, frontier', failed);
  }

  lemma HopDone(g: Graph, hits: set<string>, blocked: set<string>, ms: seq<Match>, seen: set<string>, frontier: seq<Match>, k: nat,
                linked: seq<string>, docs: seq<Concept>, next: seq<Match>, failed: bool)
    requires WellFormed(g) && HopState(g, hits, blocked, ms, seen, frontier, k)
    requires Asked(linked, seen, frontier) && (if failed then docs == [] else Answered(g, linked, docs))
    requires DistinctMatches(ms + next) && Subjects(next) == Named(docs) - seen
    requires forall m :: m in next ==> m.via == k + 1 && m.concept in docs
    ensures !failed ==> HopState(g, hits, blocked, ms + next, seen + Named(docs), next, k + 1)
    ensures failed ==> next == []
  {
    if failed {
      SubjectsEmpty(next);
    } else {
      HopExact(g, hits, blocked, ms, seen, frontier, k, linked, docs, next);
    }
  }

  /**
   * The hop loop of run_memory_search, where fails says which hop's store read fails. `done` hops
   * were expanded exactly: the whole depth, unless the next read failed, which leaves an empty
   * frontier to follow.
   */
  method Expand(g: Graph, hits: seq<Match>, seen: set<string>, depth: nat, fails: nat -> bool)
    returns (matches: seq<Match>, ghost done: nat)
    requires WellFormed(g) && DistinctMatches(hits) && FromGraph(g, hits) && Subjects(hits) <= seen
    requires forall m :: m in hits ==> m.via == 0
    ensures hits <= matches && done <= depth && (done < depth ==> fails(done + 1))
    ensures Exact(g, Subjects(hits), seen - Subjects(hits), matches, done)
  {
    ghost var near, blocked := Subjects(hits), seen - Subjects(hits);
    matches := hits;
    var seenNow, frontier := seen, hits;
    done := 0;
    for hop := 1 to depth + 1
      invariant hits <= matches && done == hop - 1
      invariant HopState(g, near, blocked, matches, seenNow, frontier, done)
    {
      ghost var seenBefore, from_ := seenNow, frontier;
      var more;
      matches, seenNow, frontier, more := Hop(g, matches, seenNow, frontier, hop, fails(hop), near, blocked);
      if !more {
        HopEmpty(g, near, blocked, matches, seenBefore, from_, done, depth);
        done := depth;
        return;
      }
      if fails(hop) {
        return;
      }
      done := hop;
    }
  }

  // ---- the whole retrieval -----------------------------------------------------------------

  const MAX_LIMIT: nat := 50

  function Clamp(x: int, lo: nat, hi: nat): (r: nat)
    requires lo <= hi
    ensures lo <= r <= hi && (lo <= x <= hi ==> r == x)
  {
    if x < lo then lo else if x > hi then hi else x
  }

  /** matches[:limit] */
  function Cut(ms: seq<Match>, limit: nat): (r: seq<Match>)
    ensures r <= ms && |r| <= limit && (|ms| <= limit ==> r == ms)
  {
    if |ms| <= limit then ms else ms[..limit]
  }

  lemma CutKeeps(g: Graph, ms: seq<Match>, limit: nat)
    requires DistinctMatches(ms) && FromGraph(g, ms)
    ensures DistinctMatches(Cut(ms, limit)) && FromGraph(g, Cut(ms, limit)) && Subjects(Cut(ms, limit)) <= Subjects(ms)
  {
    assert forall m :: m in Cut(ms, limit) ==> m in ms;
  }

  predicate InDataverse(m: Match, dataverse: Option<string>) {
    dataverse.None? || StartsWith(m.concept.subject, dataverse.value)
  }

  /** [m for m in matches if m is in the dataverse] */
  function Scoped(ms: seq<Match>, dataverse: Option<string>): (r: seq<Match>)
    ensures forall m :: m in r <==> m in ms && InDataverse(m, dataverse)
    ensures DistinctMatches(ms) ==> DistinctMatches(r)
  {
    if ms == [] then []
    else
      DistinctTail(ms);
      if InDataverse(ms[0], dataverse) then [ms[0]] + Scoped(ms[1..], dataverse)
      else Scoped(ms[1..], dataverse)
  }

  lemma DistinctTail(ms: seq<Match>)
    requires ms != []
    ensures DistinctMatches(ms) ==>
      DistinctMatches(ms[1..]) && forall m :: m in ms[1..] ==> m.concept.subject != ms[0].concept.subject
  {
  }

  /** The blend: key hits first, then full-text hits not already there, then the dataverse scope. */
  method Blend(g: Graph, keyDocs: seq<Concept>, textDocs: seq<Concept>, dataverse: Option<string>) returns (found: seq<Match>)
    requires WellFormed(g) && forall d :: d in keyDocs || d in textDocs ==> d.subject in g && g[d.subject] == d
    ensures DistinctMatches(found) && FromGraph(g, found) && forall m :: m in found ==> m.via == 0
    ensures forall s :: s in Subjects(found) <==>
      (exists d :: (d in keyDocs || d in textDocs) && d.subject == s && UnderPrefix(s, dataverse))
    ensures found == Scoped(Fresh(keyDocs, {}, 0) + Fresh(textDocs, Named(keyDocs), 0), dataverse)
  {
    var all := Collected(keyDocs, textDocs);
    found := Scoped(all, dataverse);
    ScopedSubjects(g, keyDocs, textDocs, all, dataverse);
    forall d: Concept ensures InDataverse(Match(d, 0), dataverse) <==> UnderPrefix(d.subject, dataverse) {
      UnderPrefixExact(Match(d, 0), dataverse);
    }
  }

  /** Without a dataverse every subject counts, else those whose first characters are its name. */
  predicate UnderPrefix(subject: string, dataverse: Option<string>) {
    match dataverse
    case None => true
    case Some(d) => |d| <= |subject| && subject[..|d|] == d
  }

  lemma UnderPrefixExact(m: Match, dataverse: Option<string>)
    ensures InDataverse(m, dataverse) <==> UnderPrefix(m.concept.subject, dataverse)
  {
  }

  /** The two passes before the scope filter. */
  method Collected(keyDocs: seq<Concept>, textDocs: seq<Concept>) returns (all: seq<Match>)
    ensures all == Fresh(keyDocs, {}, 0) + Fresh(textDocs, Named(keyDocs), 0)
    ensures DistinctMatches(all) && Subjects(all) == Named(keyDocs) + Named(textDocs)
    ensures forall m :: m in all ==> m.via == 0 && (m.concept in keyDocs || m.concept in textDocs)
  {
    var keyed, seen, added := AddAll([], {}, keyDocs, 0);
    assert keyed == added && seen == Named(keyDocs);
    all, seen, added := AddAll(keyed, seen, textDocs, 0);
    JoinSubjects(keyed, added);
  }

  lemma ScopedSubjects(g: Graph, keyDocs: seq<Concept>, textDocs: seq<Concept>, all: seq<Match>, dataverse: Option<string>)
    requires WellFormed(g) && forall d :: d in keyDocs || d in textDocs ==> d.subject in g && g[d.subject] == d
    requires Subjects(all) == Named(keyDocs) + Named(textDocs)
    requires forall m :: m in all ==> m.via == 0 && (m.concept in keyDocs || m.concept in textDocs)
    ensures FromGraph(g, Scoped(all, dataverse))
    ensures forall s :: s in Subjects(Scoped(all, dataverse)) <==>
      (exists d :: (d in keyDocs || d in textDocs) && d.subject == s && InDataverse(Match(d, 0), dataverse))
  {
    var found := Scoped(all, dataverse);
    forall d | (d in keyDocs || d in textDocs) && InDataverse(Match(d, 0), dataverse) ensures d.subject in Subjects(found) {
      assert d.subject in Named(keyDocs) + Named(textDocs);
      var m :| m in all && m.concept.subject == d.subject;
      assert m == Match(d, 0) && m in found;
    }
    forall s | s in Subjects(found)
      ensures exists d :: (d in keyDocs || d in textDocs) && d.subject == s && InDataverse(Match(d, 0), dataverse)
    {
      var m :| m in found && m.concept.subject == s;
      assert m == Match(m.concept, 0);
    }
  }

  function Depth(followLinks: bool, linkDepth: int): nat {
    if followLinks then Clamp(linkDepth, 1, MAX_LINK_DEPTH) else 0
  }

  /** At least one hit and at most fifty are kept, the first ones; one hop is followed, or two, if any is asked for. */
  lemma BoundsExact(found: seq<Match>, limit: int, followLinks: bool, linkDepth: int)
    ensures var hits := Cut(found, Clamp(limit, 1, MAX_LIMIT));
      && hits == found[..|hits|] && (hits == found || |hits| == limit || (limit < 1 && |hits| == 1) || (limit > 50 && |hits| == 50))
      && |hits| <= 50 && (limit >= 1 ==> |hits| <= limit)
    ensures Depth(followLinks, linkDepth) == if !followLinks then 0 else if linkDepth <= 1 then 1 else 2
  {
  }

  /**
   * The blend's hits, cut at the limit, and their link neighbourhood. Hits lost to the cut stay
   * seen: they are neither returned nor stepped on. CutExact says when the answer is exact
   * reachability all the same; it always is when nothing is cut.
   */
  method SearchLinks(g: Graph, found: seq<Match>, limit: int, followLinks: bool, linkDepth: int, fails: nat -> bool)
    returns (matches: seq<Match>, ghost done: nat)
    requires WellFormed(g) && DistinctMatches(found) && FromGraph(g, found) && forall m :: m in found ==> m.via == 0
    ensures var hits := Cut(found, Clamp(limit, 1, MAX_LIMIT));
      && hits <= matches
      && done <= Depth(followLinks, linkDepth) && (done < Depth(followLinks, linkDepth) ==> hits == [] || fails(done + 1))
      && Exact(g, Subjects(hits), Subjects(found) - Subjects(hits), matches, done)
    ensures |found| <= Clamp(limit, 1, MAX_LIMIT) ==> Exact(g, Subjects(found), {}, matches, done)
    ensures Cut(found, Clamp(limit, 1, MAX_LIMIT)) <= matches
    ensures found != [] && |found| <= Clamp(limit, 1, MAX_LIMIT) && (forall hop :: !fails(hop)) ==>
      Exact(g, Subjects(found), {}, matches, Depth(followLinks, linkDepth))
  {
    var hits := Cut(found, Clamp(limit, 1, MAX_LIMIT));
    CutKeeps(g, found, Clamp(limit, 1, MAX_LIMIT));
    assert Subjects(found) - Subjects(found) == {};
    matches, done := hits, 0;
    if followLinks && hits != [] {
      matches, done := Expand(g, hits, Subjects(found), Clamp(linkDepth, 1, MAX_LINK_DEPTH), fails);
    }
  }

  /** What Exact means for a reader: distinct subjects, and via is the length of a shortest path. */
  lemma ExactMeans(g: Graph, hits: set<string>, blocked: set<string>, ms: seq<Match>, k: nat, t: string)
    requires Exact(g, hits, blocked, ms, k)
    ensures (exists m :: m in ms && m.concept.subject == t)
       <==> exists p :: Path(g, hits, blocked, p) && p[|p| - 1] == t && |p| - 1 <= k
    ensures forall m :: m in ms && m.concept.subject == t ==>
      && (exists p :: Path(g, hits, blocked, p) && p[|p| - 1] == t && |p| - 1 == m.via)
      && (forall p :: Path(g, hits, blocked, p) && p[|p| - 1] == t ==> |p| - 1 >= m.via)
  {
    ReachIsPaths(g, hits, blocked, k, t);
    forall m | m in ms && m.concept.subject == t
      ensures exists p :: Path(g, hits, blocked, p) && p[|p| - 1] == t && |p| - 1 == m.via
      ensures forall p :: Path(g, hits, blocked, p) && p[|p| - 1] == t ==> |p| - 1 >= m.via
    {
      ShortestTag(g, hits, blocked, t, m.via);
    }
  }

  // ---- hits lost to the cut -------------------------------------------------------------------

  lemma {:induction false} BlockedReach(g: Graph, hits: set<string>, blocked: set<string>, k: nat)
    requires hits !! blocked
    ensures Reach(g, hits, blocked, k) !! blocked && Reach(g, hits, blocked, k) <= Reach(g, hits, {}, k)
  {
    if k > 0 {
      BlockedReach(g, hits, blocked, k - 1);
    }
  }

  lemma {:induction false} FreeReach(g: Graph, hits: set<string>, blocked: set<string>, k: nat)
    requires hits !! blocked && Reach(g, hits, {}, k) !! blocked
    ensures Reach(g, hits, blocked, k) == Reach(g, hits, {}, k)
  {
    if k > 0 {
      FreeReach(g, hits, blocked, k - 1);
    }
  }

  /** Blocking the cut hits changes nothing iff none of them lies within k links of a kept one. */
  lemma CutReach(g: Graph, hits: set<string>, blocked: set<string>, k: nat)
    requires hits !! blocked
    ensures Reach(g, hits, blocked, k) == Reach(g, hits, {}, k) <==> Reach(g, hits, {}, k) !! blocked
  {
    BlockedReach(g, hits, blocked, k);
    if Reach(g, hits, {}, k) !! blocked {
      FreeReach(g, hits, blocked, k);
    }
  }

  /** The answer of a cut search is exact, subjects and hop tags, iff no cut hit lies within reach of a kept one. */
  lemma CutExact(g: Graph, hits: set<string>, blocked: set<string>, ms: seq<Match>, k: nat)
    requires hits !! blocked && Exact(g, hits, blocked, ms, k)
    ensures Exact(g, hits, {}, ms, k) <==> Reach(g, hits, {}, k) !! blocked
  {
    CutReach(g, hits, blocked, k);
    if Reach(g, hits, {}, k) !! blocked {
      forall m | m in ms ensures AtDistance(g, hits, {}, m.concept.subject, m.via) {
        StillAtDistance(g, hits, blocked, m.concept.subject, m.via, k);
      }
    }
  }

  lemma SameDistance(g: Graph, hits: set<string>, blocked: set<string>, s: string, via: nat)
    requires Reach(g, hits, blocked, via) == Reach(g, hits, {}, via)
    requires via > 0 ==> Reach(g, hits, blocked, via - 1) == Reach(g, hits, {}, via - 1)
    ensures AtDistance(g, hits, blocked, s, via) <==> AtDistance(g, hits, {}, s, via)
  {
  }

  lemma StillAtDistance(g: Graph, hits: set<string>, blocked: set<string>, s: string, via: nat, k: nat)
    requires hits !! blocked && Reach(g, hits, {}, k) !! blocked && via <= k && AtDistance(g, hits, blocked, s, via)
    ensures AtDistance(g, hits, {}, s, via)
  {
    SameReach(g, hits, blocked, via, k);
    SameReachBelow(g, hits, blocked, via, k);
    SameDistance(g, hits, blocked, s, via);
  }

  lemma SameReachBelow(g: Graph, hits: set<string>, blocked: set<string>, j: nat, k: nat)
    requires hits !! blocked && Reach(g, hits, {}, k) !! blocked && j <= k
    ensures j > 0 ==> Reach(g, hits, blocked, j - 1) == Reach(g, hits, {}, j - 1)
  {
    if j > 0 {
      SameReach(g, hits, blocked, j - 1, k);
    }
  }

  lemma SameReach(g: Graph, hits: set<string>, blocked: set<string>, j: nat, k: nat)
    requires hits !! blocked && Reach(g, hits, {}, k) !! blocked && j <= k
    ensures Reach(g, hits, blocked, j) == Reach(g, hits, {}, j)
  {
    ReachGrows(g, hits, {}, j, k);
    FreeReach(g, hits, blocked, j);
  }

  lemma ShortestTag(g: Graph, hits: set<string>, blocked: set<string>, t: string, via: nat)
    requires AtDistance(g, hits, blocked, t, via)
    ensures exists p :: Path(g, hits, blocked, p) && p[|p| - 1] == t && |p| - 1 == via
    ensures forall p :: Path(g, hits, blocked, p) && p[|p| - 1] == t ==> |p| - 1 >= via
  {
    var q := PathTo(g, hits, blocked, via, t);
    forall p | Path(g, hits, blocked, p) && p[|p| - 1] == t ensures |p| - 1 >= via {
      if |p| - 1 < via {
        PathReaches(g, hits, blocked, p);
        ReachGrows(g, hits, blocked, |p| - 1, via - 1);
      }
    }
  }
}
