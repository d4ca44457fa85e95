// permits.py: the two-limit permit pool, under any interleaving of takes and releases.

module Permits {
  import opened Basics

  const UNATTRIBUTED_PRINCIPAL := "unattributed"

  /** who = principal or UNATTRIBUTED_PRINCIPAL */
  function Who(principal: Option<string>): string {
    if principal.GetOr("") == "" then UNATTRIBUTED_PRINCIPAL else principal.value
  }

  /** Named callers have their own permits; all callers without a name share those of one reserved name. */
  lemma WhoExact(p: Option<string>, q: Option<string>)
    ensures p.Some? && p.value != "" ==> Who(p) == p.value
    ensures p.GetOr("") == "" && q.GetOr("") == "" ==> Who(p) == Who(q)
    ensures p.GetOr("") == "" && q.GetOr("") != "" && q != Some("unattributed") ==> Who(p) != Who(q)
  {
  }

  /** The value of a pool: its two counters. */
  datatype Counters = Counters(inUse: int, held: map<string, int>)

  const Empty := Counters(0, map[])

  function Held(c: Counters, who: string): int {
    if who in c.held then c.held[who] else 0
  }

  predicate Refuses(c: Counters, capacity: int, share: int, who: string) {
    c.inUse >= capacity || Held(c, who) >= share
  }

  function Taken(c: Counters, who: string): Counters {
    Counters(c.inUse + 1, c.held[who := Held(c, who) + 1])
  }

  /** One less; a principal is dropped at zero, and one not tracked counts as holding one. */
  function Given(c: Counters, who: string): Counters {
    var remaining := (if who in c.held then c.held[who] else 1) - 1;
    Counters(c.inUse - 1, if remaining > 0 then c.held[who := remaining] else c.held - {who})
  }

  /** A release undoes its take. */
  lemma TakeGive(c: Counters, who: string)
    requires who in c.held ==> c.held[who] >= 1
    ensures Given(Taken(c, who), who) == c
  {
    if who in c.held {
      assert c.held[who := c.held[who]] == c.held;
    } else {
      assert c.held[who := 1] - {who} == c.held;
    }
  }

  class PermitPool {
    const capacity: int
    const perPrincipal: int
    var inUse: int
    var held: map<string, int>

    function Value(): Counters
      reads this
    {
      Counters(inUse, held)
    }

    constructor (capacity: int, perPrincipal: int)
      ensures this.capacity == capacity && this.perPrincipal == perPrincipal && Value() == Empty
    {
      this.capacity, this.perPrincipal := capacity, perPrincipal;
      inUse, held := 0, map[];
    }

    /** __init__: a capacity below one is a ValueError; a share is clamped to the pool, and 0 or None is no share. */
    static method Create(capacity: int, perPrincipal: Option<int>) returns (pool: Result<PermitPool>)
      ensures pool.Err? <==> capacity < 1
      ensures pool.Err? ==> pool.error == BadValue
      ensures pool.Ok? ==>
        && fresh(pool.value) && pool.value.Value() == Empty && pool.value.capacity == capacity
        && pool.value.perPrincipal == Share(capacity, perPrincipal)
    {
      if capacity < 1 {
        return Err(BadValue);
      }
      var p := new PermitPool(capacity, Share(capacity, perPrincipal));
      pool := Ok(p);
    }

    /** _take */
    method Take(who: string) returns (r: Result<()>)
      modifies this`inUse, this`held
      ensures r == if Refuses(old(Value()), capacity, perPrincipal, who) then Err(NotReady) else Ok(())
      ensures Value() == if r.Ok? then Taken(old(Value()), who) else old(Value())
    {
      if inUse >= capacity {
        return Err(NotReady);
      }
      if (if who in held then held[who] else 0) >= perPrincipal {
        return Err(NotReady);
      }
      inUse := inUse + 1;
      held := held[who := (if who in held then held[who] else 0) + 1];
      r := Ok(());
    }

    /** _give_back */
    method GiveBack(who: string)
      modifies this`inUse, this`held
      ensures Value() == Given(old(Value()), who)
    {
      inUse := inUse - 1;
      var remaining := (if who in held then held[who] else 1) - 1;
      if remaining > 0 {
        held := held[who := remaining];
      } else {
        held := held - {who};
      }
    }
  }

  /** self._per_principal */
  function Share(capacity: int, perPrincipal: Option<int>): (share: int)
    ensures share <= capacity
    ensures perPrincipal.GetOr(0) == 0 ==> share == capacity
    ensures perPrincipal.GetOr(0) != 0 ==> share <= perPrincipal.value && (share == perPrincipal.value || share == capacity)
  {
    if perPrincipal.GetOr(0) == 0 then capacity
    else if perPrincipal.value < capacity then perPrincipal.value else capacity
  }

  // ---- interleavings ---------------------------------------------------------------------

  /** A body between acquire's entry and its exit, by the number of the acquire that opened it. */
  type Holders = map<nat, string>

  /** acquire enters under a fresh number; a live holder exits. In any order. */
  datatype Move = Enter(id: nat, principal: Option<string>) | Exit(id: nat)

  datatype World = World(counters: Counters, holders: Holders, used: set<nat>)

  predicate Possible(w: World, m: Move) {
    match m
    case Enter(id, _) => id !in w.used
    case Exit(id) => id in w.holders
  }

  function Step(w: World, m: Move, capacity: int, share: int): World
    requires Possible(w, m)
  {
    match m
    case Enter(id, principal) =>
      var who := Who(principal);
      if Refuses(w.counters, capacity, share, who) then World(w.counters, w.holders, w.used + {id})
      else World(Taken(w.counters, who), w.holders[id := who], w.used + {id})
    case Exit(id) => World(Given(w.counters, w.holders[id]), w.holders - {id}, w.used)
  }

  ghost predicate PossibleRun(w: World, run: seq<Move>, capacity: int, share: int)
    decreases |run|
  {
    run == [] || (Possible(w, run[0]) && PossibleRun(Step(w, run[0], capacity, share), run[1..], capacity, share))
  }

  function Ran(w: World, run: seq<Move>, capacity: int, share: int): World
    requires PossibleRun(w, run, capacity, share)
    decreases |run|
  {
    if run == [] then w else Ran(Step(w, run[0], capacity, share), run[1..], capacity, share)
  }

  /** The live holders of a principal. */
  function Of(holders: Holders, who: string): set<nat> {
    set id | id in holders && holders[id] == who
  }

  /** The counters are exactly what the live holders make them. */
  ghost predicate Exact(w: World, capacity: int, share: int) {
    && w.holders.Keys <= w.used
    && w.counters.inUse == |w.holders| && w.counters.inUse <= capacity
    && (forall p :: p in w.counters.held <==> p in w.holders.Values)
    && (forall p :: p in w.counters.held ==> 1 <= w.counters.held[p] <= share)
    && forall p :: Held(w.counters, p) == |Of(w.holders, p)|
  }

  lemma Entered(holders: Holders, id: nat, who: string, p: string)
    requires id !in holders
    ensures |Of(holders[id := who], p)| == |Of(holders, p)| + (if p == who then 1 else 0)
    ensures |holders[id := who]| == |holders| + 1
  {
    assert Of(holders[id := who], p) == if p == who then Of(holders, p) + {id} else Of(holders, p);
  }

  lemma Left(holders: Holders, id: nat, p: string)
    requires id in holders
    ensures |Of(holders - {id}, p)| == |Of(holders, p)| - (if p == holders[id] then 1 else 0)
    ensures |holders - {id}| == |holders| - 1
  {
    assert Of(holders - {id}, p) == if p == holders[id] then Of(holders, p) - {id} else Of(holders, p);
    assert holders == (holders - {id})[id := holders[id]];
  }

  lemma Tracked(holders: Holders, p: string)
    ensures p in holders.Values <==> Of(holders, p) != {}
    ensures p in holders.Values <==> |Of(holders, p)| >= 1
  {
    if p in holders.Values {
      var id :| id in holders && holders[id] == p;
      assert id in Of(holders, p);
    }
  }

  lemma EnterKeeps(w: World, id: nat, who: string, capacity: int, share: int)
    requires Exact(w, capacity, share) && id !in w.used && !Refuses(w.counters, capacity, share, who)
    ensures Exact(World(Taken(w.counters, who), w.holders[id := who], w.used + {id}), capacity, share)
  {
    var after := World(Taken(w.counters, who), w.holders[id := who], w.used + {id});
    forall p ensures Held(after.counters, p) == |Of(after.holders, p)|
             ensures p in after.counters.held <==> p in after.holders.Values
    {
      Entered(w.holders, id, who, p);
      Tracked(w.holders, p);
      Tracked(after.holders, p);
    }
    Entered(w.holders, id, who, who);
  }

  lemma ExitKeeps(w: World, id: nat, capacity: int, share: int)
    requires Exact(w, capacity, share) && id in w.holders
    ensures Exact(World(Given(w.counters, w.holders[id]), w.holders - {id}, w.used), capacity, share)
  {
    var who := w.holders[id];
    var after := World(Given(w.counters, who), w.holders - {id}, w.used);
    Left(w.holders, id, who);
    assert who in w.holders.Values;
    forall p ensures Held(after.counters, p) == |Of(after.holders, p)|
             ensures p in after.counters.held <==> p in after.holders.Values
    {
      Left(w.holders, id, p);
      Tracked(w.holders, p);
      Tracked(after.holders, p);
    }
  }

  lemma {:induction false} RunStaysExact(w: World, run: seq<Move>, capacity: int, share: int)
    requires Exact(w, capacity, share) && PossibleRun(w, run, capacity, share)
    ensures Exact(Ran(w, run, capacity, share), capacity, share)
    decreases |run|
  {
    if run != [] {
      var next := Step(w, run[0], capacity, share);
      match run[0] {
        case Enter(id, principal) =>
          if !Refuses(w.counters, capacity, share, Who(principal)) {
            EnterKeeps(w, id, Who(principal), capacity, share);
          }
        case Exit(id) =>
          ExitKeeps(w, id, capacity, share);
      }
      RunStaysExact(next, run[1..], capacity, share);
    }
  }

  /**
   * Whatever the interleaving: the pool counts its live holders, in total and per principal,
   * within both limits; it refuses iff it is full of live holders or the caller has its share
   * of them; and once every holder has left nothing is counted or tracked.
   */
  lemma EveryInterleaving(run: seq<Move>, capacity: int, perPrincipal: Option<int>, who: string)
    requires capacity >= 1
    requires PossibleRun(World(Empty, map[], {}), run, capacity, Share(capacity, perPrincipal))
    ensures var share := Share(capacity, perPrincipal);
            var w := Ran(World(Empty, map[], {}), run, capacity, share);
            && w.counters.inUse == |w.holders| <= capacity
            && w.counters.inUse == SumOf(w.counters.held)
            && Held(w.counters, who) == |Of(w.holders, who)|
            && (who in w.counters.held ==> 1 <= w.counters.held[who] <= share)
            && (Refuses(w.counters, capacity, share, who) <==> |w.holders| == capacity || |Of(w.holders, who)| >= share)
            && (w.holders == map[] ==> w.counters == Empty)
  {
    var share := Share(capacity, perPrincipal);
    var start := World(Empty, map[], {});
    forall p ensures Held(start.counters, p) == |Of(start.holders, p)| {
      assert Of(map[], p) == {};
    }
    RunStaysExact(start, run, capacity, share);
    var w := Ran(start, run, capacity, share);
    HoldersSum(w.holders, w.counters.held);
    if w.holders == map[] {
      assert w.counters.held == map[];
    }
  }

  // ---- the sum of the shares ---------------------------------------------------------------

  ghost function SumOf(held: map<string, int>): int
    decreases |held|
  {
    if held == map[] then 0
    else
      var p :| p in held;
      OneFewer(held, p);
      held[p] + SumOf(held - {p})
  }

  /** Holders split by principal: the tracked counts add up to all of them. */
  lemma {:induction false} HoldersSum(holders: Holders, held: map<string, int>)
    requires forall p :: p in held <==> p in holders.Values
    requires forall p :: p in held ==> held[p] == |Of(holders, p)|
    ensures SumOf(held) == |holders|
    decreases |held|
  {
    if held == map[] {
      NoValues(holders);
    } else {
      var p: string :| p in held && SumOf(held) == held[p] + SumOf(held - {p});
      var others := holders - Of(holders, p);
      forall q ensures q in held - {p} <==> q in others.Values
               ensures q in held - {p} ==> (held - {p})[q] == |Of(others, q)|
      {
        OthersCount(holders, p, q);
      }
      OneFewer(held, p);
      HoldersSum(others, held - {p});
      WithoutOf(holders, p);
    }
  }

  lemma OneFewer(held: map<string, int>, p: string)
    requires p in held
    ensures |held - {p}| < |held|
  {
    assert held == (held - {p})[p := held[p]];
  }

  /** A principal's holders and the others are all of them. */
  lemma WithoutOf(holders: Holders, p: string)
    ensures |holders| == |Of(holders, p)| + |holders - Of(holders, p)|
  {
    var others := holders - Of(holders, p);
    assert holders.Keys == others.Keys + Of(holders, p);
    assert |holders| == |holders.Keys| && |others| == |others.Keys|;
  }

  lemma OthersCount(holders: Holders, p: string, q: string)
    ensures q in (holders - Of(holders, p)).Values <==> q != p && q in holders.Values
    ensures q != p ==> Of(holders - Of(holders, p), q) == Of(holders, q)
  {
    OthersOf(holders, p, q);
    Tracked(holders - Of(holders, p), q);
    Tracked(holders, q);
  }

  lemma NoValues(holders: Holders)
    ensures holders.Values == {} ==> holders == map[]
  {
    if holders != map[] {
      var id :| id in holders;
      assert holders[id] in holders.Values;
    }
  }

  lemma OthersOf(holders: Holders, p: string, q: string)
    ensures Of(holders - Of(holders, p), q) == if q == p then {} else Of(holders, q)
  {
  }
}
