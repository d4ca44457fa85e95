// The order Python's sorted() uses on strings and pairs of strings, and why a sorted listing is unique.

module Ordering {
  import opened Basics

  /** Lexicographic: a comes no later than b. */
  predicate Before(a: string, b: string) {
    a == [] || (b != [] && (a[0] < b[0] || (a[0] == b[0] && Before(a[1..], b[1..]))))
  }

  /** a is b's beginning, or the two agree up to a place where a has the smaller character. */
  predicate NoLater(a: string, b: string) {
    || (|a| <= |b| && b[..|a|] == a)
    || exists i :: 0 <= i < |a| && i < |b| && a[..i] == b[..i] && a[i] < b[i]
  }

  lemma {:induction false} BeforeExact(a: string, b: string)
    ensures Before(a, b) <==> NoLater(a, b)
  {
    if a != [] && b != [] {
      BeforeExact(a[1..], b[1..]);
      if a[0] == b[0] {
        NoLaterCons(a, b);
      } else if a[0] < b[0] {
        assert a[..0] == b[..0];
      }
    }
  }

  lemma NoLaterCons(a: string, b: string)
    requires a != [] && b != [] && a[0] == b[0]
    ensures NoLater(a, b) <==> NoLater(a[1..], b[1..])
  {
    assert a == [a[0]] + a[1..] && b == [b[0]] + b[1..];
    if |a| <= |b| {
      assert b[..|a|] == [b[0]] + b[1..][..|a| - 1];
    }
    if i :| 0 <= i < |a| && i < |b| && a[..i] == b[..i] && a[i] < b[i] {
      assert i > 0 && a[1..][..i - 1] == a[..i][1..] == b[..i][1..] == b[1..][..i - 1];
      assert a[1..][i - 1] < b[1..][i - 1];
    }
    if j :| 0 <= j < |a[1..]| && j < |b[1..]| && a[1..][..j] == b[1..][..j] && a[1..][j] < b[1..][j] {
      assert a[..j + 1] == [a[0]] + a[1..][..j] && b[..j + 1] == [b[0]] + b[1..][..j];
      assert a[j + 1] < b[j + 1];
    }
  }

  type Pair = (string, string)

  predicate PairBefore(a: Pair, b: Pair) {
    if a.0 == b.0 then Before(a.1, b.1) else Before(a.0, b.0)
  }

  lemma {:induction false} BeforeTotal(a: string, b: string)
    ensures Before(a, b) || Before(b, a)
    ensures Before(a, b) && Before(b, a) ==> a == b
  {
    if a != [] && b != [] {
      BeforeTotal(a[1..], b[1..]);
      assert a == [a[0]] + a[1..] && b == [b[0]] + b[1..];
    }
  }

  lemma {:induction false} BeforeTransitive(a: string, b: string, c: string)
    requires Before(a, b) && Before(b, c)
    ensures Before(a, c)
  {
    if a != [] && a[0] == b[0] && b[0] == c[0] {
      BeforeTransitive(a[1..], b[1..], c[1..]);
    }
  }

  lemma PairTotal(a: Pair, b: Pair)
    ensures PairBefore(a, b) || PairBefore(b, a)
    ensures PairBefore(a, b) && PairBefore(b, a) ==> a == b
  {
    BeforeTotal(a.0, b.0);
    BeforeTotal(a.1, b.1);
  }

  lemma PairTransitive(a: Pair, b: Pair, c: Pair)
    requires PairBefore(a, b) && PairBefore(b, c)
    ensures PairBefore(a, c)
  {
    BeforeTotal(a.0, b.0);
    BeforeTotal(b.0, c.0);
    if a.0 == b.0 == c.0 {
      BeforeTransitive(a.1, b.1, c.1);
    } else {
      BeforeTransitive(a.0, b.0, c.0);
    }
  }

  ghost predicate SortedPairs(ps: seq<Pair>) {
    forall i, j :: 0 <= i < j < |ps| ==> PairBefore(ps[i], ps[j])
  }

  /** Where p belongs: after everything before it. */
  function Rank(ps: seq<Pair>, p: Pair): (k: nat)
    ensures k <= |ps|
    ensures forall i :: 0 <= i < k ==> PairBefore(ps[i], p)
    ensures k < |ps| ==> !PairBefore(ps[k], p)
  {
    if ps == [] || !PairBefore(ps[0], p) then 0 else 1 + Rank(ps[1..], p)
  }

  lemma PlaceKeeps(ps: seq<Pair>, p: Pair)
    requires SortedPairs(ps) && Distinct(ps) && p !in ps
    ensures var k := Rank(ps, p); SortedPairs(ps[..k] + [p] + ps[k..]) && Distinct(ps[..k] + [p] + ps[k..])
  {
    var k := Rank(ps, p);
    StillDistinct(ps, k, p);
    forall j | k <= j < |ps| ensures PairBefore(p, ps[j]) {
      PairTotal(ps[k], p);
      if k < j {
        PairTransitive(p, ps[k], ps[j]);
      }
    }
  }

  /** sorted(d.items()) by key: the keys of a dict, in order. */
  method SortedKeys(keys: set<Pair>) returns (ps: seq<Pair>)
    ensures SortedPairs(ps) && Distinct(ps) && forall p :: p in ps <==> p in keys
  {
    var todo := keys;
    ps := [];
    while todo != {}
      invariant todo <= keys && SortedPairs(ps) && Distinct(ps)
      invariant forall p :: p in ps <==> p in keys && p !in todo
      decreases todo
    {
      var p :| p in todo;
      var k := Rank(ps, p);
      PlaceKeeps(ps, p);
      assert forall q :: q in ps <==> q in ps[..k] || q in ps[k..] by { assert ps == ps[..k] + ps[k..]; }
      ps := ps[..k] + [p] + ps[k..];
      todo := todo - {p};
    }
  }

  /** A set has one sorted listing. */
  lemma {:induction false} SortedUnique(a: seq<Pair>, b: seq<Pair>)
    requires SortedPairs(a) && SortedPairs(b) && Distinct(a) && Distinct(b)
    requires forall p :: p in a <==> p in b
    ensures a == b
  {
    AlsoNonempty(a, b);
    AlsoNonempty(b, a);
    if a != [] {
      HeadsAgree(a, b);
      forall p ensures p in a[1..] <==> p in b[1..] {
        InTail(a, p);
        InTail(b, p);
      }
      SortedUnique(a[1..], b[1..]);
      assert a == [a[0]] + a[1..] && b == [b[0]] + b[1..];
    }
  }

  lemma AlsoNonempty<T>(a: seq<T>, b: seq<T>)
    requires forall p :: p in a ==> p in b
    ensures a != [] ==> b != []
  {
    if a != [] {
      assert a[0] in b;
    }
  }

  lemma InTail<T>(s: seq<T>, p: T)
    requires s != [] && Distinct(s)
    ensures p in s[1..] <==> p in s && p != s[0]
  {
  }

  lemma HeadsAgree(a: seq<Pair>, b: seq<Pair>)
    requires a != [] && b != [] && SortedPairs(a) && SortedPairs(b)
    requires forall p :: p in a <==> p in b
    ensures a[0] == b[0]
  {
    assert a[0] in b && b[0] in a;
    var i :| 0 <= i < |b| && b[i] == a[0];
    var j :| 0 <= j < |a| && a[j] == b[0];
    PairTotal(a[0], b[0]);
  }
}
