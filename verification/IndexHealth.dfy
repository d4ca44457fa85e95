// tools/health_check.py: duplicate and redundant index advice, and what following it keeps.

module IndexHealth {
  import opened Basics
  import opened Ordering

  /** A Metadata.Index record; keys is its rendered SearchKey. */
  datatype IndexRow = IndexRow(dataverse: string, dataset: string, name: string, structure: string, isPrimary: bool, keys: seq<string>)

  datatype Index = Index(name: string, structure: string, keys: seq<string>)

  function IndexOf(row: IndexRow): Index {
    Index(row.name, row.structure, row.keys)
  }

  function Place(row: IndexRow): Pair {
    (row.dataverse, row.dataset)
  }

  predicate Grouped(row: IndexRow, place: Pair) {
    !row.isPrimary && row.keys != [] && Place(row) == place
  }

  /** The secondary indexes of one dataset, in catalog order. */
  function Group(rows: seq<IndexRow>, place: Pair): (g: seq<Index>)
    ensures forall i :: i in g <==> exists row :: row in rows && Grouped(row, place) && IndexOf(row) == i
  {
    if rows == [] then []
    else
      var n := |rows| - 1;
      assert rows == rows[..n] + [rows[n]];
      Group(rows[..n], place) + (if Grouped(rows[n], place) then [IndexOf(rows[n])] else [])
  }

  /** The dict _group_secondary_indexes builds: places holds its keys in insertion order. */
  method GroupSecondaryIndexes(rows: seq<IndexRow>) returns (places: seq<Pair>, grouped: map<Pair, seq<Index>>)
    ensures Distinct(places) && forall p :: p in places <==> p in grouped
    ensures forall p :: p in grouped <==> Group(rows, p) != []
    ensures forall p :: p in grouped ==> grouped[p] == Group(rows, p)
  {
    places, grouped := [], map[];
    for n := 0 to |rows|
      invariant Distinct(places) && forall p :: p in places <==> p in grouped
      invariant GroupsOf(rows[..n], grouped)
    {
      GroupSkipped(rows, n, grouped);
      if rows[n].isPrimary || rows[n].keys == [] {
        continue;
      }
      var key := Place(rows[n]);
      GroupAdded(rows, n, grouped);
      if key !in grouped {
        places := places + [key];
        grouped := grouped[key := []];
      }
      grouped := grouped[key := grouped[key] + [IndexOf(rows[n])]];
    }
    assert rows[..|rows|] == rows;
  }

  ghost predicate GroupsOf(rows: seq<IndexRow>, grouped: map<Pair, seq<Index>>) {
    && (forall p :: p in grouped <==> Group(rows, p) != [])
    && (forall p :: p in grouped ==> grouped[p] == Group(rows, p))
  }

  lemma GroupSkipped(rows: seq<IndexRow>, n: nat, grouped: map<Pair, seq<Index>>)
    requires n < |rows| && GroupsOf(rows[..n], grouped)
    ensures rows[n].isPrimary || rows[n].keys == [] ==> GroupsOf(rows[..n + 1], grouped)
  {
    forall p { GroupStep(rows, n, p); }
  }

  lemma GroupAdded(rows: seq<IndexRow>, n: nat, grouped: map<Pair, seq<Index>>)
    requires n < |rows| && GroupsOf(rows[..n], grouped) && !rows[n].isPrimary && rows[n].keys != []
    ensures var key := Place(rows[n]);
      GroupsOf(rows[..n + 1], grouped[key := (if key in grouped then grouped[key] else []) + [IndexOf(rows[n])]])
  {
    forall p { GroupStep(rows, n, p); }
  }

  lemma GroupStep(rows: seq<IndexRow>, n: nat, place: Pair)
    requires n < |rows|
    ensures Group(rows[..n + 1], place)
         == if Grouped(rows[n], place) then Group(rows[..n], place) + [IndexOf(rows[n])] else Group(rows[..n], place)
  {
    assert rows[..n + 1][..n] == rows[..n];
  }

  // ---- redundant indexes ------------------------------------------------------------------------

  /** keys == other[:len(keys)] */
  predicate Extends(longer: seq<string>, shorter: seq<string>) {
    |shorter| <= |longer| && longer[..|shorter|] == shorter
  }

  /** other makes shorter redundant. */
  predicate Covers(other: Index, shorter: Index) {
    && other.name != shorter.name && other.structure == shorter.structure
    && |other.keys| > |shorter.keys| && Extends(other.keys, shorter.keys)
  }

  ghost predicate Redundant(shorter: Index, group: seq<Index>) {
    exists other :: other in group && Covers(other, shorter)
  }

  /** _prefix_cover: the first cover in the group. */
  method PrefixCover(shorter: Index, group: seq<Index>) returns (cover: Option<Index>)
    ensures cover.Some? <==> Redundant(shorter, group)
    ensures cover.Some? ==> exists k :: 0 <= k < |group| && cover.value == group[k] && Covers(group[k], shorter)
                                  && forall j :: 0 <= j < k ==> !Covers(group[j], shorter)
  {
    for n := 0 to |group|
      invariant forall j :: 0 <= j < n ==> !Covers(group[j], shorter)
    {
      var other := group[n];
      if other.name == shorter.name || other.structure != shorter.structure {
        continue;
      }
      if |other.keys| > |shorter.keys| && other.keys[..|shorter.keys|] == shorter.keys {
        assert other in group && Covers(other, shorter);
        return Some(other);
      }
    }
    cover := None;
  }

  datatype RedundantFinding = RedundantFinding(place: Pair, index: string, coveredBy: string, structure: string, keys: seq<string>)

  /** A finding a redundant index of this place gives rise to. */
  ghost predicate Warranted(f: RedundantFinding, place: Pair, shorter: Index, group: seq<Index>) {
    && f.place == place && f.index == shorter.name && f.structure == shorter.structure && f.keys == shorter.keys
    && exists other :: other in group && Covers(other, shorter) && f.coveredBy == other.name
  }

  ghost predicate Founded(f: RedundantFinding, place: Pair, group: seq<Index>) {
    exists shorter :: shorter in group && Warranted(f, place, shorter, group)
  }

  method FindRedundantIndexes(rows: seq<IndexRow>) returns (findings: seq<RedundantFinding>)
    ensures forall f :: f in findings ==> Founded(f, f.place, Group(rows, f.place))
    ensures forall place, shorter :: shorter in Group(rows, place) && Redundant(shorter, Group(rows, place)) ==>
      exists f :: f in findings && Warranted(f, place, shorter, Group(rows, place))
  {
    var places, grouped := GroupSecondaryIndexes(rows);
    findings := [];
    for p := 0 to |places|
      invariant forall f :: f in findings ==> Founded(f, f.place, Group(rows, f.place))
      invariant forall place, shorter :: place in places[..p] && shorter in Group(rows, place) && Redundant(shorter, Group(rows, place)) ==>
        exists f :: f in findings && Warranted(f, place, shorter, Group(rows, place))
    {
      assert places[..p + 1] == places[..p] + [places[p]];
      assert places[p] in grouped;
      var more := RedundantIn(places[p], grouped[places[p]]);
      findings := findings + more;
    }
    assert places[..|places|] == places;
  }

  /** The inner loop: one group's findings. */
  method RedundantIn(place: Pair, group: seq<Index>) returns (findings: seq<RedundantFinding>)
    ensures forall f :: f in findings ==> f.place == place && Founded(f, place, group)
    ensures forall shorter :: shorter in group && Redundant(shorter, group) ==>
      exists f :: f in findings && Warranted(f, place, shorter, group)
  {
    findings := [];
    for n := 0 to |group|
      invariant forall f :: f in findings ==> f.place == place && Founded(f, place, group)
      invariant forall shorter :: shorter in group[..n] && Redundant(shorter, group) ==>
        exists f :: f in findings && Warranted(f, place, shorter, group)
    {
      assert group[..n + 1] == group[..n] + [group[n]];
      var shorter := group[n];
      var coveredBy := PrefixCover(shorter, group);
      if coveredBy.None? {
        continue;
      }
      var f := RedundantFinding(place, shorter.name, coveredBy.value.name, shorter.structure, shorter.keys);
      assert Warranted(f, place, shorter, group);
      findings := findings + [f];
    }
    assert group[..|group|] == group;
  }

  // ---- duplicate indexes -------------------------------------------------------------------------

  type Signature = (string, seq<string>)

  function SignatureOf(i: Index): Signature {
    (i.structure, i.keys)
  }

  /** The names sharing one signature, in catalog order. */
  function NamesOf(group: seq<Index>, s: Signature): (names: seq<string>)
    ensures forall name :: name in names <==> exists i :: i in group && SignatureOf(i) == s && i.name == name
  {
    if group == [] then []
    else
      var n := |group| - 1;
      assert group == group[..n] + [group[n]];
      NamesOf(group[..n], s) + (if SignatureOf(group[n]) == s then [group[n].name] else [])
  }

  /** indexes is the sorted list of the names. */
  datatype DuplicateFinding = DuplicateFinding(place: Pair, indexes: seq<string>, structure: string, keys: seq<string>)

  ghost predicate SortedNames(names: seq<string>) {
    forall i, j :: 0 <= i < j < |names| ==> Before(names[i], names[j])
  }

  /** sorted(names) */
  method Sorted(names: seq<string>) returns (ordered: seq<string>)
    ensures SortedNames(ordered) && multiset(ordered) == multiset(names)
  {
    ordered := [];
    for n := 0 to |names|
      invariant SortedNames(ordered) && multiset(ordered) == multiset(names[..n])
    {
      assert names[..n + 1] == names[..n] + [names[n]];
      var k := NameRank(ordered, names[n]);
      PlaceName(ordered, names[n]);
      assert ordered == ordered[..k] + ordered[k..];
      ordered := ordered[..k] + [names[n]] + ordered[k..];
    }
    assert names[..|names|] == names;
  }

  function NameRank(names: seq<string>, name: string): (k: nat)
    ensures k <= |names|
    ensures forall i :: 0 <= i < k ==> Before(names[i], name)
    ensures k < |names| ==> !Before(names[k], name)
  {
    if names == [] || !Before(names[0], name) then 0 else 1 + NameRank(names[1..], name)
  }

  lemma PlaceName(names: seq<string>, name: string)
    requires SortedNames(names)
    ensures var k := NameRank(names, name); SortedNames(names[..k] + [name] + names[k..])
  {
    var k := NameRank(names, name);
    forall j | k <= j < |names| ensures Before(name, names[j]) {
      BeforeTotal(names[k], name);
      if k < j {
        BeforeTransitive(name, names[k], names[j]);
      }
    }
  }

  /** The dict by_signature. */
  method BySignature(group: seq<Index>) returns (signatures: seq<Signature>, bySignature: map<Signature, seq<string>>)
    ensures Distinct(signatures) && forall s :: s in signatures <==> s in bySignature
    ensures forall s :: s in bySignature <==> NamesOf(group, s) != []
    ensures forall s :: s in bySignature ==> bySignature[s] == NamesOf(group, s)
  {
    signatures, bySignature := [], map[];
    for n := 0 to |group|
      invariant Distinct(signatures) && forall s :: s in signatures <==> s in bySignature
      invariant forall s :: s in bySignature <==> NamesOf(group[..n], s) != []
      invariant forall s :: s in bySignature ==> bySignature[s] == NamesOf(group[..n], s)
    {
      assert group[..n + 1][..n] == group[..n];
      var signature := SignatureOf(group[n]);
      if signature !in bySignature {
        signatures := signatures + [signature];
        bySignature := bySignature[signature := []];
      }
      bySignature := bySignature[signature := bySignature[signature] + [group[n].name]];
    }
    assert group[..|group|] == group;
  }

  /** A finding for a signature shared by at least two indexes of the group. */
  ghost predicate Shared(f: DuplicateFinding, place: Pair, group: seq<Index>, s: Signature) {
    && f.place == place && f.structure == s.0 && f.keys == s.1
    && |NamesOf(group, s)| >= 2
    && SortedNames(f.indexes) && multiset(f.indexes) == multiset(NamesOf(group, s))
  }

  method DuplicatesIn(place: Pair, group: seq<Index>) returns (findings: seq<DuplicateFinding>)
    ensures forall f :: f in findings ==> Shared(f, place, group, (f.structure, f.keys))
    ensures forall s :: |NamesOf(group, s)| >= 2 ==> exists f :: f in findings && Shared(f, place, group, s)
  {
    var signatures, bySignature := BySignature(group);
    findings := [];
    for n := 0 to |signatures|
      invariant forall f :: f in findings ==> Shared(f, place, group, (f.structure, f.keys))
      invariant forall s :: s in signatures[..n] && |NamesOf(group, s)| >= 2 ==> exists f :: f in findings && Shared(f, place, group, s)
    {
      assert signatures[..n + 1] == signatures[..n] + [signatures[n]];
      var signature := signatures[n];
      assert signature in bySignature;
      var names := bySignature[signature];
      if |names| < 2 {
        continue;
      }
      var ordered := Sorted(names);
      var f := DuplicateFinding(place, ordered, signature.0, signature.1);
      assert Shared(f, place, group, signature);
      findings := findings + [f];
    }
    assert signatures[..|signatures|] == signatures;
  }

  method FindDuplicateIndexes(rows: seq<IndexRow>) returns (findings: seq<DuplicateFinding>)
    ensures forall f :: f in findings ==> Shared(f, f.place, Group(rows, f.place), (f.structure, f.keys))
    ensures forall place, s :: |NamesOf(Group(rows, place), s)| >= 2 ==>
      exists f :: f in findings && Shared(f, place, Group(rows, place), s)
  {
    var places, grouped := GroupSecondaryIndexes(rows);
    findings := [];
    for p := 0 to |places|
      invariant forall f :: f in findings ==> Shared(f, f.place, Group(rows, f.place), (f.structure, f.keys))
      invariant forall place, s :: place in places[..p] && |NamesOf(Group(rows, place), s)| >= 2 ==>
        exists f :: f in findings && Shared(f, place, Group(rows, place), s)
    {
      assert places[..p + 1] == places[..p] + [places[p]];
      assert places[p] in grouped;
      var more := DuplicatesIn(places[p], grouped[places[p]]);
      findings := findings + more;
    }
    assert places[..|places|] == places;
    forall place, s | |NamesOf(Group(rows, place), s)| >= 2
      ensures exists f :: f in findings && Shared(f, place, Group(rows, place), s)
    {
      assert place in grouped;
    }
  }

  // ---- following the advice --------------------------------------------------------------------------

  ghost predicate UniqueNames(group: seq<Index>) {
    forall i, j :: i in group && j in group && i.name == j.name ==> i == j
  }

  /** The advice was followed: every index reported redundant went, and of each duplicate group all but the chosen name. */
  ghost predicate Dropped(place: Pair, i: Index, redundant: seq<RedundantFinding>, duplicates: seq<DuplicateFinding>,
                          keep: Signature -> string)
  {
    || (exists f :: f in redundant && f.place == place && f.index == i.name)
    || (exists f :: f in duplicates && f.place == place && i.name in f.indexes && keep((f.structure, f.keys)) != i.name)
  }

  ghost predicate Chosen(place: Pair, duplicates: seq<DuplicateFinding>, keep: Signature -> string) {
    forall f :: f in duplicates && f.place == place ==> keep((f.structure, f.keys)) in f.indexes
  }

  /** What the two finders report about one dataset. */
  ghost predicate Reported(place: Pair, group: seq<Index>, redundant: seq<RedundantFinding>, duplicates: seq<DuplicateFinding>) {
    && (forall f :: f in redundant && f.place == place ==> Founded(f, place, group))
    && (forall f :: f in duplicates && f.place == place ==> Shared(f, place, group, (f.structure, f.keys)))
    && (forall s :: |NamesOf(group, s)| >= 2 ==> exists f :: f in duplicates && Shared(f, place, group, s))
  }

  predicate Serves(kept: Index, i: Index) {
    kept.structure == i.structure && Extends(kept.keys, i.keys)
  }

  /** With unique names, only a redundant index is reported redundant. */
  lemma ReportedIsRedundant(place: Pair, group: seq<Index>, redundant: seq<RedundantFinding>, duplicates: seq<DuplicateFinding>,
                            i: Index, f: RedundantFinding)
    requires UniqueNames(group) && i in group && Reported(place, group, redundant, duplicates)
    requires f in redundant && f.place == place && f.index == i.name
    ensures Redundant(i, group)
  {
    var shorter :| shorter in group && Warranted(f, place, shorter, group);
    assert shorter == i;
  }

  /** Redundancy is a matter of signature, so a redundant twin means redundant. */
  lemma TwinRedundant(group: seq<Index>, i: Index, j: Index)
    requires UniqueNames(group) && i in group && j in group && SignatureOf(i) == SignatureOf(j) && Redundant(j, group)
    ensures Redundant(i, group)
  {
    var other :| other in group && Covers(other, j);
    assert Covers(other, i);
  }

  /** The chosen twin of an index that nothing covers stays. */
  lemma ChosenStays(place: Pair, group: seq<Index>, redundant: seq<RedundantFinding>, duplicates: seq<DuplicateFinding>,
                    keep: Signature -> string, i: Index, f: DuplicateFinding) returns (kept: Index)
    requires UniqueNames(group) && i in group && Reported(place, group, redundant, duplicates)
    requires Chosen(place, duplicates, keep)
    requires !Redundant(i, group) && f in duplicates && f.place == place && i.name in f.indexes
    ensures kept in group && SignatureOf(kept) == SignatureOf(i) && kept.name == keep(SignatureOf(i)) && !Redundant(kept, group)
  {
    var s := (f.structure, f.keys);
    assert Shared(f, place, group, s);
    SameNames(f.indexes, NamesOf(group, s));
    var twin :| twin in group && SignatureOf(twin) == s && twin.name == i.name;
    assert twin == i;
    kept :| kept in group && SignatureOf(kept) == s && kept.name == keep(s);
    if Redundant(kept, group) {
      TwinRedundant(group, i, kept);
    }
  }

  lemma SameNames(a: seq<string>, b: seq<string>)
    requires multiset(a) == multiset(b)
    ensures forall x :: x in a <==> x in b
  {
    forall x ensures x in a <==> x in b {
      assert x in a <==> x in multiset(a);
      assert x in b <==> x in multiset(b);
    }
  }

  lemma NamedSignature(place: Pair, group: seq<Index>, i: Index, f: DuplicateFinding)
    requires UniqueNames(group) && i in group && Shared(f, place, group, (f.structure, f.keys))
    ensures i.name in f.indexes <==> SignatureOf(i) == (f.structure, f.keys)
  {
    SameNames(f.indexes, NamesOf(group, (f.structure, f.keys)));
  }

  /** An index nothing covers, and which is its duplicate group's choice if it has one, is kept. */
  lemma Stays(place: Pair, group: seq<Index>, redundant: seq<RedundantFinding>, duplicates: seq<DuplicateFinding>,
              keep: Signature -> string, i: Index)
    requires UniqueNames(group) && i in group && Reported(place, group, redundant, duplicates)
    requires !Redundant(i, group)
    requires forall f :: f in duplicates && f.place == place && i.name in f.indexes ==> keep(SignatureOf(i)) == i.name
    ensures !Dropped(place, i, redundant, duplicates, keep)
  {
    forall f | f in redundant && f.place == place ensures f.index != i.name {
      if f.index == i.name {
        ReportedIsRedundant(place, group, redundant, duplicates, i, f);
      }
    }
    forall f | f in duplicates && f.place == place && i.name in f.indexes ensures keep((f.structure, f.keys)) == i.name {
      NamedSignature(place, group, i, f);
    }
  }

  function Longest(group: seq<Index>): (n: nat)
    ensures forall i :: i in group ==> |i.keys| <= n
  {
    if group == [] then 0
    else
      var rest := Longest(group[1..]);
      if |group[0].keys| > rest then |group[0].keys| else rest
  }

  /**
   * Drop every index reported redundant and all but any one of each duplicate group: whatever
   * index there was, one that stays has its structure and keys that extend its keys. A chain of
   * covers ends because the keys grow.
   */
  lemma {:induction false} AdviceKeepsCoverage(place: Pair, group: seq<Index>, redundant: seq<RedundantFinding>,
                                               duplicates: seq<DuplicateFinding>, keep: Signature -> string, i: Index)
    returns (kept: Index)
    requires UniqueNames(group) && Reported(place, group, redundant, duplicates) && Chosen(place, duplicates, keep)
    requires i in group
    ensures kept in group && Serves(kept, i) && !Dropped(place, kept, redundant, duplicates, keep)
    decreases Longest(group) - |i.keys|
  {
    if Redundant(i, group) {
      var other :| other in group && Covers(other, i);
      kept := AdviceKeepsCoverage(place, group, redundant, duplicates, keep, other);
      assert kept.keys[..|i.keys|] == kept.keys[..|other.keys|][..|i.keys|];
    } else if f :| f in duplicates && f.place == place && i.name in f.indexes {
      kept := ChosenStays(place, group, redundant, duplicates, keep, i, f);
      NamedSignature(place, group, i, f);
      Stays(place, group, redundant, duplicates, keep, kept);
    } else {
      kept := i;
      Stays(place, group, redundant, duplicates, keep, kept);
    }
  }

  /** What one index report gives the user who follows it, for the rows the finders were given. */
  method Advise(rows: seq<IndexRow>) returns (redundant: seq<RedundantFinding>, duplicates: seq<DuplicateFinding>)
    ensures forall place :: Reported(place, Group(rows, place), redundant, duplicates)
  {
    duplicates := FindDuplicateIndexes(rows);
    redundant := FindRedundantIndexes(rows);
  }
}
