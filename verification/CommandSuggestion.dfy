/** Recovery from mistyped commands and flags: which destructive verbs stand for one another,
    when a destructive command may be suggested at all, and what is suggested. */
module CommandSuggestion {
  import opened Collations
  import opened CommandSpecs
  import opened EditDistance
  import opened Seqs

  const SUGGESTION_THRESHOLD: nat := 3
  const MAX_SUGGESTIONS: nat := 3
  const DESTRUCTIVE_INTENT_THRESHOLD: nat := 1

  function FinalToken(path: seq<string>): string {
    if path == [] then "" else path[|path| - 1]
  }

  // ---------------------------------------------------------------- verb families

  predicate HasVerb(spec: CommandSpec, verb: string) {
    exists path :: path in SpecPaths(spec) && FinalToken(path) == verb
  }

  /** Some destructive command can be spelled with either verb. */
  ghost predicate Shared(specs: seq<CommandSpec>, v: string, w: string) {
    exists spec :: spec in specs && spec.destructive && HasVerb(spec, v) && HasVerb(spec, w)
  }

  ghost predicate Chain(specs: seq<CommandSpec>, verbs: seq<string>) {
    verbs != [] && forall k | 0 <= k < |verbs| - 1 :: Shared(specs, verbs[k], verbs[k + 1])
  }

  /** A chain of destructive commands, neighbours sharing a verb, leads from v to w. */
  ghost predicate Linked(specs: seq<CommandSpec>, v: string, w: string) {
    exists verbs :: Chain(specs, verbs) && verbs[0] == v && verbs[|verbs| - 1] == w
  }

  ghost predicate IsDestructiveVerb(specs: seq<CommandSpec>, v: string) {
    exists spec :: spec in specs && spec.destructive && HasVerb(spec, v)
  }

  /** The families are the connected components of the destructive verbs. */
  ghost predicate AreFamilies(specs: seq<CommandSpec>, families: map<string, set<string>>) {
    && (forall v :: v in families <==> IsDestructiveVerb(specs, v))
    && (forall v, w | v in families :: w in families[v] <==> Linked(specs, v, w))
  }

  /** The families are a partition: every verb is in its own, and the members of one family all
      have that very family. */
  ghost predicate Partition(families: map<string, set<string>>) {
    forall v | v in families ::
      v in families[v] && forall w | w in families[v] :: w in families && families[w] == families[v]
  }

  /** Only destructive verbs are in the map, and only linked ones share a family. */
  ghost predicate OnlyLinked(specs: seq<CommandSpec>, families: map<string, set<string>>) {
    forall v, w | v in families && w in families[v] :: Linked(specs, v, w) && IsDestructiveVerb(specs, v)
  }

  /** Verbs that some destructive command shares are in one family. */
  ghost predicate Closed(specs: seq<CommandSpec>, families: map<string, set<string>>) {
    forall v, w | Shared(specs, v, w) :: v in families && w in families[v]
  }

  /** What the loop has built from the specs seen so far. */
  ghost predicate Built(specs: seq<CommandSpec>, families: map<string, set<string>>) {
    Partition(families) && OnlyLinked(specs, families) && Closed(specs, families)
  }

  method DestructiveVerbFamilies(specs: seq<CommandSpec>) returns (families: map<string, set<string>>)
    ensures AreFamilies(specs, families) && Partition(families)
  {
    families := map[];
    for n := 0 to |specs|
      invariant Built(specs[..n], families)
    {
      assert specs[..n + 1] == specs[..n] + [specs[n]];
      if !specs[n].destructive {
        SkipKeepsBuilt(specs[..n], specs[n], families);
        continue;
      }
      var family := Gather(specs[n], families);
      var merged := Assign(families, family);
      MergeKeepsBuilt(specs[..n], specs[n], families, family, merged);
      families := merged;
    }
    assert specs[..|specs|] == specs;
    BuiltAreFamilies(specs, families);
  }

  /** The union of the families of a command's verbs; an unknown verb counts as its own. */
  method Gather(spec: CommandSpec, families: map<string, set<string>>) returns (family: set<string>)
    ensures forall w :: w in family <==>
              exists v :: HasVerb(spec, v) && (if v in families then w in families[v] else w == v)
  {
    family := {};
    var paths := SpecPaths(spec);
    for k := 0 to |paths|
      invariant forall w :: w in family <==>
                  exists j :: 0 <= j < k && var v := FinalToken(paths[j]);
                    if v in families then w in families[v] else w == v
    {
      var verb := FinalToken(paths[k]);
      family := family + (if verb in families then families[verb] else {verb});
    }
    forall w ensures w in family <==>
        exists v :: HasVerb(spec, v) && (if v in families then w in families[v] else w == v)
    {
      if w in family {
        var j :| 0 <= j < |paths| && var v := FinalToken(paths[j]); if v in families then w in families[v] else w == v;
        assert HasVerb(spec, FinalToken(paths[j]));
      }
      if v :| HasVerb(spec, v) && (if v in families then w in families[v] else w == v) {
        var path :| path in paths && FinalToken(path) == v;
        var j :| 0 <= j < |paths| && paths[j] == path;
      }
    }
  }

  /** Every verb of the new family gets that family. */
  method Assign(families: map<string, set<string>>, family: set<string>) returns (merged: map<string, set<string>>)
    ensures merged.Keys == families.Keys + family
    ensures forall v | v in merged :: merged[v] == if v in family then family else families[v]
  {
    merged := families;
    var left := family;
    while left != {}
      invariant left <= family
      invariant merged.Keys == families.Keys + (family - left)
      invariant forall v | v in merged :: merged[v] == if v in family - left then family else families[v]
      decreases left
    {
      var verb :| verb in left;
      merged := merged[verb := family];
      left := left - {verb};
    }
  }

  lemma SkipKeepsBuilt(specs: seq<CommandSpec>, spec: CommandSpec, families: map<string, set<string>>)
    requires Built(specs, families) && !spec.destructive
    ensures Built(specs + [spec], families)
  {
    LinksGrow(specs, spec);
    forall v, w | Shared(specs + [spec], v, w) ensures v in families && w in families[v] {
      HarmlessSharesNothing(specs, spec, v, w);
    }
  }

  lemma HarmlessSharesNothing(specs: seq<CommandSpec>, spec: CommandSpec, v: string, w: string)
    requires !spec.destructive && Shared(specs + [spec], v, w)
    ensures Shared(specs, v, w)
  {
    var other :| other in specs + [spec] && other.destructive && HasVerb(other, v) && HasVerb(other, w);
    assert other in specs;
  }

  lemma LinksGrow(specs: seq<CommandSpec>, spec: CommandSpec)
    ensures forall v, w | Linked(specs, v, w) :: Linked(specs + [spec], v, w)
    ensures forall v | IsDestructiveVerb(specs, v) :: IsDestructiveVerb(specs + [spec], v)
  {
    forall v, w | Linked(specs, v, w) ensures Linked(specs + [spec], v, w) {
      var verbs :| Chain(specs, verbs) && verbs[0] == v && verbs[|verbs| - 1] == w;
      assert Chain(specs + [spec], verbs) by {
        forall k | 0 <= k < |verbs| - 1 ensures Shared(specs + [spec], verbs[k], verbs[k + 1]) {
          assert Shared(specs, verbs[k], verbs[k + 1]);
        }
      }
    }
  }

  lemma LinkedReflexive(specs: seq<CommandSpec>, v: string)
    ensures Linked(specs, v, v)
  {
    assert Chain(specs, [v]);
  }

  lemma LinkedByCommand(specs: seq<CommandSpec>, spec: CommandSpec, v: string, w: string)
    requires spec in specs && spec.destructive && HasVerb(spec, v) && HasVerb(spec, w)
    ensures Linked(specs, v, w)
  {
    assert Shared(specs, v, w);
    assert Chain(specs, [v, w]);
  }

  lemma LinkedSymmetric(specs: seq<CommandSpec>, v: string, w: string)
    requires Linked(specs, v, w)
    ensures Linked(specs, w, v)
  {
    var verbs :| Chain(specs, verbs) && verbs[0] == v && verbs[|verbs| - 1] == w;
    var n := |verbs|;
    var back := seq(n, k requires 0 <= k < n => verbs[n - 1 - k]);
    forall k | 0 <= k < n - 1 ensures Shared(specs, back[k], back[k + 1]) {
      assert Shared(specs, verbs[n - 2 - k], verbs[n - 2 - k + 1]);
    }
    assert Chain(specs, back);
  }

  lemma LinkedTransitive(specs: seq<CommandSpec>, u: string, v: string, w: string)
    requires Linked(specs, u, v) && Linked(specs, v, w)
    ensures Linked(specs, u, w)
  {
    var first :| Chain(specs, first) && first[0] == u && first[|first| - 1] == v;
    var second :| Chain(specs, second) && second[0] == v && second[|second| - 1] == w;
    var both := first + second[1..];
    forall k | 0 <= k < |both| - 1 ensures Shared(specs, both[k], both[k + 1]) {
      if k < |first| - 1 {
        assert Shared(specs, first[k], first[k + 1]);
      } else {
        var j := k - (|first| - 1);
        assert both[k] == second[j] && both[k + 1] == second[j + 1];
        assert Shared(specs, second[j], second[j + 1]);
      }
    }
    assert Chain(specs, both);
  }

  /** `merged` is `families` after the verbs of `spec` have been put into one family. */
  ghost predicate Merges(
    spec: CommandSpec, families: map<string, set<string>>, family: set<string>, merged: map<string, set<string>>)
  {
    && (forall w :: w in family <==>
          exists v :: HasVerb(spec, v) && (if v in families then w in families[v] else w == v))
    && merged.Keys == families.Keys + family
    && (forall v | v in merged :: merged[v] == if v in family then family else families[v])
  }

  lemma MergeKeepsPartition(
    spec: CommandSpec, families: map<string, set<string>>, family: set<string>, merged: map<string, set<string>>)
    requires Partition(families) && Merges(spec, families, family, merged)
    ensures Partition(merged)
    ensures forall v, w | v in families && w in families[v] :: v in family <==> w in family
  {
    forall v, w | v in families && w in families[v] && v in family ensures w in family {
      var u :| HasVerb(spec, u) && (if u in families then v in families[u] else v == u);
      assert u in families && families[v] == families[u];
    }
    forall v, w | v in families && w in families[v] && w in family ensures v in family {
      assert w in families && families[w] == families[v];
      var u :| HasVerb(spec, u) && (if u in families then w in families[u] else w == u);
      assert u in families && families[w] == families[u];
    }
  }

  lemma FamilyIsLinked(
    specs: seq<CommandSpec>, spec: CommandSpec, families: map<string, set<string>>, family: set<string>,
    merged: map<string, set<string>>, v: string, w: string)
    requires Built(specs, families) && spec.destructive && Merges(spec, families, family, merged)
    requires v in family && w in family
    ensures Linked(specs + [spec], v, w) && IsDestructiveVerb(specs + [spec], v)
  {
    var all := specs + [spec];
    assert spec in all;
    LinksGrow(specs, spec);
    var u :| HasVerb(spec, u) && (if u in families then v in families[u] else v == u);
    var x :| HasVerb(spec, x) && (if x in families then w in families[x] else w == x);
    LinkedReflexive(all, u);
    LinkedReflexive(all, x);
    LinkedSymmetric(all, u, v);
    LinkedByCommand(all, spec, u, x);
    LinkedTransitive(all, v, u, x);
    LinkedTransitive(all, v, x, w);
    if u !in families {
      assert IsDestructiveVerb(all, u);
    }
  }

  lemma MergedAreLinked(
    specs: seq<CommandSpec>, spec: CommandSpec, families: map<string, set<string>>, family: set<string>,
    merged: map<string, set<string>>, v: string, w: string)
    requires Built(specs, families) && spec.destructive && Merges(spec, families, family, merged)
    requires v in merged && w in merged[v]
    ensures Linked(specs + [spec], v, w) && IsDestructiveVerb(specs + [spec], v)
  {
    if v in family {
      FamilyIsLinked(specs, spec, families, family, merged, v, w);
    } else {
      LinksGrow(specs, spec);
    }
  }

  /** The verbs of every command seen, the new one included, share a family. */
  lemma MergedAreClosed(
    specs: seq<CommandSpec>, spec: CommandSpec, families: map<string, set<string>>, family: set<string>,
    merged: map<string, set<string>>, v: string, w: string)
    requires Built(specs, families) && Merges(spec, families, family, merged)
    requires Shared(specs + [spec], v, w)
    ensures v in merged && w in merged[v]
  {
    MergeKeepsPartition(spec, families, family, merged);
    var other :| other in specs + [spec] && other.destructive && HasVerb(other, v) && HasVerb(other, w);
    if other in specs {
      assert Shared(specs, v, w);
    } else {
      VerbsAreGathered(spec, families, family, merged, v);
      VerbsAreGathered(spec, families, family, merged, w);
    }
  }

  lemma MergeKeepsClosed(
    specs: seq<CommandSpec>, spec: CommandSpec, families: map<string, set<string>>, family: set<string>,
    merged: map<string, set<string>>)
    requires Built(specs, families) && Merges(spec, families, family, merged)
    ensures Closed(specs + [spec], merged)
  {
    forall v, w | Shared(specs + [spec], v, w) ensures v in merged && w in merged[v] {
      MergedAreClosed(specs, spec, families, family, merged, v, w);
    }
  }

  lemma MergeKeepsBuilt(
    specs: seq<CommandSpec>, spec: CommandSpec, families: map<string, set<string>>, family: set<string>,
    merged: map<string, set<string>>)
    requires Built(specs, families) && spec.destructive && Merges(spec, families, family, merged)
    ensures Built(specs + [spec], merged)
  {
    MergeKeepsPartition(spec, families, family, merged);
    MergeKeepsClosed(specs, spec, families, family, merged);
    forall v, w | v in merged && w in merged[v]
      ensures Linked(specs + [spec], v, w) && IsDestructiveVerb(specs + [spec], v)
    {
      MergedAreLinked(specs, spec, families, family, merged, v, w);
    }
  }

  lemma VerbsAreGathered(
    spec: CommandSpec, families: map<string, set<string>>, family: set<string>,
    merged: map<string, set<string>>, v: string)
    requires Partition(families) && Merges(spec, families, family, merged) && HasVerb(spec, v)
    ensures v in family
  {}

  lemma {:induction false} ChainStaysInFamily(
    specs: seq<CommandSpec>, families: map<string, set<string>>, verbs: seq<string>)
    requires Built(specs, families) && Chain(specs, verbs) && verbs[0] in families
    ensures verbs[|verbs| - 1] in families[verbs[0]]
    decreases |verbs|
  {
    if |verbs| > 1 {
      assert Shared(specs, verbs[0], verbs[0 + 1]);
      forall k | 0 <= k < |verbs[1..]| - 1 ensures Shared(specs, verbs[1..][k], verbs[1..][k + 1]) {
        assert Shared(specs, verbs[k + 1], verbs[k + 1 + 1]);
      }
      ChainStaysInFamily(specs, families, verbs[1..]);
    }
  }

  lemma BuiltAreFamilies(specs: seq<CommandSpec>, families: map<string, set<string>>)
    requires Built(specs, families)
    ensures AreFamilies(specs, families)
  {
    forall v | IsDestructiveVerb(specs, v) ensures v in families {
      var spec :| spec in specs && spec.destructive && HasVerb(spec, v);
      assert Shared(specs, v, v);
    }
    forall v, w | v in families && Linked(specs, v, w) ensures w in families[v] {
      var verbs :| Chain(specs, verbs) && verbs[0] == v && verbs[|verbs| - 1] == w;
      ChainStaysInFamily(specs, families, verbs);
    }
  }

  ghost predicate Within(specs: seq<CommandSpec>, others: seq<CommandSpec>) {
    forall spec | spec in specs :: spec in others
  }

  /** The families depend on which commands are declared, not on their order or repetition. */
  lemma FamiliesIgnoreOrder(
    specs: seq<CommandSpec>, reordered: seq<CommandSpec>,
    families: map<string, set<string>>, others: map<string, set<string>>)
    requires Within(specs, reordered) && Within(reordered, specs)
    requires AreFamilies(specs, families) && AreFamilies(reordered, others)
    ensures families == others
  {
    SameVerbs(specs, reordered, families, others);
    forall v | v in families ensures families[v] == others[v] {
      SameFamily(specs, reordered, families, others, v);
    }
    SameMaps(families, others);
  }

  lemma SameVerbs(
    specs: seq<CommandSpec>, reordered: seq<CommandSpec>,
    families: map<string, set<string>>, others: map<string, set<string>>)
    requires Within(specs, reordered) && Within(reordered, specs)
    requires AreFamilies(specs, families) && AreFamilies(reordered, others)
    ensures families.Keys == others.Keys
  {
    forall v ensures v in families <==> v in others {
      SameVerb(specs, reordered, v);
      SameVerb(reordered, specs, v);
    }
  }

  lemma SameMaps(families: map<string, set<string>>, others: map<string, set<string>>)
    requires families.Keys == others.Keys && forall v | v in families :: families[v] == others[v]
    ensures families == others
  {}

  lemma SameVerb(specs: seq<CommandSpec>, reordered: seq<CommandSpec>, v: string)
    requires Within(specs, reordered)
    ensures IsDestructiveVerb(specs, v) ==> IsDestructiveVerb(reordered, v)
  {
    if IsDestructiveVerb(specs, v) {
      var spec :| spec in specs && spec.destructive && HasVerb(spec, v);
      assert spec in reordered;
    }
  }

  lemma SameFamily(
    specs: seq<CommandSpec>, reordered: seq<CommandSpec>,
    families: map<string, set<string>>, others: map<string, set<string>>, v: string)
    requires Within(specs, reordered) && Within(reordered, specs)
    requires AreFamilies(specs, families) && AreFamilies(reordered, others)
    requires v in families && v in others
    ensures families[v] == others[v]
  {
    forall w ensures w in families[v] <==> w in others[v] {
      SameLinks(specs, reordered, v, w);
      SameLinks(reordered, specs, v, w);
    }
  }

  lemma SameShared(specs: seq<CommandSpec>, reordered: seq<CommandSpec>, v: string, w: string)
    requires Within(specs, reordered) && Shared(specs, v, w)
    ensures Shared(reordered, v, w)
  {
    var spec :| spec in specs && spec.destructive && HasVerb(spec, v) && HasVerb(spec, w);
    assert spec in reordered;
  }

  lemma SameLinks(specs: seq<CommandSpec>, reordered: seq<CommandSpec>, v: string, w: string)
    requires Within(specs, reordered)
    ensures Linked(specs, v, w) ==> Linked(reordered, v, w)
  {
    if Linked(specs, v, w) {
      var verbs :| Chain(specs, verbs) && verbs[0] == v && verbs[|verbs| - 1] == w;
      forall k | 0 <= k < |verbs| - 1 ensures Shared(reordered, verbs[k], verbs[k + 1]) {
        SameShared(specs, reordered, verbs[k], verbs[k + 1]);
      }
      assert Chain(reordered, verbs);
    }
  }

  // ---------------------------------------------------------------- intent to destroy

  function Abs(n: int): nat {
    if n < 0 then -n else n
  }

  /** The length test in front of the distance loses nothing. */
  method IntendsDestruction(inputToken: string, verbs: set<string>) returns (intends: bool)
    ensures intends <==> exists verb :: verb in verbs && Distance(inputToken, verb) <= DESTRUCTIVE_INTENT_THRESHOLD
  {
    var left := verbs;
    while left != {}
      invariant left <= verbs
      invariant forall verb | verb in verbs - left :: Distance(inputToken, verb) > DESTRUCTIVE_INTENT_THRESHOLD
      decreases left
    {
      var verb :| verb in left;
      LengthsBoundDistance(inputToken, verb);
      if Abs(|inputToken| - |verb|) <= DESTRUCTIVE_INTENT_THRESHOLD {
        var distance := Levenshtein(inputToken, verb);
        if distance <= DESTRUCTIVE_INTENT_THRESHOLD {
          return true;
        }
      }
      left := left - {verb};
    }
    intends := false;
  }

  // ---------------------------------------------------------------- ranking

  datatype Scored = Scored(name: string, distance: nat)

  /** a may stand in front of b. */
  predicate Precedes(collate: Collation, a: Scored, b: Scored) {
    a.distance < b.distance || (a.distance == b.distance && collate(a.name, b.name) <= 0)
  }

  function Insert(collate: Collation, e: Scored, sorted: seq<Scored>): seq<Scored> {
    if sorted == [] || Precedes(collate, e, sorted[0]) then [e] + sorted
    else [sorted[0]] + Insert(collate, e, sorted[1..])
  }

  /** The stable sort: entries that tie keep their order. */
  function Sort(collate: Collation, entries: seq<Scored>): seq<Scored> {
    if entries == [] then [] else Insert(collate, entries[0], Sort(collate, entries[1..]))
  }

  predicate Near(e: Scored) {
    0 < e.distance <= SUGGESTION_THRESHOLD
  }

  function OnlyNear(entries: seq<Scored>): seq<Scored> {
    if entries == [] then []
    else (if Near(entries[0]) then [entries[0]] else []) + OnlyNear(entries[1..])
  }

  function Take(entries: seq<Scored>, n: nat): (taken: seq<Scored>)
    ensures taken <= entries
  {
    if |entries| <= n then entries else entries[..n]
  }

  function RankByDistance(collate: Collation, entries: seq<Scored>): seq<Scored> {
    Take(Sort(collate, OnlyNear(entries)), MAX_SUGGESTIONS)
  }

  ghost predicate Sorted(collate: Collation, entries: seq<Scored>) {
    forall i, j | 0 <= i < j < |entries| :: Precedes(collate, entries[i], entries[j])
  }

  lemma {:induction false} InsertAdds(collate: Collation, e: Scored, sorted: seq<Scored>)
    ensures multiset(Insert(collate, e, sorted)) == multiset{e} + multiset(sorted)
    ensures forall x | x in Insert(collate, e, sorted) :: x == e || x in sorted
    decreases |sorted|
  {
    if sorted != [] && !Precedes(collate, e, sorted[0]) {
      InsertAdds(collate, e, sorted[1..]);
      assert sorted == [sorted[0]] + sorted[1..];
    }
  }

  lemma {:induction false} InsertSorts(collate: Collation, e: Scored, sorted: seq<Scored>)
    requires IsCollation(collate) && Sorted(collate, sorted)
    ensures Sorted(collate, Insert(collate, e, sorted))
    decreases |sorted|
  {
    if sorted == [] {
    } else if Precedes(collate, e, sorted[0]) {
      forall j | 0 <= j < |sorted| ensures Precedes(collate, e, sorted[j]) {
        assert j > 0 ==> Precedes(collate, sorted[0], sorted[j]);
      }
    } else {
      InsertSorts(collate, e, sorted[1..]);
      InsertAdds(collate, e, sorted[1..]);
      SortedWith(collate, sorted[0], Insert(collate, e, sorted[1..]));
    }
  }

  lemma SortedWith(collate: Collation, first: Scored, rest: seq<Scored>)
    requires Sorted(collate, rest) && forall x | x in rest :: Precedes(collate, first, x)
    ensures Sorted(collate, [first] + rest)
  {
    var all := [first] + rest;
    forall i, j | 0 <= i < j < |all| ensures Precedes(collate, all[i], all[j]) {
      assert all[j] == rest[j - 1];
    }
  }

  lemma {:induction false} SortSorts(collate: Collation, entries: seq<Scored>)
    requires IsCollation(collate)
    ensures Sorted(collate, Sort(collate, entries))
    ensures multiset(Sort(collate, entries)) == multiset(entries)
    decreases |entries|
  {
    if entries != [] {
      SortSorts(collate, entries[1..]);
      InsertSorts(collate, entries[0], Sort(collate, entries[1..]));
      InsertAdds(collate, entries[0], Sort(collate, entries[1..]));
      assert entries == [entries[0]] + entries[1..];
    }
  }

  lemma {:induction false} OnlyNearKeeps(entries: seq<Scored>)
    ensures forall e :: e in OnlyNear(entries) <==> e in entries && Near(e)
    decreases |entries|
  {
    if entries != [] {
      OnlyNearKeeps(entries[1..]);
      assert entries == [entries[0]] + entries[1..];
    }
  }

  /** The ranking is the best three of the near entries, best first: the near entries are the
      ranked ones and a rest, none of which should have stood before a ranked one. */
  lemma RankingIsBest(collate: Collation, entries: seq<Scored>) returns (rest: seq<Scored>)
    requires IsCollation(collate)
    ensures var ranked := RankByDistance(collate, entries);
            && Sorted(collate, ranked)
            && multiset(OnlyNear(entries)) == multiset(ranked) + multiset(rest)
            && (|ranked| == MAX_SUGGESTIONS || (rest == [] && |ranked| < MAX_SUGGESTIONS))
            && forall kept, e | kept in ranked && e in rest :: Precedes(collate, kept, e)
  {
    var sorted := Sort(collate, OnlyNear(entries));
    SortSorts(collate, OnlyNear(entries));
    var ranked := RankByDistance(collate, entries);
    rest := sorted[|ranked|..];
    assert sorted == ranked + rest;
    SplitSorted(collate, ranked, rest);
  }

  lemma SplitSorted(collate: Collation, front: seq<Scored>, back: seq<Scored>)
    requires Sorted(collate, front + back)
    ensures Sorted(collate, front)
    ensures forall a, b | a in front && b in back :: Precedes(collate, a, b)
  {
    var all := front + back;
    forall i, j | 0 <= i < j < |front| ensures Precedes(collate, front[i], front[j]) {
      assert all[i] == front[i] && all[j] == front[j];
    }
    forall a, b | a in front && b in back ensures Precedes(collate, a, b) {
      var i :| 0 <= i < |front| && front[i] == a;
      var j :| 0 <= j < |back| && back[j] == b;
      assert all[i] == a && all[|front| + j] == b;
    }
  }

  lemma RankedAreNear(collate: Collation, entries: seq<Scored>, e: Scored)
    requires IsCollation(collate) && e in RankByDistance(collate, entries)
    ensures e in entries && Near(e)
  {
    var sorted := Sort(collate, OnlyNear(entries));
    SortSorts(collate, OnlyNear(entries));
    OnlyNearKeeps(entries);
    assert e in sorted;
    assert e in multiset(sorted);
  }

  // ---------------------------------------------------------------- the length prefilter

  function Score(input: string, name: string): Scored {
    Scored(name, Distance(input, name))
  }

  /** Every name scored. */
  function ScoreAll(input: string, labels: seq<string>): seq<Scored> {
    if labels == [] then [] else ScoreAll(input, labels[..|labels| - 1]) + [Score(input, labels[|labels| - 1])]
  }

  /** What the program scores: the labels of about the right length. */
  function ScoreClose(input: string, labels: seq<string>): seq<Scored> {
    if labels == [] then []
    else
      var name := labels[|labels| - 1];
      ScoreClose(input, labels[..|labels| - 1])
      + (if Abs(|input| - |name|) <= SUGGESTION_THRESHOLD then [Score(input, name)] else [])
  }

  lemma {:induction false} OnlyNearAppend(a: seq<Scored>, b: seq<Scored>)
    ensures OnlyNear(a + b) == OnlyNear(a) + OnlyNear(b)
    decreases |a|
  {
    if a == [] {
      assert a + b == b;
    } else {
      RestOfSum(a, b);
      OnlyNearAppend(a[1..], b);
      Reassociate(if Near(a[0]) then [a[0]] else [], OnlyNear(a[1..]), OnlyNear(b));
    }
  }

  /** The prefilter drops only labels the ranking would drop anyway. */
  lemma {:induction false} PrefilterLosesNothing(input: string, labels: seq<string>)
    ensures OnlyNear(ScoreClose(input, labels)) == OnlyNear(ScoreAll(input, labels))
    decreases |labels|
  {
    if labels != [] {
      var name := labels[|labels| - 1];
      var front := labels[..|labels| - 1];
      PrefilterLosesNothing(input, front);
      LengthsBoundDistance(input, name);
      var one := [Score(input, name)];
      assert one[1..] == [];
      OnlyNearAppend(ScoreAll(input, front), one);
      OnlyNearAppend(ScoreClose(input, front), one);
      OnlyNearAppend(ScoreClose(input, front), []);
      assert ScoreClose(input, front) + [] == ScoreClose(input, front);
    }
  }

  // ---------------------------------------------------------------- commands

  function Join(words: seq<string>): string {
    if words == [] then "" else if |words| == 1 then words[0] else words[0] + " " + Join(words[1..])
  }

  /** A destructive command may be offered only for a final word within one edit of a verb
      linked to the command's own. */
  ghost predicate MayOffer(specs: seq<CommandSpec>, commandPath: seq<string>, spec: CommandSpec) {
    && spec in specs && !spec.hidden
    && (spec.destructive ==>
          exists verb :: Linked(specs, FinalToken(spec.path), verb)
                      && Distance(FinalToken(commandPath), verb) <= DESTRUCTIVE_INTENT_THRESHOLD)
  }

  /** A spelling of the spec cut to the depth of what was typed, if it has that depth. */
  ghost predicate Spells(spec: CommandSpec, depth: nat, name: string) {
    exists path :: path in SpecPaths(spec) && SpellsAs(path, depth, name)
  }

  /** The spellings of the commands that may be offered, in the order of declaration, each
      where it is first met. */
  ghost function OfferedLabels(specs: seq<CommandSpec>, n: nat, commandPath: seq<string>): seq<string>
    requires n <= |specs|
  {
    if n == 0 then []
    else
      var before := OfferedLabels(specs, n - 1, commandPath);
      if MayOffer(specs, commandPath, specs[n - 1])
      then AddSpellings(before, SpecPaths(specs[n - 1]), |SpecPaths(specs[n - 1])|, |commandPath|)
      else before
  }

  /** A path cut to the depth of what was typed. */
  function CutTo(path: seq<string>, depth: nat): seq<string> {
    if depth == 1 && path != [] then path[..1] else path
  }

  function AddSpellings(before: seq<string>, paths: seq<seq<string>>, k: nat, depth: nat): seq<string>
    requires k <= |paths|
  {
    if k == 0 then before
    else
      var labels := AddSpellings(before, paths, k - 1, depth);
      var cut := CutTo(paths[k - 1], depth);
      if |cut| == depth && Join(cut) !in labels then labels + [Join(cut)] else labels
  }

  /** The labels are the spellings of the commands that may be offered, each once. */
  ghost predicate Offers(specs: seq<CommandSpec>, commandPath: seq<string>, labels: seq<string>) {
    && (forall name :: name in labels <==>
          exists spec :: MayOffer(specs, commandPath, spec) && Spells(spec, |commandPath|, name))
    && (forall i, j | 0 <= i < j < |labels| :: labels[i] != labels[j])
  }

  method SuggestCommands(collate: Collation, specs: seq<CommandSpec>, commandPath: seq<string>)
    returns (suggestions: seq<string>)
    requires IsCollation(collate)
    ensures var labels := OfferedLabels(specs, |specs|, commandPath);
            && Offers(specs, commandPath, labels)
            && suggestions == Labels(RankByDistance(collate, ScoreAll(Join(commandPath), labels)))
  {
    var input := Join(commandPath);
    var families := DestructiveVerbFamilies(specs);
    var seen: set<string> := {};
    var scored: seq<Scored> := [];
    ghost var labels: seq<string> := [];
    for n := 0 to |specs|
      invariant Collected(input, seen, scored, labels)
      invariant labels == OfferedLabels(specs, n, commandPath)
      invariant OffersFirst(specs, n, commandPath, labels)
    {
      var offered := MayOfferSpec(specs, specs[n], families, commandPath);
      ghost var before := labels;
      if offered {
        seen, scored, labels := OfferSpec(specs[n], |commandPath|, input, seen, scored, labels);
      }
      OffersNext(specs, n, commandPath, before, labels);
    }
    AllAreOffered(specs, commandPath, labels);
    PrefilterLosesNothing(input, labels);
    suggestions := Labels(RankByDistance(collate, scored));
  }

  /** A hidden command is never offered, a destructive one only on intent. */
  method MayOfferSpec(
    specs: seq<CommandSpec>, spec: CommandSpec, families: map<string, set<string>>, commandPath: seq<string>)
    returns (offered: bool)
    requires AreFamilies(specs, families) && spec in specs
    ensures offered <==> MayOffer(specs, commandPath, spec)
  {
    if spec.hidden { return false; }
    if !spec.destructive { return true; }
    var verb := FinalToken(spec.path);
    OwnVerbHasFamily(specs, spec, families);
    offered := IntendsDestruction(FinalToken(commandPath), if verb in families then families[verb] else {});
  }

  /** The labels offered by the first n commands. */
  ghost predicate OffersFirst(specs: seq<CommandSpec>, n: nat, commandPath: seq<string>, labels: seq<string>)
    requires n <= |specs|
  {
    forall name :: name in labels <==>
      exists k :: 0 <= k < n && MayOffer(specs, commandPath, specs[k]) && Spells(specs[k], |commandPath|, name)
  }

  lemma OffersNext(specs: seq<CommandSpec>, n: nat, commandPath: seq<string>, before: seq<string>, labels: seq<string>)
    requires n < |specs| && OffersFirst(specs, n, commandPath, before)
    requires if MayOffer(specs, commandPath, specs[n])
             then forall name :: name in labels <==> name in before || Spells(specs[n], |commandPath|, name)
             else labels == before
    ensures OffersFirst(specs, n + 1, commandPath, labels)
  {}

  lemma AllAreOffered(specs: seq<CommandSpec>, commandPath: seq<string>, labels: seq<string>)
    requires OffersFirst(specs, |specs|, commandPath, labels)
    ensures forall name :: name in labels <==>
              exists spec :: MayOffer(specs, commandPath, spec) && Spells(spec, |commandPath|, name)
  {
    forall name ensures name in labels <==>
        exists spec :: MayOffer(specs, commandPath, spec) && Spells(spec, |commandPath|, name)
    {
      if spec :| MayOffer(specs, commandPath, spec) && Spells(spec, |commandPath|, name) {
        var k :| 0 <= k < |specs| && specs[k] == spec;
      }
    }
  }

  /** What is suggested is a near spelling of a command that may be offered: no destructive
      command is ever suggested without a verb of its family within one edit. */
  lemma SuggestionsAreOffered(
    collate: Collation, specs: seq<CommandSpec>, commandPath: seq<string>, labels: seq<string>, suggestion: string)
    requires IsCollation(collate) && Offers(specs, commandPath, labels)
    requires suggestion in Labels(RankByDistance(collate, ScoreAll(Join(commandPath), labels)))
    ensures 0 < Distance(Join(commandPath), suggestion) <= SUGGESTION_THRESHOLD
    ensures exists spec :: MayOffer(specs, commandPath, spec) && Spells(spec, |commandPath|, suggestion)
  {
    var ranked := RankByDistance(collate, ScoreAll(Join(commandPath), labels));
    var k :| 0 <= k < |ranked| && ranked[k].name == suggestion;
    RankedAreNear(collate, ScoreAll(Join(commandPath), labels), ranked[k]);
    ScoresAreDistances(Join(commandPath), labels, ranked[k]);
  }

  lemma {:induction false} ScoresAreDistances(input: string, labels: seq<string>, e: Scored)
    requires e in ScoreAll(input, labels)
    ensures e.name in labels && e.distance == Distance(input, e.name)
    decreases |labels|
  {
    var front := labels[..|labels| - 1];
    if e in ScoreAll(input, front) {
      ScoresAreDistances(input, front, e);
    }
  }

  lemma OwnVerbHasFamily(specs: seq<CommandSpec>, spec: CommandSpec, families: map<string, set<string>>)
    requires AreFamilies(specs, families) && spec in specs && spec.destructive
    ensures FinalToken(spec.path) in families
  {
    assert spec.path in SpecPaths(spec);
    assert HasVerb(spec, FinalToken(spec.path));
    assert IsDestructiveVerb(specs, FinalToken(spec.path));
  }

  function Labels(entries: seq<Scored>): seq<string> {
    seq(|entries|, k requires 0 <= k < |entries| => entries[k].name)
  }

  /** The labels met so far, each once, with the set of them and the scores of the close ones. */
  ghost predicate Collected(input: string, seen: set<string>, scored: seq<Scored>, labels: seq<string>) {
    && scored == ScoreClose(input, labels)
    && (forall name :: name in seen <==> name in labels)
    && (forall i, j | 0 <= i < j < |labels| :: labels[i] != labels[j])
  }

  lemma CollectOne(input: string, seen: set<string>, scored: seq<Scored>, labels: seq<string>, name: string)
    requires Collected(input, seen, scored, labels) && name !in seen
    ensures Collected(input, seen + {name},
                      if Abs(|input| - |name|) <= SUGGESTION_THRESHOLD then scored + [Score(input, name)] else scored,
                      labels + [name])
  {
    var longer := labels + [name];
    Front(labels, name);
    assert scored + [] == scored;
    forall i, j | 0 <= i < j < |longer| ensures longer[i] != longer[j] {
      assert longer[i] in labels;
    }
  }

  /** The spellings of one spec, each counted the first time it is seen. */
  method OfferSpec(
    spec: CommandSpec, depth: nat, input: string, seenBefore: set<string>, scoredBefore: seq<Scored>,
    ghost labelsBefore: seq<string>)
    returns (seen: set<string>, scored: seq<Scored>, ghost labels: seq<string>)
    requires Collected(input, seenBefore, scoredBefore, labelsBefore)
    ensures Collected(input, seen, scored, labels)
    ensures labels == AddSpellings(labelsBefore, SpecPaths(spec), |SpecPaths(spec)|, depth)
    ensures forall name :: name in labels <==> name in labelsBefore || Spells(spec, depth, name)
  {
    seen, scored, labels := seenBefore, scoredBefore, labelsBefore;
    var paths := SpecPaths(spec);
    for k := 0 to |paths|
      invariant Collected(input, seen, scored, labels)
      invariant labels == AddSpellings(labelsBefore, paths, k, depth)
      invariant Offered(labelsBefore, labels, paths, k, depth)
    {
      var candidate := CutTo(paths[k], depth);
      if |candidate| != depth {
        PassOver(labelsBefore, labels, paths, k, depth);
        continue;
      }
      var joined := Join(candidate);
      OfferOne(labelsBefore, labels, paths, k, depth, joined);
      if joined in seen { continue; }
      CollectOne(input, seen, scored, labels, joined);
      seen := seen + {joined};
      labels := labels + [joined];
      if Abs(|input| - |joined|) <= SUGGESTION_THRESHOLD {
        var distance := Levenshtein(input, joined);
        scored := scored + [Scored(joined, distance)];
      }
    }
    AllOffered(labelsBefore, labels, spec, depth);
  }

  /** The labels are those there were and the spellings among the first k paths. */
  ghost predicate Offered(
    labelsBefore: seq<string>, labels: seq<string>, paths: seq<seq<string>>, k: nat, depth: nat)
    requires k <= |paths|
  {
    forall name :: name in labels <==> name in labelsBefore || SpelledBefore(paths, k, depth, name)
  }

  ghost predicate SpelledBefore(paths: seq<seq<string>>, k: nat, depth: nat, name: string)
    requires k <= |paths|
  {
    exists m :: 0 <= m < k && SpellsAs(paths[m], depth, name)
  }

  lemma SpelledNext(paths: seq<seq<string>>, k: nat, depth: nat, name: string)
    requires k < |paths|
    ensures SpelledBefore(paths, k + 1, depth, name)
         <==> SpelledBefore(paths, k, depth, name) || SpellsAs(paths[k], depth, name)
  {}

  lemma PassOver(labelsBefore: seq<string>, labels: seq<string>, paths: seq<seq<string>>, k: nat, depth: nat)
    requires k < |paths| && Offered(labelsBefore, labels, paths, k, depth)
    requires |CutTo(paths[k], depth)| != depth
    ensures Offered(labelsBefore, labels, paths, k + 1, depth)
  {
    forall name ensures name in labels <==> name in labelsBefore || SpelledBefore(paths, k + 1, depth, name) {
      SpelledNext(paths, k, depth, name);
    }
  }

  lemma OfferOne(
    labelsBefore: seq<string>, labels: seq<string>, paths: seq<seq<string>>, k: nat, depth: nat, joined: string)
    requires k < |paths| && Offered(labelsBefore, labels, paths, k, depth) && SpellsAs(paths[k], depth, joined)
    ensures Offered(labelsBefore, if joined in labels then labels else labels + [joined], paths, k + 1, depth)
  {
    var more := if joined in labels then labels else labels + [joined];
    forall name ensures name in more <==> name in labelsBefore || SpelledBefore(paths, k + 1, depth, name) {
      SpelledNext(paths, k, depth, name);
      assert name in more <==> name in labels || name == joined;
    }
  }

  lemma AllOffered(labelsBefore: seq<string>, labels: seq<string>, spec: CommandSpec, depth: nat)
    requires Offered(labelsBefore, labels, SpecPaths(spec), |SpecPaths(spec)|, depth)
    ensures forall name :: name in labels <==> name in labelsBefore || Spells(spec, depth, name)
  {
    forall name ensures name in labels <==> name in labelsBefore || Spells(spec, depth, name) {
      AllSpellings(spec, depth, name);
    }
  }

  lemma AllSpellings(spec: CommandSpec, depth: nat, name: string)
    ensures Spells(spec, depth, name) <==> SpelledBefore(SpecPaths(spec), |SpecPaths(spec)|, depth, name)
  {
    if Spells(spec, depth, name) {
      var path :| path in SpecPaths(spec) && SpellsAs(path, depth, name);
      var m :| 0 <= m < |SpecPaths(spec)| && SpecPaths(spec)[m] == path;
    }
  }

  predicate SpellsAs(path: seq<string>, depth: nat, name: string) {
    |CutTo(path, depth)| == depth && name == Join(CutTo(path, depth))
  }

  // ---------------------------------------------------------------- flags

  /** The one flag that has been renamed. */
  function Synonym(flag: string): (name: string) {
    if flag == "from" then "terminal" else ""
  }

  function Without(names: seq<string>, name: string): (rest: seq<string>)
    ensures name !in rest
    ensures forall n | n in rest :: n in names
  {
    if names == [] then []
    else (if names[0] == name then [] else [names[0]]) + Without(names[1..], name)
  }

  method SuggestFlags(collate: Collation, flag: string, validFlags: seq<string>) returns (suggestions: seq<string>)
    ensures var ranked := Labels(RankByDistance(collate, ScoreAll(flag, validFlags)));
            suggestions ==
              if flag == "from" && "terminal" in validFlags
              then var all := ["terminal"] + Without(ranked, "terminal");
                   if |all| <= MAX_SUGGESTIONS then all else all[..MAX_SUGGESTIONS]
              else ranked
  {
    var scored: seq<Scored> := [];
    for n := 0 to |validFlags|
      invariant scored == ScoreClose(flag, validFlags[..n])
    {
      var candidate := validFlags[n];
      assert validFlags[..n + 1][..n] == validFlags[..n];
      if Abs(|flag| - |candidate|) <= SUGGESTION_THRESHOLD {
        var distance := Levenshtein(flag, candidate);
        scored := scored + [Scored(candidate, distance)];
      }
    }
    assert validFlags[..|validFlags|] == validFlags;
    PrefilterLosesNothing(flag, validFlags);
    var ranked := Labels(RankByDistance(collate, scored));
    var synonym := Synonym(flag);
    if synonym != "" && synonym in validFlags {
      var all := [synonym] + Without(ranked, synonym);
      return if |all| <= MAX_SUGGESTIONS then all else all[..MAX_SUGGESTIONS];
    }
    return ranked;
  }
}
