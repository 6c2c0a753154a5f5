/** What a user sees after a typo, in terms of the commands and flags themselves. */
module BestSuggestions {
  import opened Collations
  import opened CommandSpecs
  import opened EditDistance
  import opened CommandSuggestion
  import opened Seqs

  /** a may stand in front of b among the suggestions for this input. */
  predicate Better(collate: Collation, input: string, a: string, b: string) {
    || Distance(input, a) < Distance(input, b)
    || (Distance(input, a) == Distance(input, b) && collate(a, b) <= 0)
  }

  /** Labels within three edits of the input, but not the input itself. */
  ghost predicate AreNear(input: string, labels: seq<string>, suggestions: seq<string>) {
    forall k | 0 <= k < |suggestions| :: suggestions[k] in labels && 1 <= Distance(input, suggestions[k]) <= 3
  }

  ghost predicate AreOrdered(collate: Collation, input: string, suggestions: seq<string>) {
    forall i, j | 0 <= i < j < |suggestions| :: Better(collate, input, suggestions[i], suggestions[j])
  }

  /** A label within three edits is left out only for three that may stand before it. */
  ghost predicate NoneBetter(collate: Collation, input: string, labels: seq<string>, suggestions: seq<string>) {
    forall s | s in labels && s !in suggestions && 1 <= Distance(input, s) <= 3 ::
      |suggestions| == 3 && forall k | 0 <= k < 3 :: Better(collate, input, suggestions[k], s)
  }

  /** At most three of the near labels, best first, and none left out that is better. */
  ghost predicate AreBest(collate: Collation, input: string, labels: seq<string>, suggestions: seq<string>) {
    && |suggestions| <= 3 && AreNear(input, labels, suggestions) && AreOrdered(collate, input, suggestions)
    && NoneBetter(collate, input, labels, suggestions)
  }

  lemma {:induction false} ScoredAreLabels(input: string, labels: seq<string>, e: Scored)
    ensures e in ScoreAll(input, labels) <==> e.name in labels && e.distance == Distance(input, e.name)
    decreases |labels|
  {
    if labels != [] {
      var front, last := labels[..|labels| - 1], labels[|labels| - 1];
      ScoredAreLabels(input, front, e);
      assert labels == front + [last];
    }
  }

  lemma RankedIsNear(collate: Collation, input: string, labels: seq<string>, k: nat)
    requires IsCollation(collate) && k < |RankByDistance(collate, ScoreAll(input, labels))|
    ensures var e := RankByDistance(collate, ScoreAll(input, labels))[k];
            e.name in labels && e.distance == Distance(input, e.name) && 1 <= e.distance <= 3
  {
    var entries := ScoreAll(input, labels);
    var e := RankByDistance(collate, entries)[k];
    assert e in RankByDistance(collate, entries);
    RankedAreNear(collate, entries, e);
    ScoredAreLabels(input, labels, e);
  }

  lemma RankedAreNearLabels(collate: Collation, input: string, labels: seq<string>)
    requires IsCollation(collate)
    ensures AreNear(input, labels, Labels(RankByDistance(collate, ScoreAll(input, labels))))
  {
    forall k: nat | k < |RankByDistance(collate, ScoreAll(input, labels))|
      ensures var e := RankByDistance(collate, ScoreAll(input, labels))[k];
              e.name in labels && 1 <= Distance(input, e.name) <= 3
    {
      RankedIsNear(collate, input, labels, k);
    }
  }

  lemma RankedAreOrdered(collate: Collation, input: string, labels: seq<string>)
    requires IsCollation(collate)
    ensures AreOrdered(collate, input, Labels(RankByDistance(collate, ScoreAll(input, labels))))
  {
    var ranked := RankByDistance(collate, ScoreAll(input, labels));
    var rest := RankingIsBest(collate, ScoreAll(input, labels));
    forall i: nat, j: nat | i < j < |ranked| ensures Better(collate, input, ranked[i].name, ranked[j].name) {
      RankedIsNear(collate, input, labels, i);
      RankedIsNear(collate, input, labels, j);
      assert Precedes(collate, ranked[i], ranked[j]);
    }
  }

  lemma LeftOverIsWorse(collate: Collation, input: string, labels: seq<string>, s: string)
    requires IsCollation(collate) && s in labels && 1 <= Distance(input, s) <= 3
    requires s !in Labels(RankByDistance(collate, ScoreAll(input, labels)))
    ensures var ranked := RankByDistance(collate, ScoreAll(input, labels));
            |ranked| == 3 && forall k | 0 <= k < 3 :: Precedes(collate, ranked[k], Score(input, s))
  {
    var entries, e := ScoreAll(input, labels), Score(input, s);
    var ranked := RankByDistance(collate, entries);
    var rest := RankingIsBest(collate, entries);
    ScoredAreLabels(input, labels, e);
    OnlyNearKeeps(entries);
    assert e in multiset(OnlyNear(entries));
    forall i | 0 <= i < |ranked| ensures ranked[i] != e {
      assert Labels(ranked)[i] == ranked[i].name;
    }
    assert e in rest;
    assert forall k | 0 <= k < |ranked| :: ranked[k] in ranked;
  }

  lemma NoneBetterIsLeft(collate: Collation, input: string, labels: seq<string>)
    requires IsCollation(collate)
    ensures NoneBetter(collate, input, labels, Labels(RankByDistance(collate, ScoreAll(input, labels))))
  {
    var ranked := RankByDistance(collate, ScoreAll(input, labels));
    forall s | s in labels && s !in Labels(ranked) && 1 <= Distance(input, s) <= 3
      ensures |ranked| == 3 && forall k | 0 <= k < 3 :: Better(collate, input, ranked[k].name, s)
    {
      LeftOverIsWorse(collate, input, labels, s);
      RankedIsNear(collate, input, labels, 0);
      RankedIsNear(collate, input, labels, 1);
      RankedIsNear(collate, input, labels, 2);
    }
  }

  lemma RankedAreBest(collate: Collation, input: string, labels: seq<string>)
    requires IsCollation(collate)
    ensures AreBest(collate, input, labels, Labels(RankByDistance(collate, ScoreAll(input, labels))))
  {
    RankedAreNearLabels(collate, input, labels);
    RankedAreOrdered(collate, input, labels);
    NoneBetterIsLeft(collate, input, labels);
  }

  predicate Distinct(labels: seq<string>) {
    forall i, j | 0 <= i < j < |labels| :: labels[i] != labels[j]
  }

  lemma {:induction false} ScoredOnce(input: string, labels: seq<string>, e: Scored)
    requires Distinct(labels)
    ensures multiset(ScoreAll(input, labels))[e] <= 1
    decreases |labels|
  {
    if labels != [] {
      var front, last := labels[..|labels| - 1], labels[|labels| - 1];
      ScoredOnce(input, front, e);
      ScoredAreLabels(input, front, e);
      assert last !in front;
    }
  }

  lemma {:induction false} NearAreFewer(entries: seq<Scored>)
    ensures multiset(OnlyNear(entries)) <= multiset(entries)
    decreases |entries|
  {
    if entries != [] {
      NearAreFewer(entries[1..]);
      assert entries == [entries[0]] + entries[1..];
    }
  }

  lemma TwiceInMultiset(entries: seq<Scored>, i: nat, j: nat)
    requires i < j < |entries| && entries[i] == entries[j]
    ensures multiset(entries)[entries[i]] >= 2
  {
    assert entries == entries[..j] + entries[j..];
    assert entries[..j][i] in multiset(entries[..j]) && entries[j..][0] in multiset(entries[j..]);
  }

  /** Labels met once are suggested at most once. */
  lemma SuggestedOnce(collate: Collation, input: string, labels: seq<string>)
    requires IsCollation(collate) && Distinct(labels)
    ensures Distinct(Labels(RankByDistance(collate, ScoreAll(input, labels))))
  {
    var entries := ScoreAll(input, labels);
    var ranked := RankByDistance(collate, entries);
    var rest := RankingIsBest(collate, entries);
    NearAreFewer(entries);
    forall i: nat, j: nat | i < j < |ranked| ensures ranked[i].name != ranked[j].name {
      RankedIsNear(collate, input, labels, i);
      RankedIsNear(collate, input, labels, j);
      ScoredOnce(input, labels, ranked[i]);
      if ranked[i] == ranked[j] {
        TwiceInMultiset(ranked, i, j);
      }
    }
  }

  // ---------------------------------------------------------------- commands

  /** Typing one word, a command is met by the first word of a spelling; otherwise by a spelling
      of as many words as were typed. */
  ghost predicate MetBy(spec: CommandSpec, depth: nat, name: string) {
    exists path :: path in SpecPaths(spec) && MetByPath(path, depth, name)
  }

  predicate MetByPath(path: seq<string>, depth: nat, name: string) {
    if depth == 1 then path != [] && name == path[0] else |path| == depth && name == Join(path)
  }

  lemma SpellsIsMetBy(spec: CommandSpec, depth: nat, name: string)
    ensures Spells(spec, depth, name) <==> MetBy(spec, depth, name)
  {
    forall path ensures SpellsAs(path, depth, name) <==> MetByPath(path, depth, name) {
      if depth == 1 && path != [] {
        assert path[..1] == [path[0]];
      }
    }
  }

  /** A name the command path may be corrected to: that of a command which is not hidden and, if
      it destroys, has a verb of its family, by chains of shared spellings, within one edit of
      the last word typed. */
  ghost predicate Candidate(specs: seq<CommandSpec>, commandPath: seq<string>, name: string) {
    exists spec :: spec in specs && Corrects(specs, commandPath, spec) && MetBy(spec, |commandPath|, name)
  }

  ghost predicate Corrects(specs: seq<CommandSpec>, commandPath: seq<string>, spec: CommandSpec) {
    && !spec.hidden
    && (spec.destructive ==>
          exists verb :: Linked(specs, FinalToken(spec.path), verb) && Distance(FinalToken(commandPath), verb) <= 1)
  }

  lemma LabelsAreCandidates(specs: seq<CommandSpec>, commandPath: seq<string>, labels: seq<string>, name: string)
    requires Offers(specs, commandPath, labels)
    ensures name in labels <==> Candidate(specs, commandPath, name)
  {
    forall spec ensures Spells(spec, |commandPath|, name) <==> MetBy(spec, |commandPath|, name) {
      SpellsIsMetBy(spec, |commandPath|, name);
    }
    forall spec ensures MayOffer(specs, commandPath, spec) <==> spec in specs && Corrects(specs, commandPath, spec) {}
  }

  /** The labels that may be offered are the candidates, each once. */
  ghost predicate AreCandidates(specs: seq<CommandSpec>, commandPath: seq<string>, labels: seq<string>) {
    Distinct(labels) && forall name :: name in labels <==> Candidate(specs, commandPath, name)
  }

  /** What is suggested for a command path that does not exist is the best of all candidates, no
      name twice. */
  lemma SuggestionsAreBest(collate: Collation, specs: seq<CommandSpec>, commandPath: seq<string>, labels: seq<string>)
    requires IsCollation(collate) && Offers(specs, commandPath, labels)
    ensures var suggestions := Labels(RankByDistance(collate, ScoreAll(Join(commandPath), labels)));
            && AreCandidates(specs, commandPath, labels)
            && AreBest(collate, Join(commandPath), labels, suggestions) && Distinct(suggestions)
  {
    RankedAreBest(collate, Join(commandPath), labels);
    forall name ensures name in labels <==> Candidate(specs, commandPath, name) {
      LabelsAreCandidates(specs, commandPath, labels, name);
    }
    SuggestedOnce(collate, Join(commandPath), labels);
  }

  // ---------------------------------------------------------------- flags

  lemma {:induction false} WithoutNothing(names: seq<string>, name: string)
    requires name !in names
    ensures Without(names, name) == names
    decreases |names|
  {
    if names != [] {
      assert names == [names[0]] + names[1..] && names[0] in names && forall n | n in names[1..] :: n in names;
      WithoutNothing(names[1..], name);
    }
  }

  lemma {:induction false} WithoutAppend(a: seq<string>, b: seq<string>, name: string)
    ensures Without(a + b, name) == Without(a, name) + Without(b, name)
    decreases |a|
  {
    if a == [] {
      Nothing(b);
      Nothing(Without(b, name));
    } else {
      RestOfSum(a, b);
      WithoutAppend(a[1..], b, name);
      Reassociate(if a[0] == name then [] else [a[0]], Without(a[1..], name), Without(b, name));
    }
  }

  /** Putting the renamed flag first takes it out of the place it had and leaves the others in
      their order. */
  lemma WithoutTakesOut(a: seq<string>, name: string, b: seq<string>)
    requires name !in a && name !in b
    ensures Without(a + [name] + b, name) == a + b
  {
    WithoutAppend(a + [name], b, name);
    WithoutAppend(a, [name], name);
    WithoutNothing(a, name);
    WithoutNothing(b, name);
    Nothing(a);
    assert [name][1..] == [];
  }
}
