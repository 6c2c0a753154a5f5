/** The numbers a rendering gives out: an element is numbered by the length of the record list,
    and compaction shortens that list. When numbers stay positions, and when one repeats. */
module RenderedNumbers {
  import opened Options
  import opened Seqs
  import opened TabCompaction
  import opened AccessibilityTree

  // ---------------------------------------------------------------- records and lines in step

  /** Numbers are positions, and every record has its one line. */
  ghost predicate InStep(r: Rendered) {
    Numbered(r.records) && OneToOne(r)
  }

  lemma {:induction false} NumbersArePositions(records: seq<Record>)
    ensures |Indexes(records)| == |records|
    ensures forall k | 0 <= k < |records| :: Indexes(records)[k] == records[k].index
    decreases |records|
  {
    if records != [] {
      NumbersArePositions(records[..|records| - 1]);
    }
  }

  lemma {:induction false} LineNumbersAre(lines: seq<Line>, n: nat)
    ensures n in ElementIndexes(lines) <==> exists k :: 0 <= k < |lines| && lines[k].Element? && lines[k].index == n
    decreases |lines|
  {
    if lines != [] {
      var front := lines[..|lines| - 1];
      LineNumbersAre(front, n);
      if k :| 0 <= k < |front| && front[k].Element? && front[k].index == n {
        assert lines[k] == front[k];
      }
      if k :| 0 <= k < |lines| && lines[k].Element? && lines[k].index == n {
        assert k < |front| ==> front[k] == lines[k];
      }
    }
  }

  lemma {:induction false} UniqueNumbers(lines: seq<Line>)
    requires UniqueLines(lines)
    ensures Distinct(ElementIndexes(lines))
    decreases |lines|
  {
    if lines != [] {
      var front, last := lines[..|lines| - 1], lines[|lines| - 1];
      assert UniqueLines(front) by {
        forall i, j | 0 <= i < j < |front| && front[i].Element? && front[j].Element?
          ensures front[i].index != front[j].index
        {
          assert lines[i] == front[i] && lines[j] == front[j];
        }
      }
      UniqueNumbers(front);
      if last.Element? {
        LineNumbersAre(front, last.index);
        assert last.index !in ElementIndexes(front) by {
          forall k | 0 <= k < |front| && front[k].Element? ensures front[k].index != last.index {
            assert lines[k] == front[k];
          }
        }
      }
    }
  }

  ghost predicate Distinct(numbers: seq<nat>) {
    forall i, j | 0 <= i < j < |numbers| :: numbers[i] != numbers[j]
  }

  /** Two records with one number. */
  ghost predicate Repeats(records: seq<Record>) {
    exists i, j :: 0 <= i < j < |records| && records[i].index == records[j].index
  }

  lemma OneToOneRepeatsNothing(r: Rendered)
    requires OneToOne(r)
    ensures !Repeats(r.records)
  {
    UniqueNumbers(r.lines);
    NumbersArePositions(r.records);
  }

  lemma LineNumberIsKnown(r: Rendered, k: nat)
    requires InStep(r) && k < |r.lines| && r.lines[k].Element?
    ensures r.lines[k].index < |r.records|
  {
    LineNumbersAre(r.lines, r.lines[k].index);
    NumbersArePositions(r.records);
  }

  lemma ShowStaysInStep(rules: Rules, node: Node, depth: nat, path: seq<nat>, w: Walked)
    requires InStep(w.out)
    ensures InStep(Show(rules, node, depth, path, w).out)
  {
    var n := |w.out.records|;
    var record, line := MakeRecord(node, n, path), MakeLine(rules, node, n, depth);
    Front(w.out.records, record);
    Front(w.out.lines, line);
    forall k | 0 <= k < |w.out.lines| && w.out.lines[k].Element? ensures w.out.lines[k].index != n {
      LineNumberIsKnown(w.out, k);
    }
  }

  // ---------------------------------------------------------------- going on after a compaction

  // An element about to be shown.
  datatype Spot = Spot(node: Node, depth: nat, path: seq<nat>)

  /** What the renderer makes of elements shown one after the other. */
  function ShowAll(rules: Rules, spots: seq<Spot>, w: Walked): Walked
    decreases |spots|
  {
    if spots == [] then w
    else ShowAll(rules, spots[1..], Show(rules, spots[0].node, spots[0].depth, spots[0].path, w))
  }

  lemma {:induction false} ShowAllStaysInStep(rules: Rules, spots: seq<Spot>, w: Walked)
    requires InStep(w.out)
    ensures InStep(ShowAll(rules, spots, w).out)
    decreases |spots|
  {
    if spots != [] {
      ShowStaysInStep(rules, spots[0].node, spots[0].depth, spots[0].path, w);
      ShowAllStaysInStep(rules, spots[1..], Show(rules, spots[0].node, spots[0].depth, spots[0].path, w));
    }
  }

  /** r is w with a record and a line for each spot, numbered by the records before it. */
  ghost predicate Adds(rules: Rules, spots: seq<Spot>, w: Rendered, r: Rendered) {
    var n, m := |w.records|, |w.lines|;
    && |r.records| == n + |spots| && r.records[..n] == w.records
    && |r.lines| == m + |spots| && r.lines[..m] == w.lines
    && (forall k | 0 <= k < |spots| :: r.records[n + k] == MakeRecord(spots[k].node, n + k, spots[k].path))
    && (forall k | 0 <= k < |spots| :: r.lines[m + k] == MakeLine(rules, spots[k].node, n + k, spots[k].depth))
  }

  lemma AddsOneMore(rules: Rules, spots: seq<Spot>, w: Rendered, next: Rendered, r: Rendered)
    requires spots != [] && Adds(rules, spots[..1], w, next) && Adds(rules, spots[1..], next, r)
    ensures Adds(rules, spots, w, r)
  {
    var n, m := |w.records|, |w.lines|;
    assert r.records[..n] == r.records[..n + 1][..n] && r.lines[..m] == r.lines[..m + 1][..m];
    forall k | 0 <= k < |spots|
      ensures r.records[n + k] == MakeRecord(spots[k].node, n + k, spots[k].path)
      ensures r.lines[m + k] == MakeLine(rules, spots[k].node, n + k, spots[k].depth)
    {
      if k == 0 {
        assert spots[..1][k] == spots[k] && next.records[n + k] == r.records[..n + 1][n];
        assert next.lines[m + k] == r.lines[..m + 1][m];
      } else {
        var j := k - 1;
        assert spots[1..][j] == spots[k];
        assert r.records[n + 1 + j] == r.records[n + k] && r.lines[m + 1 + j] == r.lines[m + k];
      }
    }
  }

  lemma {:induction false} ShowAllAdds(rules: Rules, spots: seq<Spot>, w: Walked)
    ensures var r := ShowAll(rules, spots, w);
            && Adds(rules, spots, w.out, r.out)
            && r.truncated == w.truncated && r.maxDepthReached == w.maxDepthReached
    decreases |spots|
  {
    if spots == [] {
      assert w.out.records[..|w.out.records|] == w.out.records && w.out.lines[..|w.out.lines|] == w.out.lines;
    } else {
      var first := spots[0];
      var next := Show(rules, first.node, first.depth, first.path, w);
      Front(w.out.records, MakeRecord(first.node, |w.out.records|, first.path));
      Front(w.out.lines, MakeLine(rules, first.node, |w.out.records|, first.depth));
      ShowAllAdds(rules, spots[1..], next);
      AddsOneMore(rules, spots, w.out, next.out, ShowAll(rules, spots, w).out);
    }
  }

  /** The numbers the tabs that go take with them. */
  function GoneNumbers(r: Rendered, start: nat, depth: nat): set<nat>
    requires start <= |r.lines| && Compacts(r, start, depth)
  {
    ToSet(Gone(r.lines[TabLines(r.lines, start, depth)[0]..], depth, r.records))
  }

  lemma CompactedParts(r: Rendered, start: nat, depth: nat)
    requires start <= |r.lines| && Compacts(r, start, depth)
    ensures var first := TabLines(r.lines, start, depth)[0];
            Compact(r, start, depth) ==
              Rendered(Without(r.records, GoneNumbers(r, start, depth)),
                       r.lines[..first] + [Omitted(depth, |Gone(r.lines[first..], depth, r.records)|)]
                       + Kept(r.lines[first..], depth, r.records))
  {}

  /** Nothing is kept behind something that goes: what is left has the lowest numbers. */
  predicate NoGaps(count: nat, gone: set<nat>) {
    forall a, b | 0 <= a < b < count && a in gone :: b in gone
  }

  lemma {:induction false} WithoutStaysNumbered(records: seq<Record>, gone: set<nat>)
    requires Numbered(records) && NoGaps(|records|, gone)
    ensures Numbered(Without(records, gone))
    decreases |records|
  {
    if records != [] {
      var n := |records| - 1;
      var front := records[..n];
      WithoutStaysNumbered(front, gone);
      WithoutCounts(front, gone);
      if records[n].index !in gone {
        forall k | 0 <= k < n ensures k !in gone {
          assert !(k in gone && n !in gone);
        }
      }
    }
  }

  /** A compaction leaves numbers that are positions exactly when it leaves no gaps. */
  lemma TidyStaysInStep(r: Rendered, start: nat, depth: nat)
    requires start <= |r.lines| && InStep(r) && Compacts(r, start, depth)
    ensures InStep(Compact(r, start, depth)) <==> NoGaps(|r.records|, GoneNumbers(r, start, depth))
  {
    var gone := GoneNumbers(r, start, depth);
    var kept := Without(r.records, gone);
    CompactKeepsOneToOne(r, start, depth);
    NextNumbersAreFree(r.records, gone);
    if NoGaps(|r.records|, gone) {
      WithoutStaysNumbered(r.records, gone);
    }
    if Numbered(kept) {
      forall x | x in kept ensures x.index < |kept| {
        var k :| 0 <= k < |kept| && kept[k] == x;
      }
    }
  }

  /** A gap leaves a record whose number is still to be given out. */
  lemma GapLeavesLateNumber(r: Rendered, start: nat, depth: nat) returns (i: nat)
    requires start <= |r.lines| && InStep(r) && Compacts(r, start, depth)
    requires !NoGaps(|r.records|, GoneNumbers(r, start, depth))
    ensures var kept := Compact(r, start, depth).records;
            i < |kept| <= kept[i].index < |r.records|
  {
    var kept := Compact(r, start, depth).records;
    NextNumbersAreFree(r.records, GoneNumbers(r, start, depth));
    var x :| x in kept && x.index >= |kept|;
    WithoutCounts(r.records, GoneNumbers(r, start, depth));
    var k :| 0 <= k < |r.records| && r.records[k] == x;
    i :| 0 <= i < |kept| && kept[i] == x;
  }

  lemma LateNumberRepeats(rules: Rules, w: Walked, spots: seq<Spot>, i: nat)
    requires i < |w.out.records| <= w.out.records[i].index < |w.out.records| + |spots|
    ensures Repeats(ShowAll(rules, spots, w).out.records)
  {
    var n := |w.out.records|;
    ShowAllAdds(rules, spots, w);
    var all := ShowAll(rules, spots, w).out.records;
    var k := w.out.records[i].index - n;
    assert all[i] == all[..n][i];
    assert all[n + k] == MakeRecord(spots[k].node, n + k, spots[k].path);
  }

  /** With a gap the rendering repeats a number as soon as as many elements have been shown
      again as the compaction took out, whatever they are. */
  lemma GapRepeatsANumber(rules: Rules, r: Rendered, start: nat, depth: nat, w: Walked, spots: seq<Spot>)
    requires start <= |r.lines| && InStep(r) && Compacts(r, start, depth)
    requires !NoGaps(|r.records|, GoneNumbers(r, start, depth))
    requires w.out == Compact(r, start, depth) && |w.out.records| + |spots| >= |r.records|
    ensures Repeats(ShowAll(rules, spots, w).out.records)
  {
    var i := GapLeavesLateNumber(r, start, depth);
    LateNumberRepeats(rules, w, spots, i);
  }

  const BLANK: Node := Node(0, "", "", "", "", "", "", false, [], [])

  /** Exactly when a compaction leaves no gaps does every way of going on within the cap keep
      records and lines one to one. */
  lemma ContinuationsStayOneToOne(rules: Rules, w: Walked, start: nat, depth: nat)
    requires rules.compact && start <= |w.out.lines| && InStep(w.out) && Compacts(w.out, start, depth)
    requires |w.out.records| <= MAX_NODES
    ensures var t := Tidy(rules, w, start, depth);
            (forall spots | |t.out.records| + |spots| <= MAX_NODES :: OneToOne(ShowAll(rules, spots, t).out))
              <==> NoGaps(|w.out.records|, GoneNumbers(w.out, start, depth))
  {
    var t := Tidy(rules, w, start, depth);
    if NoGaps(|w.out.records|, GoneNumbers(w.out, start, depth)) {
      TidyStaysInStep(w.out, start, depth);
      forall spots ensures OneToOne(ShowAll(rules, spots, t).out) {
        ShowAllStaysInStep(rules, spots, t);
      }
    } else {
      TidyOnlyDrops(rules, w, start, depth);
      var spots := seq(|w.out.records| - |t.out.records|, _ => Spot(BLANK, 0, []));
      GapRepeatsANumber(rules, w.out, start, depth, t, spots);
      if OneToOne(ShowAll(rules, spots, t).out) {
        OneToOneRepeatsNothing(ShowAll(rules, spots, t).out);
      }
    }
  }

  // ---------------------------------------------------------------- whole renderings

  /** The tidying of this rendering, if it compacts, leaves no gaps. */
  ghost predicate CleanTidy(rules: Rules, r: Rendered, start: nat, depth: nat)
    requires start <= |r.lines|
  {
    rules.compact && Compacts(r, start, depth) ==> NoGaps(|r.records|, GoneNumbers(r, start, depth))
  }

  /** No compaction of a rendering leaves gaps. */
  ghost predicate CleanWalk(rules: Rules, node: Node, depth: nat, path: seq<nat>, w: Walked)
    decreases node, 1, 0
  {
    if Full(w, depth) then true
    else if ShouldElide(rules, node) then
      !SuppressChildren(node) ==> CleanBelow(rules, node, 0, depth, path, w)
    else if !Descends(rules, node) then true
    else
      var shown := Show(rules, node, depth, path, w);
      && CleanBelow(rules, node, 0, depth + 1, path, shown)
      && CleanTidy(rules, WalkChildren(rules, node, 0, depth + 1, path, shown).out, |shown.out.lines|, depth + 1)
  }

  ghost predicate CleanBelow(rules: Rules, node: Node, i: nat, depth: nat, path: seq<nat>, w: Walked)
    requires i <= |node.children|
    decreases node, 0, |node.children| - i
  {
    if i == |node.children| then true
    else if node.children[i].None? then CleanBelow(rules, node, i + 1, depth, path, w)
    else
      var child := node.children[i].value;
      && CleanWalk(rules, child, depth, path + [i], w)
      && CleanBelow(rules, node, i + 1, depth, path, Walk(rules, child, depth, path + [i], w))
  }

  /** If no compaction leaves gaps, the whole rendering keeps numbers that are positions and
      records and lines one to one. */
  lemma {:induction false} WalkStaysInStep(rules: Rules, node: Node, depth: nat, path: seq<nat>, w: Walked)
    requires CleanWalk(rules, node, depth, path, w) && InStep(w.out)
    ensures InStep(Walk(rules, node, depth, path, w).out)
    decreases node, 1, 0
  {
    if Full(w, depth) {
    } else if ShouldElide(rules, node) {
      if !SuppressChildren(node) {
        ChildrenStayInStep(rules, node, 0, depth, path, w);
      }
    } else {
      ShowStaysInStep(rules, node, depth, path, w);
      if Descends(rules, node) {
        var shown := Show(rules, node, depth, path, w);
        ChildrenStayInStep(rules, node, 0, depth + 1, path, shown);
        var below := WalkChildren(rules, node, 0, depth + 1, path, shown);
        if rules.compact && Compacts(below.out, |shown.out.lines|, depth + 1) {
          TidyStaysInStep(below.out, |shown.out.lines|, depth + 1);
        }
      }
    }
  }

  lemma {:induction false} ChildrenStayInStep(
    rules: Rules, node: Node, i: nat, depth: nat, path: seq<nat>, w: Walked)
    requires i <= |node.children| && CleanBelow(rules, node, i, depth, path, w) && InStep(w.out)
    ensures InStep(WalkChildren(rules, node, i, depth, path, w).out)
    decreases node, 0, |node.children| - i
  {
    if i < |node.children| {
      if node.children[i].None? {
        ChildrenStayInStep(rules, node, i + 1, depth, path, w);
      } else {
        WalkStaysInStep(rules, node.children[i].value, depth, path + [i], w);
        ChildrenStayInStep(rules, node, i + 1, depth, path,
                           Walk(rules, node.children[i].value, depth, path + [i], w));
      }
    }
  }

  /** Without compaction every rendering is clean. */
  lemma {:induction false} UncompactedIsClean(rules: Rules, node: Node, depth: nat, path: seq<nat>, w: Walked)
    requires !rules.compact
    ensures CleanWalk(rules, node, depth, path, w)
    decreases node, 1, 0
  {
    UncompactedIsCleanBelow(rules, node, 0, depth, path, w);
    UncompactedIsCleanBelow(rules, node, 0, depth + 1, path, Show(rules, node, depth, path, w));
  }

  lemma {:induction false} UncompactedIsCleanBelow(
    rules: Rules, node: Node, i: nat, depth: nat, path: seq<nat>, w: Walked)
    requires i <= |node.children| && !rules.compact
    ensures CleanBelow(rules, node, i, depth, path, w)
    decreases node, 0, |node.children| - i
  {
    if i < |node.children| {
      if node.children[i].None? {
        UncompactedIsCleanBelow(rules, node, i + 1, depth, path, w);
      } else {
        UncompactedIsClean(rules, node.children[i].value, depth, path + [i], w);
        UncompactedIsCleanBelow(rules, node, i + 1, depth, path,
                                Walk(rules, node.children[i].value, depth, path + [i], w));
      }
    }
  }

  // ---------------------------------------------------------------- without compaction

  /** Numbers are positions, every record has its line, and no line is too deep. */
  ghost predicate LineByLine(w: Walked) {
    && Numbered(w.out.records) && |w.out.lines| == |w.out.records|
    && forall k | 0 <= k < |w.out.lines| ::
         w.out.lines[k].Element? && w.out.lines[k].index == k && w.out.lines[k].depth <= MAX_DEPTH
  }

  lemma {:induction false} UncompactedIsLineByLine(rules: Rules, node: Node, depth: nat, path: seq<nat>, w: Walked)
    requires !rules.compact && LineByLine(w)
    ensures LineByLine(Walk(rules, node, depth, path, w))
    decreases node, 1, 0
  {
    if Full(w, depth) {
    } else if ShouldElide(rules, node) {
      if !SuppressChildren(node) {
        ChildrenStayLineByLine(rules, node, 0, depth, path, w);
      }
    } else if Descends(rules, node) {
      ChildrenStayLineByLine(rules, node, 0, depth + 1, path, Show(rules, node, depth, path, w));
    }
  }

  lemma {:induction false} ChildrenStayLineByLine(
    rules: Rules, node: Node, i: nat, depth: nat, path: seq<nat>, w: Walked)
    requires i <= |node.children| && !rules.compact && LineByLine(w)
    ensures LineByLine(WalkChildren(rules, node, i, depth, path, w))
    decreases node, 0, |node.children| - i
  {
    if i < |node.children| {
      if node.children[i].Some? {
        UncompactedIsLineByLine(rules, node.children[i].value, depth, path + [i], w);
        ChildrenStayLineByLine(rules, node, i + 1, depth, path,
                               Walk(rules, node.children[i].value, depth, path + [i], w));
      } else {
        ChildrenStayLineByLine(rules, node, i + 1, depth, path, w);
      }
    }
  }
}
