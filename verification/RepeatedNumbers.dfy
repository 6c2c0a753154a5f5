/** Two windows whose rendering goes wrong: a number given twice, and a record lost. */
module RepeatedNumbers {
  import opened Options
  import opened Seqs
  import opened TabCompaction
  import opened AccessibilityTree
  import opened RenderedNodes
  import opened RenderedNumbers

  const TABS: nat := 12

  const TAB_RULES: Rules := Rules(
    (node: Node) => None, (action: string) => false, (node: Node) => node.role == "page tab", (node: Node) => false, true)

  const START: Walked := Walked(Rendered([], []), false, false)

  // A childless element.
  function Leaf(id: nat, role: string, selected: bool): Node {
    Node(id, role, role, "x", "", "", "", selected, [], [])
  }

  /** A tab bar, its last tab selected. */
  function Bar(id: nat): Node {
    Node(id, "tab bar", "tab bar", "x", "", "", "", false, [],
         seq(TABS, k requires 0 <= k < TABS => Some(Leaf(id + 1 + k, "page tab", k == TABS - 1))))
  }

  function Labels(id: nat): seq<Option<Node>> {
    seq(TABS, k requires 0 <= k < TABS => Some(Leaf(id + k, "label", false)))
  }

  function Window(children: seq<Option<Node>>): Node {
    Node(0, "window", "window", "x", "", "", "", false, [], children)
  }

  // ---------------------------------------------------------------- rendering childless elements

  /** Nothing below: no direct tabs, no compaction. */
  lemma NoTabsNoTidy(w: Walked, start: nat, depth: nat)
    requires start <= |w.out.lines|
    requires forall k | start <= k < |w.out.lines| :: !IsDirectTab(w.out.lines[k], depth)
    ensures Tidy(TAB_RULES, w, start, depth) == w
  {
    var tabs := TabLines(w.out.lines, start, depth);
    if tabs != [] {
      assert IsDirectTab(w.out.lines[tabs[0]], depth);
    }
  }

  lemma LeafWalk(node: Node, depth: nat, path: seq<nat>, w: Walked)
    requires !ShouldElide(TAB_RULES, node) && node.children == [] && !Full(w, depth)
    ensures Walk(TAB_RULES, node, depth, path, w) == Show(TAB_RULES, node, depth, path, w)
  {
    var shown := Show(TAB_RULES, node, depth, path, w);
    NoTabsNoTidy(shown, |shown.out.lines|, depth + 1);
  }

  predicate AllLeaves(children: seq<Option<Node>>) {
    forall j | 0 <= j < |children| ::
      children[j].Some? && children[j].value.children == [] && !ShouldElide(TAB_RULES, children[j].value)
  }

  function SpotsFrom(children: seq<Option<Node>>, i: nat, depth: nat, path: seq<nat>): (spots: seq<Spot>)
    requires i <= |children| && AllLeaves(children[i..])
    ensures |spots| == |children| - i
    ensures forall k | 0 <= k < |spots| :: spots[k] == Spot(children[i + k].value, depth, path + [i + k])
    decreases |children| - i
  {
    if i == |children| then []
    else
      assert children[i..][0] == children[i] && children[i..][1..] == children[i + 1..];
      [Spot(children[i].value, depth, path + [i])] + SpotsFrom(children, i + 1, depth, path)
  }

  /** Childless elements are shown one after the other. */
  lemma {:induction false} LeavesWalk(node: Node, i: nat, depth: nat, path: seq<nat>, w: Walked)
    requires i <= |node.children| && AllLeaves(node.children[i..])
    requires depth <= MAX_DEPTH && |w.out.records| + (|node.children| - i) <= MAX_NODES
    ensures WalkChildren(TAB_RULES, node, i, depth, path, w)
         == ShowAll(TAB_RULES, SpotsFrom(node.children, i, depth, path), w)
    decreases |node.children| - i
  {
    if i < |node.children| {
      assert node.children[i..][0] == node.children[i] && node.children[i..][1..] == node.children[i + 1..];
      var child := node.children[i].value;
      LeafWalk(child, depth, path + [i], w);
      LeavesWalk(node, i + 1, depth, path, Show(TAB_RULES, child, depth, path + [i], w));
      HeadAndRest(Spot(child, depth, path + [i]), SpotsFrom(node.children, i + 1, depth, path));
    }
  }

  // ---------------------------------------------------------------- rendering a tab bar

  /** The bar and its tabs, before the tidying. */
  function BarShown(id: nat, path: seq<nat>, w: Walked): Walked {
    var shown := Show(TAB_RULES, Bar(id), 1, path, w);
    WalkChildren(TAB_RULES, Bar(id), 0, 2, path, shown)
  }

  lemma BarWalk(id: nat, path: seq<nat>, w: Walked)
    requires |w.out.records| + TABS < MAX_NODES
    ensures |w.out.lines| + 1 <= |BarShown(id, path, w).out.lines|
    ensures var b, r := BarShown(id, path, w), Walk(TAB_RULES, Bar(id), 1, path, w);
            r.out == Compact(b.out, |w.out.lines| + 1, 2) && r.truncated == b.truncated
  {}

  /** The bar's record and line, then its tabs', numbered on from n. */
  ghost predicate ShowsBar(r: Rendered, w: Rendered, id: nat) {
    var n, m := |w.records|, |w.lines|;
    && |r.records| == n + 1 + TABS && r.records[..n] == w.records && r.records[n].index == n
    && |r.lines| == m + 1 + TABS && r.lines[..m] == w.lines && r.lines[m] == Element(1, n, false, false)
    && (forall j | n < j <= n + TABS ::
          r.records[j].index == j && r.records[j].selected == (j == n + TABS) && r.records[j].sanitized == "")
    && (forall j | m < j <= m + TABS :: r.lines[j] == Element(2, n + (j - m), true, false))
  }

  lemma BarHasLeaves(id: nat)
    ensures |Bar(id).children| == TABS && AllLeaves(Bar(id).children[0..])
    ensures forall j | 0 <= j < TABS :: Bar(id).children[j] == Some(Leaf(id + 1 + j, "page tab", j == TABS - 1))
  {
    var children := Bar(id).children;
    assert children[0..] == children;
    forall j | 0 <= j < TABS
      ensures children[j].Some? && children[j].value.children == [] && !ShouldElide(TAB_RULES, children[j].value)
    {
      assert children[j] == Some(Leaf(id + 1 + j, "page tab", j == TABS - 1));
    }
  }

  lemma BarIsShownAll(id: nat, path: seq<nat>, w: Walked)
    requires |w.out.records| + TABS < MAX_NODES
    ensures AllLeaves(Bar(id).children[0..])
    ensures BarShown(id, path, w)
         == ShowAll(TAB_RULES, SpotsFrom(Bar(id).children, 0, 2, path), Show(TAB_RULES, Bar(id), 1, path, w))
  {
    BarHasLeaves(id);
    LeavesWalk(Bar(id), 0, 2, path, Show(TAB_RULES, Bar(id), 1, path, w));
  }

  lemma BarShows(id: nat, path: seq<nat>, w: Walked)
    requires |w.out.records| + TABS < MAX_NODES
    ensures var b := BarShown(id, path, w);
            ShowsBar(b.out, w.out, id) && b.truncated == w.truncated && b.maxDepthReached == w.maxDepthReached
  {
    var shown := Show(TAB_RULES, Bar(id), 1, path, w);
    BarHasLeaves(id);
    BarIsShownAll(id, path, w);
    var spots := SpotsFrom(Bar(id).children, 0, 2, path);
    ShowAllAdds(TAB_RULES, spots, shown);
    Front(w.out.records, MakeRecord(Bar(id), |w.out.records|, path));
    Front(w.out.lines, MakeLine(TAB_RULES, Bar(id), |w.out.records|, 1));
    AddedBar(id, path, w.out, shown.out, BarShown(id, path, w).out, spots);
  }

  lemma AddedBar(id: nat, path: seq<nat>, w: Rendered, shown: Rendered, r: Rendered, spots: seq<Spot>)
    requires |shown.records| == |w.records| + 1 && shown.records[..|w.records|] == w.records
    requires shown.records[|w.records|].index == |w.records|
    requires |shown.lines| == |w.lines| + 1 && shown.lines[..|w.lines|] == w.lines
    requires shown.lines[|w.lines|] == Element(1, |w.records|, false, false)
    requires Adds(TAB_RULES, spots, shown, r) && |spots| == TABS
    requires forall k | 0 <= k < TABS ::
               spots[k] == Spot(Leaf(id + 1 + k, "page tab", k == TABS - 1), 2, path + [0 + k])
    ensures ShowsBar(r, w, id)
  {
    var n, m := |w.records|, |w.lines|;
    assert r.records[..n] == r.records[..n + 1][..n] && r.lines[..m] == r.lines[..m + 1][..m];
    assert r.records[n] == r.records[..n + 1][n] && r.lines[m] == r.lines[..m + 1][m];
    forall j | n < j <= n + TABS
      ensures r.records[j].index == j && r.records[j].selected == (j == n + TABS) && r.records[j].sanitized == ""
    {
      var k := j - n - 1;
      assert r.records[n + 1 + k] == MakeRecord(spots[k].node, j, spots[k].path);
    }
    forall j | m < j <= m + TABS ensures r.lines[j] == Element(2, n + (j - m), true, false) {
      var k := j - m - 1;
      assert r.lines[m + 1 + k] == MakeLine(TAB_RULES, spots[k].node, n + (j - m), 2);
    }
  }

  lemma {:induction false} LastRecordWins(records: seq<Record>, k: nat)
    requires k < |records| && forall j | k < j < |records| :: records[j].index != records[k].index
    ensures RecordOf(records, records[k].index) == Some(records[k])
    decreases |records|
  {
    if k < |records| - 1 {
      LastRecordWins(records[..|records| - 1], k);
    }
  }

  /** Of the bar's tabs all but the last go. */
  lemma BarTabsGo(r: Rendered, w: Rendered, id: nat, j: nat)
    requires ShowsBar(r, w, id) && |w.lines| < j <= |w.lines| + TABS
    ensures Goes(r.lines[j], 2, r.records) <==> j < |w.lines| + TABS
  {
    LastRecordWins(r.records, |w.records| + (j - |w.lines|));
  }

  /** The tab line at `at` is one of the tabs; if all lines before it are too, so many come first. */
  lemma {:induction false} TabStands(lines: seq<Line>, start: nat, depth: nat, tabs: seq<nat>, at: nat)
    returns (k: nat)
    requires AreTabs(lines, start, depth, tabs) && start <= at < |lines|
    requires forall j | start <= j <= at :: IsDirectTab(lines[j], depth)
    ensures at - start <= k < |tabs| && tabs[k] == at
    ensures at == start ==> tabs[0] == start
    decreases at - start
  {
    assert at in tabs;
    k :| 0 <= k < |tabs| && tabs[k] == at;
    assert k > 0 ==> tabs[0] < tabs[k];
    if start < at {
      var before := TabStands(lines, start, depth, tabs, at - 1);
      assert forall i | 0 <= i <= before :: tabs[i] <= tabs[before];
    }
  }

  lemma BarCompacts(r: Rendered, w: Rendered, id: nat)
    requires ShowsBar(r, w, id)
    ensures var start := |w.lines| + 1;
            && Compacts(r, start, 2) && TabLines(r.lines, start, 2)[0] == start
            && (forall n: nat :: n in GoneNumbers(r, start, 2) <==> |w.records| < n < |w.records| + TABS)
  {
    var start, end := |w.lines| + 1, |w.lines| + TABS;
    var tabs := TabLines(r.lines, start, 2);
    BarTabsGo(r, w, id, start);
    BarTabsGo(r, w, id, end);
    var _ := TabStands(r.lines, start, 2, tabs, start);
    var k := TabStands(r.lines, start, 2, tabs, end);
    assert Goes(r.lines[tabs[0]], 2, r.records) && !Goes(r.lines[tabs[k]], 2, r.records);
    forall n: nat ensures n in GoneNumbers(r, start, 2) <==> |w.records| < n < |w.records| + TABS {
      BarNumbersGone(r, w, id, n);
    }
  }

  lemma BarNumbersGone(r: Rendered, w: Rendered, id: nat, n: nat)
    requires ShowsBar(r, w, id)
    ensures n in Gone(r.lines[|w.lines| + 1..], 2, r.records) <==> |w.records| < n < |w.records| + TABS
  {
    var start := |w.lines| + 1;
    var tail := r.lines[start..];
    GoneAre(tail, 2, r.records, n);
    forall k | 0 <= k < TABS
      ensures tail[k] == Element(2, |w.records| + 1 + k, true, false)
      ensures Goes(tail[k], 2, r.records) <==> k < TABS - 1
    {
      assert tail[k] == r.lines[start + k];
      BarTabsGo(r, w, id, start + k);
    }
    if |w.records| < n < |w.records| + TABS {
      assert tail[n - |w.records| - 1].index == n;
    }
  }

  // ---------------------------------------------------------------- the first bar of a window

  /** The window's own record and line. */
  function Opened(window: Node): Walked {
    Show(TAB_RULES, window, 0, [], START)
  }

  lemma OpensWithOne(window: Node)
    ensures var o := Opened(window);
            |o.out.records| == |o.out.lines| == 1 && o.out.records[0].index == 0 && !o.truncated
  {}

  /** Only the selected tab is left of the first bar's tabs, under its old number. */
  lemma FirstBar(o: Walked) returns (w: Walked)
    requires |o.out.records| == |o.out.lines| == 1 && o.out.records[0].index == 0 && !o.truncated
    ensures w == Walk(TAB_RULES, Bar(1), 1, [0], o) && !w.truncated
    ensures |w.out.records| == 3 && w.out.records[2].index == TABS + 1
    ensures |w.out.lines| == 4 && w.out.lines[3] == Element(2, TABS + 1, true, false)
    ensures forall k | 1 <= k < 4 :: !IsDirectTab(w.out.lines[k], 1)
  {
    w := Walk(TAB_RULES, Bar(1), 1, [0], o);
    BarWalk(1, [0], o);
    BarShows(1, [0], o);
    FirstBarLeaves(BarShown(1, [0], o).out, o.out);
  }

  lemma FirstBarLeaves(r: Rendered, w: Rendered)
    requires ShowsBar(r, w, 1) && |w.records| == |w.lines| == 1 && w.records[0].index == 0
    ensures var c := Compact(r, 2, 2);
            && |c.records| == 3 && c.records[2].index == TABS + 1
            && |c.lines| == 4 && c.lines[3] == Element(2, TABS + 1, true, false)
            && forall k | 1 <= k < 4 :: !IsDirectTab(c.lines[k], 1)
  {
    BarCompacts(r, w, 1);
    CompactedParts(r, 2, 2);
    assert r.records[0] == r.records[..1][0];
    MiddleGone(r.records, GoneNumbers(r, 2, 2));
    FirstTabsGone(r, w);
    FirstLines(r.lines[..2], |Gone(r.lines[2..], 2, r.records)|);
  }

  lemma FirstLines(head: seq<Line>, count: nat)
    requires |head| == 2 && head[1] == Element(1, 1, false, false)
    ensures var lines := head + [Omitted(2, count)] + [Element(2, TABS + 1, true, false)];
            && |lines| == 4 && lines[3] == Element(2, TABS + 1, true, false)
            && forall k | 1 <= k < 4 :: !IsDirectTab(lines[k], 1)
  {}

  lemma FirstTabsGone(r: Rendered, w: Rendered)
    requires ShowsBar(r, w, 1) && |w.records| == |w.lines| == 1
    ensures Kept(r.lines[2..], 2, r.records) == [Element(2, TABS + 1, true, false)]
    ensures |Gone(r.lines[2..], 2, r.records)| == TABS - 1
  {
    var tail := r.lines[2..];
    var front := tail[..TABS - 1];
    forall k | 0 <= k < TABS - 1 ensures Goes(front[k], 2, r.records) {
      BarTabsGo(r, w, 1, k + 2);
    }
    BarTabsGo(r, w, 1, TABS + 1);
    AllGo(front, 2, r.records);
    assert tail == front + [tail[TABS - 1]];
    Front(front, tail[TABS - 1]);
  }

  /** Two first records and a last one stay. */
  lemma MiddleGone(records: seq<Record>, gone: set<nat>)
    requires |records| > 3 && records[0].index !in gone && records[1].index !in gone
    requires records[|records| - 1].index !in gone
    requires forall k | 2 <= k < |records| - 1 :: records[k].index in gone
    ensures Without(records, gone) == [records[0], records[1], records[|records| - 1]]
  {
    var front := records[..|records| - 1];
    MiddleGoneFrom(front, gone);
  }

  lemma {:induction false} MiddleGoneFrom(records: seq<Record>, gone: set<nat>)
    requires |records| >= 2 && records[0].index !in gone && records[1].index !in gone
    requires forall k | 2 <= k < |records| :: records[k].index in gone
    ensures Without(records, gone) == [records[0], records[1]]
    decreases |records|
  {
    if |records| > 2 {
      MiddleGoneFrom(records[..|records| - 1], gone);
    } else {
      assert records[..1] == [records[0]] && records[..1][..0] == [];
      assert Without(records[..1], gone) == [records[0]];
    }
  }

  lemma {:induction false} AllGo(lines: seq<Line>, depth: nat, records: seq<Record>)
    requires forall k | 0 <= k < |lines| :: Goes(lines[k], depth, records)
    ensures Kept(lines, depth, records) == [] && |Gone(lines, depth, records)| == |lines|
    decreases |lines|
  {
    if lines != [] {
      AllGo(lines[..|lines| - 1], depth, records);
    }
  }

  // ---------------------------------------------------------------- a number given twice

  lemma LabelsAreLeaves(id: nat)
    ensures AllLeaves(Labels(id)) && |Labels(id)| == TABS
  {
    var labels := Labels(id);
    forall j | 0 <= j < TABS
      ensures labels[j].Some? && labels[j].value.children == [] && !ShouldElide(TAB_RULES, labels[j].value)
    {
      assert labels[j] == Some(Leaf(id + j, "label", false));
    }
  }

  lemma WindowOpens(children: seq<Option<Node>>)
    ensures var below := WalkChildren(TAB_RULES, Window(children), 0, 1, [], Opened(Window(children)));
            && |below.out.lines| >= 1
            && Walk(TAB_RULES, Window(children), 0, [], START) == Tidy(TAB_RULES, below, 1, 1)
  {}

  lemma NextChild(node: Node, i: nat, depth: nat, path: seq<nat>, w: Walked)
    requires i < |node.children| && node.children[i].Some?
    ensures WalkChildren(TAB_RULES, node, i, depth, path, w)
         == WalkChildren(TAB_RULES, node, i + 1, depth, path,
                         Walk(TAB_RULES, node.children[i].value, depth, path + [i], w))
  {}

  /** A window whose first child is the bar, up to the tidying at its end. */
  lemma WindowWalk(children: seq<Option<Node>>, w: Walked)
    requires children != [] && children[0] == Some(Bar(1))
    requires w == Walk(TAB_RULES, Bar(1), 1, [0], Opened(Window(children)))
    ensures var below := WalkChildren(TAB_RULES, Window(children), 1, 1, [], w);
            |below.out.lines| >= 1 && Walk(TAB_RULES, Window(children), 0, [], START) == Tidy(TAB_RULES, below, 1, 1)
  {
    Nothing([0]);
    WindowOpens(children);
    NextChild(Window(children), 0, 1, [], Opened(Window(children)));
  }

  /** A window with a bar of twelve tabs, the last selected, and then twelve labels: after the
      compaction numbers go on from 3, and the eleventh label gets the number 13, which the
      selected tab still has. */
  lemma NumberGivenTwice() returns (window: Node)
    ensures window == Window([Some(Bar(1))] + Labels(TABS + 2))
    ensures var r := Walk(TAB_RULES, window, 0, [], START);
            && !r.truncated && |r.out.records| == TABS + 3
            && r.out.records[2].index == r.out.records[TABS + 1].index == TABS + 1
            && Repeats(r.out.records) && !OneToOne(r.out)
  {
    var labels := Labels(TABS + 2);
    var children := [Some(Bar(1))] + labels;
    window := Window(children);
    OpensWithOne(window);
    var w := FirstBar(Opened(window));
    WindowWalk(children, w);
    HeadAndRest(Some(Bar(1)), labels);
    LabelsAreLeaves(TABS + 2);
    LeavesWalk(window, 1, 1, [], w);
    LabelsRepeat(children, w);
    NoTabsNoTidy(WalkChildren(TAB_RULES, window, 1, 1, [], w), 1, 1);
  }

  lemma LabelsRepeat(children: seq<Option<Node>>, w: Walked)
    requires |children| == 1 + TABS && children[1..] == Labels(TABS + 2) && AllLeaves(children[1..])
    requires |w.out.records| == 3 && w.out.records[2].index == TABS + 1 && |w.out.lines| == 4
    requires forall k | 1 <= k < 4 :: !IsDirectTab(w.out.lines[k], 1)
    ensures var r := ShowAll(TAB_RULES, SpotsFrom(children, 1, 1, []), w);
            && r.truncated == w.truncated && |r.out.records| == TABS + 3
            && r.out.records[2].index == r.out.records[TABS + 1].index == TABS + 1
            && Repeats(r.out.records) && !OneToOne(r.out)
            && forall k | 1 <= k < |r.out.lines| :: !IsDirectTab(r.out.lines[k], 1)
  {
    var spots := SpotsFrom(children, 1, 1, []);
    ShowAllAdds(TAB_RULES, spots, w);
    var r := ShowAll(TAB_RULES, spots, w);
    assert r.out.records[2] == r.out.records[..3][2];
    var late := TABS - 2;
    assert r.out.records[3 + late] == MakeRecord(spots[late].node, 3 + late, spots[late].path);
    forall k | 1 <= k < |r.out.lines| ensures !IsDirectTab(r.out.lines[k], 1) {
      if k < 4 {
        assert r.out.lines[k] == r.out.lines[..4][k];
      } else {
        var j := k - 4;
        assert r.out.lines[4 + j] == MakeLine(TAB_RULES, spots[j].node, 3 + j, 1);
        assert children[1 + j] == children[1..][j] == Some(Leaf(TABS + 2 + j, "label", false));
      }
    }
    RepeatsBreaksStep(r.out);
  }

  lemma RepeatsBreaksStep(r: Rendered)
    requires Repeats(r.records)
    ensures !OneToOne(r)
  {
    if OneToOne(r) {
      OneToOneRepeatsNothing(r);
    }
  }

  // ---------------------------------------------------------------- a record lost

  /** A window with two such bars: the tabs of the second are numbered from 4, so that one of
      them shares the number 13 of the first bar's selected tab. When it goes, that tab keeps
      its line and loses its record. */
  lemma SelectedTabLosesRecord() returns (window: Node)
    ensures window == Window([Some(Bar(1)), Some(Bar(TABS + 2))])
    ensures var r := Walk(TAB_RULES, window, 0, [], START);
            && !r.truncated && |r.out.lines| > 3 && r.out.lines[3] == Element(2, TABS + 1, true, false)
            && TABS + 1 !in Indexes(r.out.records)
  {
    var children := [Some(Bar(1)), Some(Bar(TABS + 2))];
    window := Window(children);
    OpensWithOne(window);
    var w := FirstBar(Opened(window));
    WindowWalk(children, w);
    var b := BarShown(TABS + 2, [1], w);
    var r := Walk(TAB_RULES, Bar(TABS + 2), 1, [1], w);
    BarWalk(TABS + 2, [1], w);
    BarShows(TABS + 2, [1], w);
    SecondBarLeaves(b.out, w.out);
    Nothing([1]);
    NextChild(window, 1, 1, [], w);
    NoTabsNoTidy(r, 1, 1);
  }

  lemma SecondBarLeaves(r: Rendered, w: Rendered)
    requires ShowsBar(r, w, TABS + 2) && |w.records| == 3 && |w.lines| == 4
    requires w.lines[3] == Element(2, TABS + 1, true, false)
    requires forall k | 1 <= k < 4 :: !IsDirectTab(w.lines[k], 1)
    ensures Compacts(r, 5, 2)
    ensures var c := Compact(r, 5, 2);
            && |c.lines| > 3 && c.lines[3] == Element(2, TABS + 1, true, false) && TABS + 1 !in Indexes(c.records)
            && forall k | 1 <= k < |c.lines| :: !IsDirectTab(c.lines[k], 1)
  {
    BarCompacts(r, w, TABS + 2);
    assert r.lines[3] == r.lines[..4][3];
    BarTabsGo(r, w, TABS + 2, TABS + 2);
    SharedNumberLosesRecord(r, 5, 2, 3, TABS + 2);
    NoTabsAbove(r, w);
  }

  ghost predicate TabFree(lines: seq<Line>) {
    forall k | 0 <= k < |lines| :: !IsDirectTab(lines[k], 1)
  }

  /** The compacted lines of the second bar hold no tab at the bar's own depth. */
  lemma NoTabsAbove(r: Rendered, w: Rendered)
    requires ShowsBar(r, w, TABS + 2) && |w.records| == 3 && |w.lines| == 4
    requires forall k | 1 <= k < 4 :: !IsDirectTab(w.lines[k], 1)
    requires Compacts(r, 5, 2) && TabLines(r.lines, 5, 2)[0] == 5
    ensures var c := Compact(r, 5, 2); forall k | 1 <= k < |c.lines| :: !IsDirectTab(c.lines[k], 1)
  {
    CompactedParts(r, 5, 2);
    var head, tail := r.lines[..5], r.lines[5..];
    forall k | 1 <= k < 5 ensures !IsDirectTab(head[k], 1) {
      assert k < 4 ==> head[k] == r.lines[..4][k];
    }
    DeepTabsAreFree(r, w);
    TabFreeParts(head, Omitted(2, |Gone(tail, 2, r.records)|), Kept(tail, 2, r.records));
  }

  lemma DeepTabsAreFree(r: Rendered, w: Rendered)
    requires ShowsBar(r, w, TABS + 2) && |w.lines| == 4
    ensures TabFree(Kept(r.lines[5..], 2, r.records))
  {
    var tail := r.lines[5..];
    var kept := Kept(tail, 2, r.records);
    KeptAreLines(tail, 2, r.records);
    forall k | 0 <= k < |kept| ensures !IsDirectTab(kept[k], 1) {
      assert kept[k] in kept;
      var j :| 0 <= j < |tail| && tail[j] == kept[k];
      assert tail[j] == r.lines[5 + j];
    }
  }

  lemma TabFreeParts(head: seq<Line>, summary: Line, kept: seq<Line>)
    requires forall k | 1 <= k < |head| :: !IsDirectTab(head[k], 1)
    requires summary.Omitted? && TabFree(kept)
    ensures var lines := head + [summary] + kept; forall k | 1 <= k < |lines| :: !IsDirectTab(lines[k], 1)
  {}
}
