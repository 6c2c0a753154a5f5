/** Where a rendering's lines come from: which nodes are shown, by what stands above them, how far
    their lines are indented, and that a small window is always rendered whole. */
module RenderedPlaces {
  import opened Options
  import opened Numbers
  import opened Seqs
  import opened TabCompaction
  import opened AccessibilityTree
  import opened RenderedNodes

  // ---------------------------------------------------------------- which nodes are shown

  /** No two children can be read. */
  predicate AtMostOneChild(children: seq<Option<Node>>) {
    forall i, j | 0 <= i < j < |children| :: children[i].None? || children[j].None?
  }

  lemma {:induction false} CountsChildren(children: seq<Option<Node>>)
    ensures CountSome(children) == 0 <==> forall i | 0 <= i < |children| :: children[i].None?
    ensures CountSome(children) <= 1 <==> AtMostOneChild(children)
    decreases |children|
  {
    if children != [] {
      var rest := children[1..];
      CountsChildren(rest);
      assert forall i | 0 < i < |children| :: children[i] == rest[i - 1];
      assert forall i | 0 <= i < |rest| :: rest[i] == children[i + 1];
    }
  }

  /** A node is passed over exactly if it is a plain container that says nothing: no name, no id,
      no value, no telling action, no text to sum up, and at most one child. */
  lemma ElidedExactlyIfSilent(rules: Rules, node: Node)
    ensures ShouldElide(rules, node) <==>
              && node.roleKey in {"panel", "filler", "unknown", "section"}
              && node.name == "" && node.automationId == "" && node.value == ""
              && (forall a | a in node.actions :: rules.noisy(a))
              && rules.summary(node) == None && AtMostOneChild(node.children)
  {
    CountsChildren(node.children);
  }

  /** Whether the rendering goes on below a node: not below one whose text is summed up, nor below
      a button, a link or the like that has a name, an id or a value. */
  predicate GoesBelow(rules: Rules, node: Node) {
    || ShouldElide(rules, node)
    || (&& !(node.roleKey in {"panel", "filler", "unknown", "section"} && node.name == "" && node.value == ""
             && rules.summary(node).Some?)
        && !(node.roleKey in {"button", "check box", "checkbox", "combo box", "heading", "link", "menu item",
                              "page tab", "push button", "radio button"}
             && (node.name != "" || node.automationId != "" || node.sanitized != "")))
  }

  lemma GoesBelowExactly(rules: Rules, node: Node)
    ensures ShouldElide(rules, node) ==> !SuppressChildren(node)
    ensures GoesBelow(rules, node) <==> ShouldElide(rules, node) || Descends(rules, node)
  {}

  /** m stands at p below root, everything above it is gone below, and it is not passed over. */
  ghost predicate Visible(rules: Rules, root: Node, p: seq<nat>, m: Node) {
    !ShouldElide(rules, m)
    && exists nodes {:trigger Descent(nodes, p)} ::
         Descent(nodes, p) && nodes[0] == root && nodes[|p|] == m && forall k | 0 <= k < |p| :: GoesBelow(rules, nodes[k])
  }

  lemma VisibleHere(rules: Rules, root: Node, m: Node)
    ensures Visible(rules, root, [], m) <==> m == root && !ShouldElide(rules, root)
  {
    assert Descent([root], []);
  }

  lemma DescentBelow(nodes: seq<Node>, p: seq<nat>)
    requires p != [] && Descent(nodes, p)
    ensures p[0] < |nodes[0].children| && nodes[0].children[p[0]] == Some(nodes[1])
    ensures Descent(nodes[1..], p[1..])
  {
    assert nodes[0].children[p[0]] == Some(nodes[0 + 1]);
    var rest, q := nodes[1..], p[1..];
    forall k {:trigger q[k]} | 0 <= k < |q|
      ensures q[k] < |rest[k].children| && rest[k].children[q[k]] == Some(rest[k + 1])
    {
      assert q[k] == p[k + 1];
    }
  }

  lemma DescentFrom(root: Node, rest: seq<Node>, p: seq<nat>)
    requires p != [] && p[0] < |root.children| && Descent(rest, p[1..]) && root.children[p[0]] == Some(rest[0])
    ensures Descent([root] + rest, p)
  {
    var nodes := [root] + rest;
    forall k {:trigger p[k]} | 0 <= k < |p|
      ensures p[k] < |nodes[k].children| && nodes[k].children[p[k]] == Some(nodes[k + 1])
    {
      assert k > 0 ==> p[k] == p[1..][k - 1];
    }
  }

  lemma VisibleDown(rules: Rules, root: Node, p: seq<nat>, m: Node)
    requires p != [] && Visible(rules, root, p, m)
    ensures p[0] < |root.children| && root.children[p[0]].Some? && GoesBelow(rules, root)
    ensures Visible(rules, root.children[p[0]].value, p[1..], m)
  {
    var nodes :| Descent(nodes, p) && nodes[0] == root && nodes[|p|] == m
                 && forall k | 0 <= k < |p| :: GoesBelow(rules, nodes[k]);
    DescentBelow(nodes, p);
    assert forall k | 0 <= k < |p[1..]| :: nodes[1..][k] == nodes[k + 1];
    assert Descent(nodes[1..], p[1..]);
  }

  lemma VisibleUp(rules: Rules, root: Node, p: seq<nat>, m: Node)
    requires p != [] && p[0] < |root.children| && root.children[p[0]].Some? && GoesBelow(rules, root)
    requires Visible(rules, root.children[p[0]].value, p[1..], m)
    ensures Visible(rules, root, p, m)
  {
    var rest :| Descent(rest, p[1..]) && rest[0] == root.children[p[0]].value && rest[|p[1..]|] == m
                && forall k | 0 <= k < |p[1..]| :: GoesBelow(rules, rest[k]);
    DescentFrom(root, rest, p);
    var nodes := [root] + rest;
    assert forall k | 0 < k < |p| :: nodes[k] == rest[k - 1];
    assert Descent(nodes, p);
  }

  /** What is shown is what is visible: each node that is not passed over, at the end of a way on
      which the rendering goes below every node, with the path of that way. */
  lemma {:induction false} ShownExactlyIfVisible(rules: Rules, root: Node, path: seq<nat>, p: seq<nat>, m: Node)
    ensures Place(m, path + p) in Shown(rules, root, path) <==> Visible(rules, root, p, m)
    decreases root, 1, 0
  {
    GoesBelowExactly(rules, root);
    ShownBelowInside(rules, root, 0, path);
    if p == [] {
      VisibleHere(rules, root, m);
      Nothing(path);
      forall j: nat ensures !(path + [j] <= path) {}
    } else {
      OnlyInItsBranch(rules, root, 0, path, p, m);
      Reassociate(path, [p[0]], p[1..]);
      assert [p[0]] + p[1..] == p;
      if p[0] < |root.children| && root.children[p[0]].Some? {
        ShownExactlyIfVisible(rules, root.children[p[0]].value, path + [p[0]], p[1..], m);
        if Visible(rules, root.children[p[0]].value, p[1..], m) && GoesBelow(rules, root) {
          VisibleUp(rules, root, p, m);
        }
      }
      if Visible(rules, root, p, m) {
        VisibleDown(rules, root, p, m);
      }
    }
  }

  /** Among the children from the i-th on, a place behind branch p[0] is shown for that child only. */
  lemma {:induction false} OnlyInItsBranch(rules: Rules, root: Node, i: nat, path: seq<nat>, p: seq<nat>, m: Node)
    requires i <= |root.children| && p != []
    ensures Place(m, path + p) in ShownBelow(rules, root, i, path) <==>
              i <= p[0] < |root.children| && root.children[p[0]].Some?
              && Place(m, path + p) in Shown(rules, root.children[p[0]].value, path + [p[0]])
    decreases |root.children| - i
  {
    if i < |root.children| {
      OnlyInItsBranch(rules, root, i + 1, path, p, m);
      if root.children[i].Some? && i != p[0] {
        ShownInside(rules, root.children[i].value, path + [i]);
        assert path + [p[0]] <= path + p;
        BranchesDiffer(path, p[0], i, path + p);
      }
    }
  }

  // ---------------------------------------------------------------- how lines are indented

  /** How many nodes on the way down p from root, the last not counted, are not passed over. */
  function DepthAt(rules: Rules, root: Node, p: seq<nat>): nat
    decreases |p|
  {
    if p == [] then 0
    else
      (if ShouldElide(rules, root) then 0 else 1)
      + (if p[0] < |root.children| && root.children[p[0]].Some?
         then DepthAt(rules, root.children[p[0]].value, p[1..]) else 0)
  }

  lemma {:induction false} DepthFurther(rules: Rules, root: Node, p: seq<nat>, i: nat)
    requires FindByPath(root, p).Some?
    ensures var node := FindByPath(root, p).value;
            i < |node.children| && node.children[i].Some? ==>
              DepthAt(rules, root, p + [i]) == DepthAt(rules, root, p) + if ShouldElide(rules, node) then 0 else 1
    decreases |p|
  {
    if p == [] {
      Nothing([i]);
      assert [i][1..] == [];
    } else {
      RestOfSum(p, [i]);
      DepthFurther(rules, root.children[p[0]].value, p[1..], i);
    }
  }

  /** The line is that of some node of the window, indented by the nodes shown above it. */
  ghost predicate Drawn(rules: Rules, window: Node, line: Line) {
    line.Element? ==>
      exists p :: FindByPath(window, p).Some?
               && line == MakeLine(rules, FindByPath(window, p).value, line.index, DepthAt(rules, window, p))
  }

  ghost predicate AllDrawn(rules: Rules, window: Node, lines: seq<Line>) {
    forall line | line in lines :: Drawn(rules, window, line)
  }

  lemma TidyStaysDrawn(rules: Rules, window: Node, w: Walked, start: nat, depth: nat)
    requires start <= |w.out.lines| && AllDrawn(rules, window, w.out.lines)
    ensures AllDrawn(rules, window, Tidy(rules, w, start, depth).out.lines)
  {
    if rules.compact && Compacts(w.out, start, depth) {
      var first := TabLines(w.out.lines, start, depth)[0];
      var head, tail := w.out.lines[..first], w.out.lines[first..];
      KeptAreLines(tail, depth, w.out.records);
      forall line | line in Compact(w.out, start, depth).lines ensures Drawn(rules, window, line) {
        assert line in head || line in tail || line.Omitted?;
      }
    }
  }

  lemma ShowStaysDrawn(rules: Rules, window: Node, p: seq<nat>, path: seq<nat>, w: Walked)
    requires FindByPath(window, p).Some? && AllDrawn(rules, window, w.out.lines)
    ensures AllDrawn(rules, window,
                     Show(rules, FindByPath(window, p).value, DepthAt(rules, window, p), path, w).out.lines)
  {
    var node := FindByPath(window, p).value;
    assert Drawn(rules, window, MakeLine(rules, node, |w.out.records|, DepthAt(rules, window, p)));
  }

  /** With compaction or without, every element line of a rendering is indented by exactly the
      nodes shown above its node: an elided level costs no tab. */
  lemma {:induction false} LinesAreDrawn(rules: Rules, window: Node, p: seq<nat>, path: seq<nat>, w: Walked)
    requires FindByPath(window, p).Some? && AllDrawn(rules, window, w.out.lines)
    ensures AllDrawn(rules, window,
                     Walk(rules, FindByPath(window, p).value, DepthAt(rules, window, p), path, w).out.lines)
    decreases FindByPath(window, p).value, 1, 0
  {
    var node, depth := FindByPath(window, p).value, DepthAt(rules, window, p);
    if Full(w, depth) {
    } else if ShouldElide(rules, node) {
      if !SuppressChildren(node) {
        LinesBelowAreDrawn(rules, window, p, 0, path, w);
      }
    } else {
      var shown := Show(rules, node, depth, path, w);
      ShowStaysDrawn(rules, window, p, path, w);
      if Descends(rules, node) {
        LinesBelowAreDrawn(rules, window, p, 0, path, shown);
        TidyStaysDrawn(rules, window, WalkChildren(rules, node, 0, depth + 1, path, shown),
                       |shown.out.lines|, depth + 1);
      }
    }
  }

  // Where the children of the node at p stand.
  function DepthBelow(rules: Rules, window: Node, p: seq<nat>): nat
    requires FindByPath(window, p).Some?
  {
    DepthAt(rules, window, p) + if ShouldElide(rules, FindByPath(window, p).value) then 0 else 1
  }

  lemma {:induction false} LinesBelowAreDrawn(
    rules: Rules, window: Node, p: seq<nat>, i: nat, path: seq<nat>, w: Walked)
    requires FindByPath(window, p).Some? && i <= |FindByPath(window, p).value.children|
    requires AllDrawn(rules, window, w.out.lines)
    ensures AllDrawn(rules, window, WalkChildren(rules, FindByPath(window, p).value, i,
                                                 DepthBelow(rules, window, p), path, w).out.lines)
    decreases FindByPath(window, p).value, 0, |FindByPath(window, p).value.children| - i
  {
    var node, depth := FindByPath(window, p).value, DepthBelow(rules, window, p);
    if i < |node.children| {
      if node.children[i].Some? {
        var child := node.children[i].value;
        FindFurther(window, p, i);
        DepthFurther(rules, window, p, i);
        LinesAreDrawn(rules, window, p + [i], path + [i], w);
        LinesBelowAreDrawn(rules, window, p, i + 1, path, Walk(rules, child, depth, path + [i], w));
      } else {
        LinesBelowAreDrawn(rules, window, p, i + 1, path, w);
      }
    }
  }

  // ---------------------------------------------------------------- small windows

  /** How many nodes there are, and how many one below another. */
  function Size(node: Node): nat
    decreases node, 0
  {
    1 + SizeBelow(node, 0)
  }

  function SizeBelow(node: Node, i: nat): nat
    requires i <= |node.children|
    decreases node, 0, |node.children| - i
  {
    if i == |node.children| then 0
    else (if node.children[i].Some? then Size(node.children[i].value) else 0) + SizeBelow(node, i + 1)
  }

  function Height(node: Node): nat
    decreases node, 0
  {
    1 + HeightBelow(node, 0)
  }

  function HeightBelow(node: Node, i: nat): nat
    requires i <= |node.children|
    decreases node, 0, |node.children| - i
  {
    if i == |node.children| then 0
    else Max(if node.children[i].Some? then Height(node.children[i].value) else 0, HeightBelow(node, i + 1))
  }

  /** From w to r nothing was cut, and at most so many records were added. */
  predicate NotCut(w: Walked, r: Walked, added: nat) {
    && r.truncated == w.truncated && r.maxDepthReached == w.maxDepthReached
    && |r.out.records| <= |w.out.records| + added
  }

  predicate Fits(w: Walked, depth: nat, size: nat, height: nat) {
    |w.out.records| + size <= 1200 && depth + height <= 65
  }

  lemma TidyCutsNothing(rules: Rules, w: Walked, start: nat, depth: nat)
    requires start <= |w.out.lines|
    ensures NotCut(w, Tidy(rules, w, start, depth), 0)
  {
    TidyOnlyDrops(rules, w, start, depth);
  }

  lemma WalkOfShown(rules: Rules, node: Node, depth: nat, path: seq<nat>, w: Walked)
    requires !Full(w, depth) && !ShouldElide(rules, node)
    ensures var shown := Show(rules, node, depth, path, w);
            Walk(rules, node, depth, path, w)
            == if Descends(rules, node)
               then Tidy(rules, WalkChildren(rules, node, 0, depth + 1, path, shown), |shown.out.lines|, depth + 1)
               else shown
  {}

  /** Showing a node adds one record, and tidying what came below it adds none. */
  lemma ShownThenBelow(rules: Rules, w: Walked, shown: Walked, m: Walked, below: nat, start: nat, depth: nat)
    requires NotCut(w, shown, 1) && NotCut(shown, m, below) && start <= |m.out.lines|
    ensures NotCut(w, Tidy(rules, m, start, depth), 1 + below)
  {
    TidyCutsNothing(rules, m, start, depth);
  }

  /** A rendering is marked as cut short only where there is too much: with at most 1200 nodes in
      all and at most 65 below one another, nothing is cut, with compaction or without. */
  lemma {:induction false} SmallIsNotCut(rules: Rules, node: Node, depth: nat, path: seq<nat>, w: Walked)
    requires Fits(w, depth, Size(node), Height(node))
    ensures NotCut(w, Walk(rules, node, depth, path, w), Size(node))
    decreases node, 1, 0
  {
    if ShouldElide(rules, node) {
      if !SuppressChildren(node) {
        SmallBelowIsNotCut(rules, node, 0, depth, path, w);
      }
    } else {
      SmallShownIsNotCut(rules, node, depth, path, w);
    }
  }

  lemma {:induction false} SmallShownIsNotCut(rules: Rules, node: Node, depth: nat, path: seq<nat>, w: Walked)
    requires Fits(w, depth, Size(node), Height(node)) && !ShouldElide(rules, node)
    ensures NotCut(w, Walk(rules, node, depth, path, w), Size(node))
    decreases node, 0, |node.children| + 1
  {
    var shown := Show(rules, node, depth, path, w);
    WalkOfShown(rules, node, depth, path, w);
    if Descends(rules, node) {
      SmallBelowIsNotCut(rules, node, 0, depth + 1, path, shown);
      ShownThenBelow(rules, w, shown, WalkChildren(rules, node, 0, depth + 1, path, shown),
                     SizeBelow(node, 0), |shown.out.lines|, depth + 1);
    }
  }

  lemma {:induction false} SmallBelowIsNotCut(
    rules: Rules, node: Node, i: nat, depth: nat, path: seq<nat>, w: Walked)
    requires i <= |node.children| && Fits(w, depth, SizeBelow(node, i), HeightBelow(node, i))
    ensures NotCut(w, WalkChildren(rules, node, i, depth, path, w), SizeBelow(node, i))
    decreases node, 0, |node.children| - i
  {
    if i < |node.children| {
      if node.children[i].Some? {
        SmallIsNotCut(rules, node.children[i].value, depth, path + [i], w);
        SmallBelowIsNotCut(rules, node, i + 1, depth, path,
                           Walk(rules, node.children[i].value, depth, path + [i], w));
      } else {
        SmallBelowIsNotCut(rules, node, i + 1, depth, path, w);
      }
    }
  }

  /** So a small window is rendered whole: without compaction its records are those of all that is
      visible, and of nothing else, numbered in order. */
  lemma SmallWindowIsWhole(rules: Rules, window: Node, rootPath: seq<nat>, p: seq<nat>, m: Node)
    requires !rules.compact && Size(window) <= 1200 && Height(window) <= 65
    ensures var start := Walked(Rendered([], []), false, false);
            var r, places := Walk(rules, window, 0, rootPath, start), Shown(rules, window, rootPath);
            && !r.truncated && !r.maxDepthReached && r.out.records == RecordAll(places, 0)
            && (Place(m, rootPath + p) in places <==> Visible(rules, window, p, m))
  {
    var start := Walked(Rendered([], []), false, false);
    SmallIsNotCut(rules, window, 0, rootPath, start);
    UncompactedIsComplete(rules, window, 0, rootPath, start);
    Nothing(RecordAll(Shown(rules, window, rootPath), 0));
    ShownExactlyIfVisible(rules, window, rootPath, p, m);
  }
}
