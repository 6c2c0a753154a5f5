/** Rendering an accessibility tree to numbered records, and finding an element again by the
    path its record holds. */
module AccessibilityTree {
  import opened Options
  import opened Seqs
  import opened TabCompaction

  const MAX_NODES: nat := 1200
  const MAX_DEPTH: nat := 64

  /** An accessible object; `id` is its identity. A child that cannot be read is None. `roleKey`
      is the role in lower case and `sanitized` the value with white space collapsed. */
  datatype Node = Node(
    id: nat, role: string, roleKey: string, name: string, automationId: string, value: string,
    sanitized: string, selected: bool, actions: seq<string>, children: seq<Option<Node>>)

  /** What rendering is told: a text summary of a plain-text subtree, which actions are noise,
      how an element's line reads, and whether browser tabs are compacted. */
  datatype Rules = Rules(
    summary: Node -> Option<string>,
    noisy: string -> bool,
    readsAsTab: Node -> bool,
    readsAsSelected: Node -> bool,
    compact: bool)

  const GENERIC_ROLES: set<string> := {"panel", "filler", "unknown", "section"}
  const COMPACT_ROLES: set<string> := {
    "button", "check box", "checkbox", "combo box", "heading", "link", "menu item", "page tab",
    "push button", "radio button"}

  function Title(node: Node): string {
    if node.name != "" then node.name else node.automationId
  }

  predicate SuppressChildren(node: Node) {
    (Title(node) != "" || node.sanitized != "") && node.roleKey in COMPACT_ROLES
  }

  function CountSome(items: seq<Option<Node>>): nat {
    if items == [] then 0 else (if items[0].Some? then 1 else 0) + CountSome(items[1..])
  }

  function ChildCount(node: Node): nat {
    if SuppressChildren(node) then 0 else CountSome(node.children)
  }

  function GenericSummary(rules: Rules, node: Node): Option<string> {
    if node.roleKey in GENERIC_ROLES && node.name == "" && node.value == "" then rules.summary(node) else None
  }

  predicate ShouldElide(rules: Rules, node: Node) {
    && node.roleKey in GENERIC_ROLES
    && node.name == "" && node.automationId == "" && node.value == ""
    && (forall a | a in node.actions :: rules.noisy(a))
    && GenericSummary(rules, node) == None
    && ChildCount(node) <= 1
  }

  function MakeRecord(node: Node, index: nat, path: seq<nat>): Record {
    Record(node.id, index, path, node.role, node.name, node.automationId, node.value, node.sanitized,
           node.selected, node.actions)
  }

  function MakeLine(rules: Rules, node: Node, index: nat, depth: nat): Line {
    Element(depth, index, rules.readsAsTab(node), rules.readsAsSelected(node))
  }

  // ---------------------------------------------------------------- rendering

  datatype Walked = Walked(out: Rendered, truncated: bool, maxDepthReached: bool)

  /** Full: nothing more is rendered. */
  predicate Full(w: Walked, depth: nat) {
    |w.out.records| >= MAX_NODES || depth > MAX_DEPTH
  }

  /** Whether the walk goes on below a node that is shown. */
  predicate Descends(rules: Rules, node: Node) {
    GenericSummary(rules, node) == None && !SuppressChildren(node)
  }

  /** The node's own record and line. */
  function Show(rules: Rules, node: Node, depth: nat, path: seq<nat>, w: Walked): Walked {
    var index := |w.out.records|;
    w.(out := Rendered(w.out.records + [MakeRecord(node, index, path)],
                       w.out.lines + [MakeLine(rules, node, index, depth)]))
  }

  function Tidy(rules: Rules, w: Walked, start: nat, depth: nat): Walked
    requires start <= |w.out.lines|
  {
    if rules.compact then w.(out := Compact(w.out, start, depth)) else w
  }

  /** One node and what is below it. An elided node passes its depth on to its child. */
  function Walk(rules: Rules, node: Node, depth: nat, path: seq<nat>, w: Walked): (r: Walked)
    ensures |r.out.lines| >= |w.out.lines|
    decreases node, 1, 0
  {
    if Full(w, depth) then
      w.(truncated := true, maxDepthReached := w.maxDepthReached || depth > MAX_DEPTH)
    else if ShouldElide(rules, node) then
      if SuppressChildren(node) then w else WalkChildren(rules, node, 0, depth, path, w)
    else
      var shown := Show(rules, node, depth, path, w);
      if !Descends(rules, node) then shown
      else
        var below := WalkChildren(rules, node, 0, depth + 1, path, shown);
        Tidy(rules, below, |shown.out.lines|, depth + 1)
  }

  /** The readable children from the i-th on. */
  function WalkChildren(rules: Rules, node: Node, i: nat, depth: nat, path: seq<nat>, w: Walked): (r: Walked)
    requires i <= |node.children|
    ensures |r.out.lines| >= |w.out.lines|
    decreases node, 0, |node.children| - i
  {
    if i == |node.children| then w
    else
      var next := if node.children[i].Some? then Walk(rules, node.children[i].value, depth, path + [i], w) else w;
      WalkChildren(rules, node, i + 1, depth, path, next)
  }

  /** The renderer: appends to its lists as it descends. */
  class Renderer {
    const rules: Rules
    const rendering: Rendering
    var truncated: bool
    var maxDepthReached: bool

    ghost function View(): Walked
      reads this, rendering
    {
      Walked(rendering.View(), truncated, maxDepthReached)
    }

    constructor (rules: Rules)
      ensures this.rules == rules && fresh(rendering) && View() == Walked(Rendered([], []), false, false)
    {
      this.rules := rules;
      rendering := new Rendering();
      truncated, maxDepthReached := false, false;
    }

    method WalkNode(node: Node, depth: nat, path: seq<nat>)
      modifies this, rendering
      ensures View() == Walk(rules, node, depth, path, old(View()))
      decreases node, 1, 0
    {
      if |rendering.records| >= MAX_NODES || depth > MAX_DEPTH {
        truncated := true;
        if depth > MAX_DEPTH {
          maxDepthReached := true;
        }
        return;
      }
      if ShouldElide(rules, node) {
        if !SuppressChildren(node) {
          WalkBelow(node, depth, path);
        }
        return;
      }
      WalkShown(node, depth, path);
    }

    method WalkShown(node: Node, depth: nat, path: seq<nat>)
      requires !Full(View(), depth) && !ShouldElide(rules, node)
      modifies this, rendering
      ensures View() == Walk(rules, node, depth, path, old(View()))
      decreases node, 0, |node.children| + 1
    {
      ShowNode(node, depth, path);
      if !Descends(rules, node) { return; }
      var childLineStart := |rendering.lines|;
      WalkBelow(node, depth + 1, path);
      TidyFrom(childLineStart, depth + 1);
    }

    method ShowNode(node: Node, depth: nat, path: seq<nat>)
      modifies rendering
      ensures View() == Show(rules, node, depth, path, old(View()))
    {
      var item := MakeRecord(node, |rendering.records|, path);
      rendering.records := rendering.records + [item];
      rendering.lines := rendering.lines + [MakeLine(rules, node, item.index, depth)];
    }

    method TidyFrom(start: nat, depth: nat)
      requires start <= |rendering.lines|
      modifies rendering
      ensures View() == Tidy(rules, old(View()), start, depth)
    {
      if rules.compact {
        rendering.CompactTabs(start, depth);
      }
    }

    method WalkBelow(node: Node, depth: nat, path: seq<nat>)
      modifies this, rendering
      ensures View() == WalkChildren(rules, node, 0, depth, path, old(View()))
      decreases node, 0, 0
    {
      ghost var start := View();
      var i := 0;
      while i < |node.children|
        invariant i <= |node.children|
        invariant WalkChildren(rules, node, 0, depth, path, start)
               == WalkChildren(rules, node, i, depth, path, View())
      {
        if node.children[i].Some? {
          WalkNode(node.children[i].value, depth, path + [i]);
        }
        i := i + 1;
      }
    }
  }

  // ---------------------------------------------------------------- finding

  /** find_by_path: child numbers count unreadable children too. */
  function FindByPath(app: Node, path: seq<nat>): Option<Node>
    decreases |path|
  {
    if path == [] then Some(app)
    else if path[0] < |app.children| && app.children[path[0]].Some?
    then FindByPath(app.children[path[0]].value, path[1..])
    else None
  }

  method FindByPathLoop(app: Node, path: seq<nat>) returns (found: Option<Node>)
    ensures found == FindByPath(app, path)
  {
    var node := app;
    for k := 0 to |path|
      invariant FindByPath(app, path) == FindByPath(node, path[k..])
    {
      assert path[k..][1..] == path[k + 1..];
      if path[k] >= |node.children| || node.children[path[k]].None? { return None; }
      node := node.children[path[k]].value;
    }
    found := Some(node);
  }

  predicate SameElementSignature(node: Node, saved: Record) {
    node.role == saved.role && node.name == saved.name && node.automationId == saved.automationId
    && node.actions == saved.actions
  }

  function FindElement(app: Node, saved: Record): Option<Node> {
    var node := FindByPath(app, saved.path);
    if node.Some? && SameElementSignature(node.value, saved) then node else None
  }

  lemma {:induction false} FindFurther(app: Node, path: seq<nat>, i: nat)
    requires FindByPath(app, path).Some?
    ensures var node := FindByPath(app, path).value;
            i < |node.children| && node.children[i].Some? ==>
              FindByPath(app, path + [i]) == Some(node.children[i].value)
    decreases |path|
  {
    if path == [] {
      assert [i][1..] == [];
    } else {
      assert (path + [i])[1..] == path[1..] + [i];
      FindFurther(app.children[path[0]].value, path[1..], i);
    }
  }

  /** The record was made from the node its path leads to. */
  predicate Found(app: Node, r: Record) {
    FindByPath(app, r.path).Some? && r == MakeRecord(FindByPath(app, r.path).value, r.index, r.path)
  }

  predicate AllFound(app: Node, records: seq<Record>) {
    forall r | r in records :: Found(app, r)
  }

  /** Tidying only takes records out. */
  lemma TidyOnlyDrops(rules: Rules, w: Walked, start: nat, depth: nat)
    requires start <= |w.out.lines|
    ensures var t := Tidy(rules, w, start, depth);
            && (forall x | x in t.out.records :: x in w.out.records)
            && |t.out.records| <= |w.out.records|
            && (DistinctPaths(w.out.records) ==> DistinctPaths(t.out.records))
  {
    if rules.compact && Compacts(w.out, start, depth) {
      var first := TabLines(w.out.lines, start, depth)[0];
      var gone := ToSet(Gone(w.out.lines[first..], depth, w.out.records));
      OnlyDrops(w.out.records, gone);
      if DistinctPaths(w.out.records) {
        WithoutDistinct(w.out.records, gone);
      }
    }
  }

  lemma ShowFinds(app: Node, rules: Rules, node: Node, depth: nat, path: seq<nat>, w: Walked)
    requires FindByPath(app, path) == Some(node) && AllFound(app, w.out.records)
    ensures AllFound(app, Show(rules, node, depth, path, w).out.records)
  {}

  lemma {:induction false} OnlyDrops(records: seq<Record>, gone: set<nat>)
    ensures forall x | x in Without(records, gone) :: x in records
    ensures |Without(records, gone)| <= |records|
    decreases |records|
  {
    if records != [] {
      OnlyDrops(records[..|records| - 1], gone);
    }
  }

  /** The paths walk builds lead back to its nodes, through elided levels too, and the number of
      records never passes the cap. */
  lemma {:induction false} WalkFinds(app: Node, rules: Rules, node: Node, depth: nat, path: seq<nat>, w: Walked)
    requires FindByPath(app, path) == Some(node) && AllFound(app, w.out.records) && |w.out.records| <= MAX_NODES
    ensures var r := Walk(rules, node, depth, path, w);
            AllFound(app, r.out.records) && |r.out.records| <= MAX_NODES
    decreases node, 1, 0
  {
    if Full(w, depth) {
    } else if ShouldElide(rules, node) {
      if !SuppressChildren(node) {
        ChildrenFind(app, rules, node, 0, depth, path, w);
      }
    } else {
      var shown := Show(rules, node, depth, path, w);
      ShowFinds(app, rules, node, depth, path, w);
      if Descends(rules, node) {
        ChildrenFind(app, rules, node, 0, depth + 1, path, shown);
        TidyOnlyDrops(rules, WalkChildren(rules, node, 0, depth + 1, path, shown), |shown.out.lines|, depth + 1);
      }
    }
  }

  lemma {:induction false} ChildrenFind(
    app: Node, rules: Rules, node: Node, i: nat, depth: nat, path: seq<nat>, w: Walked)
    requires i <= |node.children|
    requires FindByPath(app, path) == Some(node) && AllFound(app, w.out.records) && |w.out.records| <= MAX_NODES
    ensures var r := WalkChildren(rules, node, i, depth, path, w);
            AllFound(app, r.out.records) && |r.out.records| <= MAX_NODES
    decreases node, 0, |node.children| - i
  {
    if i < |node.children| {
      if node.children[i].Some? {
        FindFurther(app, path, i);
        WalkFinds(app, rules, node.children[i].value, depth, path + [i], w);
        ChildrenFind(app, rules, node, i + 1, depth, path,
                     Walk(rules, node.children[i].value, depth, path + [i], w));
      } else {
        ChildrenFind(app, rules, node, i + 1, depth, path, w);
      }
    }
  }

  /** On an unchanged tree every record finds the very node it was made from, and says what that
      node is; there are at most 1200 of them. */
  lemma EveryRecordIsFound(app: Node, rules: Rules, window: Node, rootPath: seq<nat>, r: Record)
    requires FindByPath(app, rootPath) == Some(window)
    requires r in Walk(rules, window, 0, rootPath, Walked(Rendered([], []), false, false)).out.records
    ensures FindElement(app, r).Some? && FindElement(app, r).value.id == r.id
    ensures FindElement(app, r) == FindByPath(app, r.path)
    ensures var node := FindElement(app, r).value;
            && r.role == node.role && r.name == node.name && r.automationId == node.automationId
            && r.value == node.value && r.sanitized == node.sanitized && r.selected == node.selected
            && r.actions == node.actions
    ensures |Walk(rules, window, 0, rootPath, Walked(Rendered([], []), false, false)).out.records| <= 1200
  {
    WalkFinds(app, rules, window, 0, rootPath, Walked(Rendered([], []), false, false));
  }

  /** A way down: each node is a readable child of the one before, at the number the path gives. */
  ghost predicate Descent(nodes: seq<Node>, path: seq<nat>) {
    && |nodes| == |path| + 1
    && forall k {:trigger path[k]} | 0 <= k < |path| ::
         path[k] < |nodes[k].children| && nodes[k].children[path[k]] == Some(nodes[k + 1])
  }

  /** The path leads from app down to the node. */
  ghost predicate LeadsTo(app: Node, path: seq<nat>, node: Node) {
    exists nodes {:trigger Descent(nodes, path)} :: Descent(nodes, path) && nodes[0] == app && nodes[|path|] == node
  }

  lemma {:induction false} FoundLeadsTo(app: Node, path: seq<nat>, node: Node)
    requires FindByPath(app, path) == Some(node)
    ensures LeadsTo(app, path, node)
    decreases |path|
  {
    if path == [] {
      assert Descent([app], path);
    } else {
      var child := app.children[path[0]].value;
      FoundLeadsTo(child, path[1..], node);
      var rest :| Descent(rest, path[1..]) && rest[0] == child && rest[|path[1..]|] == node;
      var nodes := [app] + rest;
      forall k {:trigger path[k]} | 0 <= k < |path|
        ensures path[k] < |nodes[k].children| && nodes[k].children[path[k]] == Some(nodes[k + 1])
      {
        assert k > 0 ==> path[k] == path[1..][k - 1];
      }
      assert Descent(nodes, path);
    }
  }

  lemma {:induction false} LeadsToFound(app: Node, path: seq<nat>, nodes: seq<Node>)
    requires Descent(nodes, path) && nodes[0] == app
    ensures FindByPath(app, path) == Some(nodes[|path|])
    decreases |path|
  {
    if path != [] {
      assert app.children[path[0]] == Some(nodes[1]);
      var rest := nodes[1..];
      forall k {:trigger path[1..][k]} | 0 <= k < |path[1..]|
        ensures path[1..][k] < |rest[k].children| && rest[k].children[path[1..][k]] == Some(rest[k + 1])
      {
        assert path[1..][k] == path[k + 1];
      }
      LeadsToFound(nodes[1], path[1..], rest);
    }
  }

  /** On any tree, changed or not, a saved record finds a node exactly if that node is where the
      record's path leads and still has its role, name, automation id and actions; whatever else
      stands there now, nothing is found. */
  lemma LookupIsExact(app: Node, saved: Record, node: Node)
    ensures FindElement(app, saved) == Some(node) <==>
              && LeadsTo(app, saved.path, node)
              && node.role == saved.role && node.name == saved.name
              && node.automationId == saved.automationId && node.actions == saved.actions
  {
    if FindByPath(app, saved.path) == Some(node) {
      FoundLeadsTo(app, saved.path, node);
    }
    if LeadsTo(app, saved.path, node) {
      var nodes :| Descent(nodes, saved.path) && nodes[0] == app && nodes[|saved.path|] == node;
      LeadsToFound(app, saved.path, nodes);
    }
  }

  // ---------------------------------------------------------------- one record for one node

  /** No two records share a path. */
  ghost predicate DistinctPaths(records: seq<Record>) {
    forall i, j | 0 <= i < j < |records| :: records[i].path != records[j].path
  }

  ghost predicate Outside(records: seq<Record>, path: seq<nat>) {
    forall r | r in records :: !(path <= r.path)
  }

  lemma {:induction false} WithoutDistinct(records: seq<Record>, gone: set<nat>)
    requires DistinctPaths(records)
    ensures DistinctPaths(Without(records, gone))
    decreases |records|
  {
    if records != [] {
      var front, last := records[..|records| - 1], records[|records| - 1];
      WithoutDistinct(front, gone);
      OnlyDrops(front, gone);
      var kept := Without(front, gone);
      forall i | 0 <= i < |kept| ensures kept[i].path != last.path {
        assert kept[i] in kept;
        var j :| 0 <= j < |front| && front[j] == kept[i];
        assert records[j] == front[j];
      }
    }
  }

  lemma {:induction false} WalkDistinct(rules: Rules, node: Node, depth: nat, path: seq<nat>, w: Walked)
    requires DistinctPaths(w.out.records) && Outside(w.out.records, path)
    ensures var r := Walk(rules, node, depth, path, w);
            DistinctPaths(r.out.records) && forall x | x in r.out.records :: x in w.out.records || path <= x.path
    decreases node, 1, 0
  {
    if Full(w, depth) {
    } else if ShouldElide(rules, node) {
      if !SuppressChildren(node) {
        ChildrenDistinct(rules, node, 0, depth, path, w);
      }
    } else {
      var shown := Show(rules, node, depth, path, w);
      ShowDistinct(rules, node, depth, path, w);
      if Descends(rules, node) {
        ChildrenDistinct(rules, node, 0, depth + 1, path, shown);
        TidyOnlyDrops(rules, WalkChildren(rules, node, 0, depth + 1, path, shown), |shown.out.lines|, depth + 1);
      }
    }
  }

  lemma ShowDistinct(rules: Rules, node: Node, depth: nat, path: seq<nat>, w: Walked)
    requires DistinctPaths(w.out.records) && Outside(w.out.records, path)
    ensures var r := Show(rules, node, depth, path, w).out.records;
            && DistinctPaths(r)
            && (forall x | x in r :: x in w.out.records || x.path == path)
            && (forall i: nat :: Outside(r, path + [i]))
  {
    var before := w.out.records;
    forall i | 0 <= i < |before| ensures before[i].path != path {
      assert before[i] in before;
    }
    var r := Show(rules, node, depth, path, w).out.records;
    forall i: nat, x | x in r ensures !(path + [i] <= x.path) {
      if path + [i] <= x.path {
        PrefixAt(path, i, x.path);
      }
    }
  }

  lemma PrefixAt(path: seq<nat>, i: nat, x: seq<nat>)
    requires path + [i] <= x
    ensures |x| > |path| && x[|path|] == i && path <= x
  {
    assert x[|path|] == (path + [i])[|path|];
  }

  lemma BranchesDiffer(path: seq<nat>, i: nat, j: nat, x: seq<nat>)
    requires i != j && path + [i] <= x
    ensures !(path + [j] <= x)
  {
    PrefixAt(path, i, x);
    if path + [j] <= x {
      PrefixAt(path, j, x);
    }
  }

  lemma {:induction false} ChildrenDistinct(
    rules: Rules, node: Node, i: nat, depth: nat, path: seq<nat>, w: Walked)
    requires i <= |node.children| && DistinctPaths(w.out.records)
    requires forall j | i <= j < |node.children| :: Outside(w.out.records, path + [j])
    ensures var r := WalkChildren(rules, node, i, depth, path, w);
            DistinctPaths(r.out.records) && forall x | x in r.out.records :: x in w.out.records || path <= x.path
    decreases node, 0, |node.children| - i
  {
    if i < |node.children| {
      var next := w;
      if node.children[i].Some? {
        WalkDistinct(rules, node.children[i].value, depth, path + [i], w);
        next := Walk(rules, node.children[i].value, depth, path + [i], w);
        forall j, x | i < j < |node.children| && x in next.out.records ensures !(path + [j] <= x.path) {
          if path + [i] <= x.path {
            BranchesDiffer(path, i, j, x.path);
          } else {
            assert Outside(w.out.records, path + [j]);
          }
        }
        forall x | x in next.out.records ensures x in w.out.records || path <= x.path {
          if path + [i] <= x.path {
            PrefixAt(path, i, x.path);
          }
        }
      }
      ChildrenDistinct(rules, node, i + 1, depth, path, next);
    }
  }

  /** Each rendered node has one record: different records lie at different paths. */
  lemma RecordsAreDistinct(rules: Rules, window: Node, rootPath: seq<nat>)
    ensures DistinctPaths(Walk(rules, window, 0, rootPath, Walked(Rendered([], []), false, false)).out.records)
  {
    WalkDistinct(rules, window, 0, rootPath, Walked(Rendered([], []), false, false));
  }
}
