/** Searching an accessibility tree that may be too large, or not even a tree: an explicit stack,
    a set of nodes seen, and caps on nodes and depth. */
module FirstDescendant {
  import opened Options
  import opened Seqs

  // Nodes are identities; every node has its list of readable children.
  type Graph = nat -> seq<nat>

  datatype Frame = Frame(node: nat, depth: nat)

  datatype Caps = Caps(nodes: nat, depth: nat)

  /** The frames pushed for children, the first child on top. */
  function Push(children: seq<nat>, depth: nat): seq<Frame> {
    if children == [] then [] else Push(children[1..], depth) + [Frame(children[0], depth)]
  }

  /** The stack once its top has been visited. */
  function NextStack(g: Graph, caps: Caps, rest: seq<Frame>, top: Frame): seq<Frame> {
    if top.depth >= caps.depth then rest else rest + Push(g(top.node), top.depth + 1)
  }

  /** The nodes visited, in order, from a stack whose top is last. */
  function Visits(g: Graph, caps: Caps, stack: seq<Frame>, seen: set<nat>, count: nat): (order: seq<nat>)
    ensures count <= caps.nodes ==> |order| <= caps.nodes - count
    decreases if count < caps.nodes then caps.nodes - count else 0, |stack|
  {
    if stack == [] || count >= caps.nodes then []
    else
      var top, rest := stack[|stack| - 1], stack[..|stack| - 1];
      if top.node in seen then Visits(g, caps, rest, seen, count)
      else
        [top.node]
        + Visits(g, caps, NextStack(g, caps, rest, top), seen + {top.node}, count + 1)
  }

  lemma VisitTop(g: Graph, caps: Caps, rest: seq<Frame>, top: Frame, seen: set<nat>, count: nat)
    requires count < caps.nodes && top.node !in seen
    ensures Visits(g, caps, rest + [top], seen, count)
         == [top.node] + Visits(g, caps, NextStack(g, caps, rest, top), seen + {top.node}, count + 1)
  {
    var stack := rest + [top];
    assert stack[|stack| - 1] == top && stack[..|stack| - 1] == rest;
  }

  function FirstMatch(matches: nat -> bool, order: seq<nat>): Option<nat> {
    if order == [] then None else if matches(order[0]) then Some(order[0]) else FirstMatch(matches, order[1..])
  }

  /** One turn: the top of the stack is passed over, or matches, or its children are next. */
  lemma OneLook(g: Graph, caps: Caps, matches: nat -> bool, stack: seq<Frame>, seen: set<nat>, count: nat)
    requires stack != [] && count < caps.nodes
    ensures var top, rest := stack[|stack| - 1], stack[..|stack| - 1];
            FirstMatch(matches, Visits(g, caps, stack, seen, count)) ==
              if top.node in seen then FirstMatch(matches, Visits(g, caps, rest, seen, count))
              else if matches(top.node) then Some(top.node)
              else FirstMatch(matches, Visits(g, caps, NextStack(g, caps, rest, top), seen + {top.node}, count + 1))
  {
    var top, rest := stack[|stack| - 1], stack[..|stack| - 1];
    HeadAndRest(top.node, Visits(g, caps, NextStack(g, caps, rest, top), seen + {top.node}, count + 1));
  }

  /** The search: it ends on any graph, because every turn of the loop either uses up one of
      the nodes allowed or shortens the stack. */
  method Search(g: Graph, caps: Caps, root: nat, matches: nat -> bool) returns (found: Option<nat>)
    ensures found == FirstMatch(matches, Visits(g, caps, [Frame(root, 0)], {}, 0))
  {
    var visitedCount := 0;
    var stack := [Frame(root, 0)];
    var seen: set<nat> := {};
    ghost var result := FirstMatch(matches, Visits(g, caps, stack, seen, visitedCount));
    while stack != [] && visitedCount < caps.nodes
      invariant result == FirstMatch(matches, Visits(g, caps, stack, seen, visitedCount))
      decreases if visitedCount < caps.nodes then caps.nodes - visitedCount else 0, |stack|
    {
      OneLook(g, caps, matches, stack, seen, visitedCount);
      var top := stack[|stack| - 1];
      stack := stack[..|stack| - 1];
      if top.node in seen { continue; }
      seen := seen + {top.node};
      visitedCount := visitedCount + 1;
      if matches(top.node) { return Some(top.node); }
      stack := PushBelow(g, caps, stack, top);
    }
    found := None;
  }

  method PushBelow(g: Graph, caps: Caps, rest: seq<Frame>, top: Frame) returns (stack: seq<Frame>)
    ensures stack == NextStack(g, caps, rest, top)
  {
    stack := rest;
    if top.depth < caps.depth {
      stack := PushChildren(rest, g(top.node), top.depth + 1);
    }
  }

  /** The children onto the stack, the last one first. */
  method PushChildren(rest: seq<Frame>, children: seq<nat>, depth: nat) returns (stack: seq<Frame>)
    ensures stack == rest + Push(children, depth)
  {
    stack := rest;
    var k := |children|;
    while k > 0
      invariant 0 <= k <= |children| && stack == rest + Push(children[k..], depth)
    {
      k := k - 1;
      assert children[k..][1..] == children[k + 1..];
      stack := stack + [Frame(children[k], depth)];
    }
    assert children[0..] == children;
  }

  /** No node is visited twice, and none that was seen before, whatever the graph. */
  lemma {:induction false} VisitsOnce(g: Graph, caps: Caps, stack: seq<Frame>, seen: set<nat>, count: nat)
    ensures var order := Visits(g, caps, stack, seen, count);
            && (forall n | n in order :: n !in seen)
            && (forall i, j | 0 <= i < j < |order| :: order[i] != order[j])
    decreases if count < caps.nodes then caps.nodes - count else 0, |stack|
  {
    if stack != [] && count < caps.nodes {
      var top, rest := stack[|stack| - 1], stack[..|stack| - 1];
      if top.node in seen {
        VisitsOnce(g, caps, rest, seen, count);
      } else {
        var next := NextStack(g, caps, rest, top);
        VisitsOnce(g, caps, next, seen + {top.node}, count + 1);
        var tail := Visits(g, caps, next, seen + {top.node}, count + 1);
        var order := Visits(g, caps, stack, seen, count);
        assert order == [top.node] + tail;
        forall i, j | 0 <= i < j < |order| ensures order[i] != order[j] {
          assert order[j] == tail[j - 1];
        }
      }
    }
  }

  // ---------------------------------------------------------------- trees

  datatype Tree = Tree(node: nat, children: seq<Tree>)

  function Roots(ts: seq<Tree>): seq<nat> {
    if ts == [] then [] else [ts[0].node] + Roots(ts[1..])
  }

  /** The graph below this node is this finite tree. */
  predicate Grows(g: Graph, t: Tree) {
    g(t.node) == Roots(t.children) && GrowAll(g, t.children)
  }

  predicate GrowAll(g: Graph, ts: seq<Tree>) {
    ts == [] || (Grows(g, ts[0]) && GrowAll(g, ts[1..]))
  }

  /** Recursive preorder, with `levels` more levels below the node. */
  function Preorder(t: Tree, levels: nat): seq<nat> {
    [t.node] + (if levels == 0 then [] else PreorderAll(t.children, levels - 1))
  }

  function PreorderAll(ts: seq<Tree>, levels: nat): seq<nat> {
    if ts == [] then [] else Preorder(ts[0], levels) + PreorderAll(ts[1..], levels)
  }

  // A tree waiting on the stack, with its depth.
  datatype Waiting = Waiting(tree: Tree, depth: nat)

  /** The stack of waiting trees, the first on top. */
  function StackOf(ws: seq<Waiting>): seq<Frame> {
    if ws == [] then [] else StackOf(ws[1..]) + [Frame(ws[0].tree.node, ws[0].depth)]
  }

  function Await(ts: seq<Tree>, depth: nat): seq<Waiting> {
    if ts == [] then [] else [Waiting(ts[0], depth)] + Await(ts[1..], depth)
  }

  /** What recursive preorder makes of the waiting trees. */
  function OrderOf(ws: seq<Waiting>, caps: Caps): seq<nat> {
    if ws == [] then []
    else
      (if ws[0].depth <= caps.depth then Preorder(ws[0].tree, caps.depth - ws[0].depth) else [])
      + OrderOf(ws[1..], caps)
  }

  lemma {:induction false} StackOfAppend(a: seq<Waiting>, b: seq<Waiting>)
    ensures StackOf(a + b) == StackOf(b) + StackOf(a)
    decreases |a|
  {
    if a == [] {
      assert a + b == b;
    } else {
      RestOfSum(a, b);
      StackOfAppend(a[1..], b);
    }
  }

  lemma {:induction false} PushIsAwait(ts: seq<Tree>, depth: nat)
    ensures Push(Roots(ts), depth) == StackOf(Await(ts, depth))
    decreases |ts|
  {
    if ts != [] {
      PushIsAwait(ts[1..], depth);
      assert Roots(ts)[1..] == Roots(ts[1..]);
      HeadAndRest(Waiting(ts[0], depth), Await(ts[1..], depth));
    }
  }

  lemma {:induction false} OrderOfAppend(a: seq<Waiting>, b: seq<Waiting>, caps: Caps)
    ensures OrderOf(a + b, caps) == OrderOf(a, caps) + OrderOf(b, caps)
    decreases |a|
  {
    if a == [] {
      assert a + b == b;
    } else {
      RestOfSum(a, b);
      OrderOfAppend(a[1..], b, caps);
    }
  }

  lemma {:induction false} OrderOfAwait(ts: seq<Tree>, depth: nat, caps: Caps)
    requires depth <= caps.depth
    ensures OrderOf(Await(ts, depth), caps) == PreorderAll(ts, caps.depth - depth)
    decreases |ts|
  {
    if ts != [] {
      OrderOfAwait(ts[1..], depth, caps);
      HeadAndRest(Waiting(ts[0], depth), Await(ts[1..], depth));
    }
  }

  ghost predicate AllGrow(g: Graph, ws: seq<Waiting>, caps: Caps) {
    forall k | 0 <= k < |ws| :: Grows(g, ws[k].tree) && ws[k].depth <= caps.depth
  }

  lemma {:induction false} AwaitGrows(g: Graph, ts: seq<Tree>, depth: nat, caps: Caps)
    requires GrowAll(g, ts) && depth <= caps.depth
    ensures AllGrow(g, Await(ts, depth), caps)
    decreases |ts|
  {
    if ts != [] {
      AwaitGrows(g, ts[1..], depth, caps);
    }
  }

  ghost predicate Distinct(s: seq<nat>) {
    forall i, j | 0 <= i < j < |s| :: s[i] != s[j]
  }

  ghost predicate Unseen(order: seq<nat>, seen: set<nat>) {
    forall n | n in order :: n !in seen
  }

  function Take(s: seq<nat>, n: nat): seq<nat> {
    if |s| <= n then s else s[..n]
  }

  /** What waits once the first tree has been visited. */
  function NextWaiting(ws: seq<Waiting>, caps: Caps): seq<Waiting>
    requires ws != []
  {
    var t, d := ws[0].tree, ws[0].depth;
    if d >= caps.depth then ws[1..] else Await(t.children, d + 1) + ws[1..]
  }

  lemma BothGrow(g: Graph, a: seq<Waiting>, b: seq<Waiting>, caps: Caps)
    requires AllGrow(g, a, caps) && AllGrow(g, b, caps)
    ensures AllGrow(g, a + b, caps)
  {}

  lemma NextGrows(g: Graph, caps: Caps, ws: seq<Waiting>)
    requires ws != [] && AllGrow(g, ws, caps)
    ensures AllGrow(g, NextWaiting(ws, caps), caps)
  {
    var t, d, rest := ws[0].tree, ws[0].depth, ws[1..];
    assert Grows(g, t);
    assert AllGrow(g, rest, caps);
    if d < caps.depth {
      AwaitGrows(g, t.children, d + 1, caps);
      BothGrow(g, Await(t.children, d + 1), rest, caps);
    }
  }

  lemma NextInOrder(caps: Caps, ws: seq<Waiting>)
    requires ws != [] && ws[0].depth <= caps.depth
    ensures OrderOf(ws, caps) == [ws[0].tree.node] + OrderOf(NextWaiting(ws, caps), caps)
  {
    var t, d, rest := ws[0].tree, ws[0].depth, ws[1..];
    FirstWaiting(caps, ws);
    if d == caps.depth {
      LowestLevel(t);
    } else {
      ChildrenInOrder(t, d, caps, rest);
    }
  }

  lemma FirstWaiting(caps: Caps, ws: seq<Waiting>)
    requires ws != [] && ws[0].depth <= caps.depth
    ensures OrderOf(ws, caps) == Preorder(ws[0].tree, caps.depth - ws[0].depth) + OrderOf(ws[1..], caps)
  {}

  lemma LowestLevel(t: Tree)
    ensures Preorder(t, 0) == [t.node]
  {
    Nothing([t.node]);
  }

  lemma NextOnStack(g: Graph, caps: Caps, ws: seq<Waiting>)
    requires ws != [] && g(ws[0].tree.node) == Roots(ws[0].tree.children)
    ensures StackOf(NextWaiting(ws, caps)) == NextStack(g, caps, StackOf(ws[1..]), Frame(ws[0].tree.node, ws[0].depth))
  {
    var t, d, rest := ws[0].tree, ws[0].depth, ws[1..];
    if d < caps.depth {
      StackOfAppend(Await(t.children, d + 1), rest);
      PushIsAwait(t.children, d + 1);
    }
  }

  /** Popping a tree and pushing its children is one step of recursive preorder. */
  lemma OneVisit(g: Graph, caps: Caps, ws: seq<Waiting>) returns (next: seq<Waiting>)
    requires ws != [] && AllGrow(g, ws, caps)
    ensures AllGrow(g, next, caps)
    ensures OrderOf(ws, caps) == [ws[0].tree.node] + OrderOf(next, caps)
    ensures StackOf(next) == NextStack(g, caps, StackOf(ws[1..]), Frame(ws[0].tree.node, ws[0].depth))
  {
    next := NextWaiting(ws, caps);
    NextGrows(g, caps, ws);
    assert Grows(g, ws[0].tree) && ws[0].depth <= caps.depth;
    NextInOrder(caps, ws);
    NextOnStack(g, caps, ws);
  }

  lemma ChildrenInOrder(t: Tree, d: nat, caps: Caps, rest: seq<Waiting>)
    requires d < caps.depth
    ensures Preorder(t, caps.depth - d) + OrderOf(rest, caps)
         == [t.node] + OrderOf(Await(t.children, d + 1) + rest, caps)
  {
    var below := Await(t.children, d + 1);
    OrderOfAppend(below, rest, caps);
    OrderOfAwait(t.children, d + 1, caps);
    Reassociate([t.node], OrderOf(below, caps), OrderOf(rest, caps));
  }

  lemma DistinctTail(first: nat, rest: seq<nat>, seen: set<nat>)
    requires Distinct([first] + rest) && Unseen([first] + rest, seen)
    ensures Distinct(rest) && first !in seen && Unseen(rest, seen + {first})
  {
    var order := [first] + rest;
    assert first in order;
    forall i, j | 0 <= i < j < |rest| ensures rest[i] != rest[j] {
      assert order[i + 1] == rest[i] && order[j + 1] == rest[j];
    }
    forall n | n in rest ensures n !in seen + {first} {
      var k :| 0 <= k < |rest| && rest[k] == n;
      assert order[k + 1] == n && order[0] == first;
      assert n in order;
    }
  }

  /** One turn of the search and one step of recursive preorder visit the same node. */
  lemma OneTurn(g: Graph, caps: Caps, ws: seq<Waiting>, seen: set<nat>, count: nat)
    returns (top: nat, next: seq<Waiting>)
    requires ws != [] && AllGrow(g, ws, caps) && count < caps.nodes && ws[0].tree.node !in seen
    ensures AllGrow(g, next, caps) && OrderOf(ws, caps) == [top] + OrderOf(next, caps)
    ensures Visits(g, caps, StackOf(ws), seen, count)
         == [top] + Visits(g, caps, StackOf(next), seen + {top}, count + 1)
  {
    top := ws[0].tree.node;
    next := OneVisit(g, caps, ws);
    StackTop(ws);
    VisitTop(g, caps, StackOf(ws[1..]), Frame(top, ws[0].depth), seen, count);
  }

  lemma StackTop(ws: seq<Waiting>)
    requires ws != []
    ensures StackOf(ws) == StackOf(ws[1..]) + [Frame(ws[0].tree.node, ws[0].depth)]
  {}

  lemma FirstInOrder(g: Graph, caps: Caps, ws: seq<Waiting>)
    requires ws != [] && AllGrow(g, ws, caps)
    ensures ws[0].tree.node in OrderOf(ws, caps)
  {
    var next := OneVisit(g, caps, ws);
  }

  lemma {:induction false} VisitsInPreorder(
    g: Graph, caps: Caps, ws: seq<Waiting>, order: seq<nat>, seen: set<nat>, count: nat)
    requires AllGrow(g, ws, caps) && count <= caps.nodes
    requires order == OrderOf(ws, caps) && Distinct(order) && Unseen(order, seen)
    ensures Visits(g, caps, StackOf(ws), seen, count) == Take(order, caps.nodes - count)
    decreases caps.nodes - count
  {
    if ws != [] && count < caps.nodes {
      FirstInOrder(g, caps, ws);
      var top, next := OneTurn(g, caps, ws, seen, count);
      var rest := OrderOf(next, caps);
      DistinctTail(top, rest, seen);
      VisitsInPreorder(g, caps, next, rest, seen + {top}, count + 1);
      TakeOneMore(top, rest, caps.nodes - count);
    } else {
      NothingVisited(g, caps, ws, seen, count);
    }
  }

  lemma NothingVisited(g: Graph, caps: Caps, ws: seq<Waiting>, seen: set<nat>, count: nat)
    requires count <= caps.nodes && (ws == [] || count == caps.nodes)
    ensures Visits(g, caps, StackOf(ws), seen, count) == []
    ensures Take(OrderOf(ws, caps), caps.nodes - count) == []
  {}

  lemma TakeOneMore(first: nat, rest: seq<nat>, n: nat)
    requires n > 0
    ensures Take([first] + rest, n) == [first] + Take(rest, n - 1)
  {}

  lemma OneWaiting(t: Tree, caps: Caps)
    ensures OrderOf([Waiting(t, 0)], caps) == Preorder(t, caps.depth)
    ensures StackOf([Waiting(t, 0)]) == [Frame(t.node, 0)]
  {
    assert [Waiting(t, 0)][1..] == [];
    Nothing(Preorder(t, caps.depth));
  }

  /** On a finite tree the search is a recursive preorder search of the levels allowed, cut off
      after the number of nodes allowed. */
  lemma TreeSearchIsPreorder(g: Graph, caps: Caps, t: Tree)
    requires Grows(g, t) && Distinct(Preorder(t, caps.depth))
    ensures Visits(g, caps, [Frame(t.node, 0)], {}, 0) == Take(Preorder(t, caps.depth), caps.nodes)
  {
    var ws := [Waiting(t, 0)];
    OneWaiting(t, caps);
    VisitsInPreorder(g, caps, ws, Preorder(t, caps.depth), {}, 0);
  }

  /** The first match is the first in preorder: it matches and nothing before it does. */
  lemma {:induction false} FirstMatchIsFirst(matches: nat -> bool, order: seq<nat>)
    ensures var r := FirstMatch(matches, order);
            && (r == None <==> forall n | n in order :: !matches(n))
            && (r.Some? ==> exists k :: 0 <= k < |order| && order[k] == r.value && matches(r.value)
                              && forall j | 0 <= j < k :: !matches(order[j]))
    decreases |order|
  {
    if order != [] {
      FirstMatchIsFirst(matches, order[1..]);
      var r := FirstMatch(matches, order);
      if !matches(order[0]) && r.Some? {
        var k :| 0 <= k < |order[1..]| && order[1..][k] == r.value
                 && forall j | 0 <= j < k :: !matches(order[1..][j]);
        assert order[k + 1] == r.value;
        forall j | 0 <= j < k + 1 ensures !matches(order[j]) {
          if j > 0 {
            assert order[j] == order[1..][j - 1];
          }
        }
      } else if matches(order[0]) {
        assert order[0] == r.value;
      }
      assert order == [order[0]] + order[1..];
    }
  }
}
