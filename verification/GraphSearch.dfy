/** The descendant search on any graph, cycles and shared nodes included: how far it gets, and
    what it cannot miss. */
module GraphSearch {
  import opened Options
  import opened Seqs
  import opened FirstDescendant

  lemma {:induction false} PushedAre(children: seq<nat>, depth: nat, f: Frame)
    ensures f in Push(children, depth) <==> f.depth == depth && f.node in children
    decreases |children|
  {
    if children != [] {
      PushedAre(children[1..], depth, f);
      assert children == [children[0]] + children[1..];
    }
  }

  /** The k-th node visited is a child of the j-th, one level below it. */
  predicate Parent(g: Graph, order: seq<nat>, depths: seq<nat>, j: nat, k: nat) {
    j < k < |order| == |depths| && depths[k] == depths[j] + 1 && order[k] in g(order[j])
  }

  /** The k-th node visited was waiting at its depth, or is a child of one visited before it and
      one level higher. */
  ghost predicate HasOrigin(g: Graph, stack: seq<Frame>, order: seq<nat>, depths: seq<nat>, k: nat)
    requires k < |order| == |depths|
  {
    || Frame(order[k], depths[k]) in stack
    || exists j :: Parent(g, order, depths, j, k)
  }

  ghost predicate Spreads(g: Graph, caps: Caps, stack: seq<Frame>, order: seq<nat>, depths: seq<nat>) {
    && |depths| == |order|
    && forall k: nat | k < |order| :: depths[k] <= caps.depth && HasOrigin(g, stack, order, depths, k)
  }

  ghost predicate AllMet(nodes: seq<nat>, seen: set<nat>, order: seq<nat>) {
    forall n | n in nodes :: n in seen || n in order
  }

  ghost predicate FramesMet(stack: seq<Frame>, seen: set<nat>, order: seq<nat>) {
    forall f | f in stack :: f.node in seen || f.node in order
  }

  /** No child of a node above the lowest level is missed. */
  ghost predicate ChildrenMet(g: Graph, caps: Caps, seen: set<nat>, order: seq<nat>, depths: seq<nat>)
    requires |depths| == |order|
  {
    forall k | 0 <= k < |order| && depths[k] < caps.depth :: AllMet(g(order[k]), seen, order)
  }

  ghost predicate Shallow(caps: Caps, stack: seq<Frame>) {
    forall f | f in stack :: f.depth <= caps.depth
  }

  lemma NextIsShallow(g: Graph, caps: Caps, rest: seq<Frame>, top: Frame)
    requires Shallow(caps, rest)
    ensures Shallow(caps, NextStack(g, caps, rest, top))
  {
    forall f | f in NextStack(g, caps, rest, top) ensures f.depth <= caps.depth {
      PushedAre(g(top.node), top.depth + 1, f);
    }
  }

  /** The visits from a stack: where each comes from, and, unless the number of nodes allowed is
      used up, that nothing is missed. */
  lemma {:induction false} VisitsSpread(g: Graph, caps: Caps, stack: seq<Frame>, seen: set<nat>, count: nat)
    returns (depths: seq<nat>)
    requires Shallow(caps, stack)
    ensures var order := Visits(g, caps, stack, seen, count);
            && Spreads(g, caps, stack, order, depths)
            && (count + |order| < caps.nodes ==>
                  FramesMet(stack, seen, order) && ChildrenMet(g, caps, seen, order, depths))
    decreases if count < caps.nodes then caps.nodes - count else 0, |stack|
  {
    depths := [];
    if stack != [] && count < caps.nodes {
      var top, rest := stack[|stack| - 1], stack[..|stack| - 1];
      assert stack == rest + [top];
      if top.node in seen {
        depths := VisitsSpread(g, caps, rest, seen, count);
        SameOrigins(g, caps, rest, stack, Visits(g, caps, rest, seen, count), depths);
      } else {
        var next := NextStack(g, caps, rest, top);
        NextIsShallow(g, caps, rest, top);
        var order := Visits(g, caps, next, seen + {top.node}, count + 1);
        depths := VisitsSpread(g, caps, next, seen + {top.node}, count + 1);
        OneMoreOrigin(g, caps, rest, top, order, depths);
        if count + 1 + |order| < caps.nodes {
          FramesStayMet(g, caps, rest, top, seen, order);
          ChildrenStayMet(g, caps, rest, top, seen, order, depths);
        }
        depths := [top.depth] + depths;
      }
    }
  }

  lemma SameOrigins(g: Graph, caps: Caps, rest: seq<Frame>, stack: seq<Frame>, order: seq<nat>, depths: seq<nat>)
    requires Spreads(g, caps, rest, order, depths) && forall f | f in rest :: f in stack
    ensures Spreads(g, caps, stack, order, depths)
  {
    forall k: nat | k < |order| ensures HasOrigin(g, stack, order, depths, k) {
      assert HasOrigin(g, rest, order, depths, k);
    }
  }

  lemma ParentShifts(g: Graph, order: seq<nat>, depths: seq<nat>, j: nat, k: nat, node: nat, depth: nat)
    requires Parent(g, order, depths, j, k)
    ensures Parent(g, [node] + order, [depth] + depths, j + 1, k + 1)
  {}

  lemma OriginShifts(g: Graph, caps: Caps, rest: seq<Frame>, top: Frame, order: seq<nat>, depths: seq<nat>, k: nat)
    requires k < |order| == |depths| && HasOrigin(g, NextStack(g, caps, rest, top), order, depths, k)
    ensures HasOrigin(g, rest + [top], [top.node] + order, [top.depth] + depths, k + 1)
  {
    var f := Frame(order[k], depths[k]);
    if f in NextStack(g, caps, rest, top) {
      PushedAre(g(top.node), top.depth + 1, f);
      assert f in rest || Parent(g, [top.node] + order, [top.depth] + depths, 0, k + 1);
    } else {
      var j :| Parent(g, order, depths, j, k);
      ParentShifts(g, order, depths, j, k, top.node, top.depth);
    }
  }

  lemma OneMoreOrigin(g: Graph, caps: Caps, rest: seq<Frame>, top: Frame, order: seq<nat>, depths: seq<nat>)
    requires top.depth <= caps.depth && Spreads(g, caps, NextStack(g, caps, rest, top), order, depths)
    ensures Spreads(g, caps, rest + [top], [top.node] + order, [top.depth] + depths)
  {
    var all, levels := [top.node] + order, [top.depth] + depths;
    assert (rest + [top])[|rest|] == top;
    forall k: nat | k < |all| ensures levels[k] <= caps.depth && HasOrigin(g, rest + [top], all, levels, k) {
      if k > 0 {
        assert levels[k] == depths[k - 1];
        OriginShifts(g, caps, rest, top, order, depths, k - 1);
      }
    }
  }

  lemma FramesStayMet(g: Graph, caps: Caps, rest: seq<Frame>, top: Frame, seen: set<nat>, order: seq<nat>)
    requires FramesMet(NextStack(g, caps, rest, top), seen + {top.node}, order)
    ensures FramesMet(rest + [top], seen, [top.node] + order)
  {
    assert ([top.node] + order)[0] == top.node;
  }

  lemma MetByMore(nodes: seq<nat>, seen: set<nat>, first: nat, order: seq<nat>)
    requires AllMet(nodes, seen + {first}, order)
    ensures AllMet(nodes, seen, [first] + order)
  {
    assert ([first] + order)[0] == first;
  }

  lemma ChildrenPushed(g: Graph, caps: Caps, rest: seq<Frame>, top: Frame, seen: set<nat>, order: seq<nat>)
    requires FramesMet(NextStack(g, caps, rest, top), seen + {top.node}, order)
    ensures top.depth < caps.depth ==> AllMet(g(top.node), seen + {top.node}, order)
  {
    forall c | c in g(top.node) && top.depth < caps.depth ensures c in seen + {top.node} || c in order {
      PushedAre(g(top.node), top.depth + 1, Frame(c, top.depth + 1));
      assert Frame(c, top.depth + 1) in NextStack(g, caps, rest, top);
    }
  }

  lemma ChildrenStayMet(
    g: Graph, caps: Caps, rest: seq<Frame>, top: Frame, seen: set<nat>, order: seq<nat>, depths: seq<nat>)
    requires |depths| == |order|
    requires FramesMet(NextStack(g, caps, rest, top), seen + {top.node}, order)
    requires ChildrenMet(g, caps, seen + {top.node}, order, depths)
    ensures ChildrenMet(g, caps, seen, [top.node] + order, [top.depth] + depths)
  {
    var all, levels := [top.node] + order, [top.depth] + depths;
    ChildrenPushed(g, caps, rest, top, seen, order);
    forall k | 0 <= k < |all| && levels[k] < caps.depth ensures AllMet(g(all[k]), seen, all) {
      if k > 0 {
        assert all[k] == order[k - 1] && levels[k] == depths[k - 1];
      }
      MetByMore(g(all[k]), seen, top.node, order);
    }
  }

  /** Each node visited but the first is a child of one visited earlier, one level below it, and
      none lies below the lowest level. */
  ghost predicate HaveParents(g: Graph, caps: Caps, order: seq<nat>, depths: seq<nat>) {
    && |depths| == |order|
    && forall k: nat | 0 < k < |order| :: depths[k] <= caps.depth && exists j :: Parent(g, order, depths, j, k)
  }

  lemma OriginsAreParents(g: Graph, caps: Caps, root: nat, order: seq<nat>, depths: seq<nat>)
    requires Spreads(g, caps, [Frame(root, 0)], order, depths)
    requires order != [] && order[0] == root && forall i, j | 0 <= i < j < |order| :: order[i] != order[j]
    ensures HaveParents(g, caps, order, depths) && depths[0] == 0
  {
    assert HasOrigin(g, [Frame(root, 0)], order, depths, 0);
    forall k: nat | 0 < k < |order|
      ensures depths[k] <= caps.depth && exists j :: Parent(g, order, depths, j, k)
    {
      assert HasOrigin(g, [Frame(root, 0)], order, depths, k);
      assert order[0] != order[k];
    }
  }

  lemma RootIsFirst(g: Graph, caps: Caps, root: nat)
    requires caps.nodes > 0
    ensures var order := Visits(g, caps, [Frame(root, 0)], {}, 0);
            order != [] && order[0] == root
  {
    VisitTop(g, caps, [], Frame(root, 0), {}, 0);
    Nothing([Frame(root, 0)]);
  }

  /** From a root, on any graph: the first visit is the root, at level 0; every other one is a child
      of a node visited earlier, one level below it and never below the lowest level; and unless
      as many nodes as allowed have been visited, every child of every node above the lowest
      level has been. */
  lemma SearchFromRoot(g: Graph, caps: Caps, root: nat) returns (depths: seq<nat>)
    requires caps.nodes > 0
    ensures var order := Visits(g, caps, [Frame(root, 0)], {}, 0);
            && HaveParents(g, caps, order, depths)
            && order != [] && order[0] == root && depths[0] == 0
            && (|order| < caps.nodes ==> ChildrenMet(g, caps, {}, order, depths))
  {
    depths := VisitsSpread(g, caps, [Frame(root, 0)], {}, 0);
    VisitsOnce(g, caps, [Frame(root, 0)], {}, 0);
    RootIsFirst(g, caps, root);
    OriginsAreParents(g, caps, root, Visits(g, caps, [Frame(root, 0)], {}, 0), depths);
  }
}
