/** Which nodes a rendering shows: how deep its lines get, and what an untruncated rendering
    leaves out. */
module RenderedNodes {
  import opened Options
  import opened Seqs
  import opened TabCompaction
  import opened AccessibilityTree

  // ---------------------------------------------------------------- depth

  ghost predicate Shallow(lines: seq<Line>) {
    forall line | line in lines :: line.depth <= 64
  }

  lemma {:induction false} KeptAreLines(lines: seq<Line>, depth: nat, records: seq<Record>)
    ensures forall line | line in Kept(lines, depth, records) :: line in lines
    decreases |lines|
  {
    if lines != [] {
      KeptAreLines(lines[..|lines| - 1], depth, records);
    }
  }

  /** The summary line stands no deeper than the tabs it stands for. */
  lemma TidyStaysShallow(rules: Rules, w: Walked, start: nat, depth: nat)
    requires start <= |w.out.lines| && Shallow(w.out.lines)
    ensures Shallow(Tidy(rules, w, start, depth).out.lines)
  {
    if rules.compact && Compacts(w.out, start, depth) {
      var first := TabLines(w.out.lines, start, depth)[0];
      assert w.out.lines[first].depth == depth && w.out.lines[first] in w.out.lines;
      var head, tail := w.out.lines[..first], w.out.lines[first..];
      KeptAreLines(tail, depth, w.out.records);
      forall line | line in Compact(w.out, start, depth).lines ensures line.depth <= 64 {
        assert line in head || line in tail || line.depth == depth;
      }
    }
  }

  lemma ShowStaysShallow(rules: Rules, node: Node, depth: nat, path: seq<nat>, w: Walked)
    requires Shallow(w.out.lines) && depth <= MAX_DEPTH
    ensures Shallow(Show(rules, node, depth, path, w).out.lines)
  {}

  /** With compaction or without, no line is deeper than the cap. */
  lemma {:induction false} LinesStayShallow(rules: Rules, node: Node, depth: nat, path: seq<nat>, w: Walked)
    requires Shallow(w.out.lines)
    ensures Shallow(Walk(rules, node, depth, path, w).out.lines)
    decreases node, 1, 0
  {
    if Full(w, depth) {
    } else if ShouldElide(rules, node) {
      if !SuppressChildren(node) {
        LinesBelowStayShallow(rules, node, 0, depth, path, w);
      }
    } else {
      var shown := Show(rules, node, depth, path, w);
      ShowStaysShallow(rules, node, depth, path, w);
      if Descends(rules, node) {
        LinesBelowStayShallow(rules, node, 0, depth + 1, path, shown);
        TidyStaysShallow(rules, WalkChildren(rules, node, 0, depth + 1, path, shown), |shown.out.lines|, depth + 1);
      }
    }
  }

  lemma {:induction false} LinesBelowStayShallow(
    rules: Rules, node: Node, i: nat, depth: nat, path: seq<nat>, w: Walked)
    requires i <= |node.children| && Shallow(w.out.lines)
    ensures Shallow(WalkChildren(rules, node, i, depth, path, w).out.lines)
    decreases node, 0, |node.children| - i
  {
    if i < |node.children| {
      if node.children[i].Some? {
        LinesStayShallow(rules, node.children[i].value, depth, path + [i], w);
        LinesBelowStayShallow(rules, node, i + 1, depth, path,
                              Walk(rules, node.children[i].value, depth, path + [i], w));
      } else {
        LinesBelowStayShallow(rules, node, i + 1, depth, path, w);
      }
    }
  }

  // ---------------------------------------------------------------- what there is to show

  // A node to be rendered, with its path.
  datatype Place = Place(node: Node, path: seq<nat>)

  /** Everything a rendering without limits and compaction shows, in order. */
  function Shown(rules: Rules, node: Node, path: seq<nat>): seq<Place>
    decreases node, 1, 0
  {
    if ShouldElide(rules, node) then
      if SuppressChildren(node) then [] else ShownBelow(rules, node, 0, path)
    else [Place(node, path)] + (if Descends(rules, node) then ShownBelow(rules, node, 0, path) else [])
  }

  function ShownBelow(rules: Rules, node: Node, i: nat, path: seq<nat>): seq<Place>
    requires i <= |node.children|
    decreases node, 0, |node.children| - i
  {
    if i == |node.children| then []
    else
      (if node.children[i].Some? then Shown(rules, node.children[i].value, path + [i]) else [])
      + ShownBelow(rules, node, i + 1, path)
  }

  lemma {:induction false} ShownInside(rules: Rules, node: Node, path: seq<nat>)
    ensures forall p | p in Shown(rules, node, path) :: path <= p.path
    decreases node, 1, 0
  {
    ShownBelowInside(rules, node, 0, path);
  }

  /** What is shown below lies behind the later branches. */
  lemma {:induction false} ShownBelowInside(rules: Rules, node: Node, i: nat, path: seq<nat>)
    requires i <= |node.children|
    ensures forall p | p in ShownBelow(rules, node, i, path) ::
              exists j :: i <= j < |node.children| && path + [j] <= p.path
    ensures forall p | p in ShownBelow(rules, node, i, path) :: path <= p.path
    decreases node, 0, |node.children| - i
  {
    if i < |node.children| {
      if node.children[i].Some? {
        ShownInside(rules, node.children[i].value, path + [i]);
      }
      ShownBelowInside(rules, node, i + 1, path);
      forall p | p in ShownBelow(rules, node, i, path)
        ensures exists j :: i <= j < |node.children| && path + [j] <= p.path
      {
        if p in ShownBelow(rules, node, i + 1, path) {
          var j :| i + 1 <= j < |node.children| && path + [j] <= p.path;
        } else {
          assert path + [i] <= p.path;
        }
      }
      forall p | p in ShownBelow(rules, node, i, path) ensures path <= p.path {
        var j :| i <= j < |node.children| && path + [j] <= p.path;
        PrefixAt(path, j, p.path);
      }
    }
  }

  // ---------------------------------------------------------------- records without numbers

  function Unnumbered(records: seq<Record>): (r: seq<Record>)
  {
    if records == [] then []
    else Unnumbered(records[..|records| - 1]) + [records[|records| - 1].(index := 0)]
  }

  function RecordsOf(places: seq<Place>): seq<Record> {
    if places == [] then []
    else
      RecordsOf(places[..|places| - 1])
      + [MakeRecord(places[|places| - 1].node, 0, places[|places| - 1].path)]
  }

  /** The records whose path has not been taken out. */
  function Left(records: seq<Record>, taken: set<seq<nat>>): seq<Record> {
    if records == [] then []
    else
      var front := Left(records[..|records| - 1], taken);
      if records[|records| - 1].path in taken then front else front + [records[|records| - 1]]
  }

  function PathsOf(records: seq<Record>): set<seq<nat>> {
    set r | r in records :: r.path
  }

  lemma {:induction false} RecordsAppend(a: seq<Place>, b: seq<Place>)
    ensures RecordsOf(a + b) == RecordsOf(a) + RecordsOf(b)
    decreases |b|
  {
    if b == [] {
      Nothing(a);
      Nothing(RecordsOf(a));
    } else {
      FrontOfSum(a, b);
      RecordsAppend(a, b[..|b| - 1]);
      var last := b[|b| - 1];
      Reassociate(RecordsOf(a), RecordsOf(b[..|b| - 1]), [MakeRecord(last.node, 0, last.path)]);
    }
  }

  lemma {:induction false} LeftAppend(a: seq<Record>, b: seq<Record>, taken: set<seq<nat>>)
    ensures Left(a + b, taken) == Left(a, taken) + Left(b, taken)
    decreases |b|
  {
    if b == [] {
      Nothing(a);
      Nothing(Left(a, taken));
    } else {
      FrontOfSum(a, b);
      LeftAppend(a, b[..|b| - 1], taken);
      Reassociate(Left(a, taken), Left(b[..|b| - 1], taken), [b[|b| - 1]]);
    }
  }

  lemma {:induction false} LeftAlone(records: seq<Record>, taken: set<seq<nat>>)
    requires forall r | r in records :: r.path !in taken
    ensures Left(records, taken) == records
    decreases |records|
  {
    if records != [] {
      var n := |records| - 1;
      assert records[n] in records;
      LeftAlone(records[..n], taken);
      assert records == records[..n] + [records[n]];
    }
  }

  lemma {:induction false} LeftTwice(records: seq<Record>, a: set<seq<nat>>, b: set<seq<nat>>)
    ensures Left(Left(records, a), b) == Left(records, a + b)
    decreases |records|
  {
    if records != [] {
      var n := |records| - 1;
      LeftTwice(records[..n], a, b);
      if records[n].path !in a {
        Front(Left(records[..n], a), records[n]);
      }
    }
  }

  lemma {:induction false} RecordsArePlaces(places: seq<Place>)
    ensures forall r | r in RecordsOf(places) :: exists p :: p in places && p.path == r.path
    decreases |places|
  {
    if places != [] {
      var n := |places| - 1;
      RecordsArePlaces(places[..n]);
      assert places == places[..n] + [places[n]];
      forall r | r in RecordsOf(places) ensures exists p :: p in places && p.path == r.path {
        if r in RecordsOf(places[..n]) {
          var p :| p in places[..n] && p.path == r.path;
        } else {
          assert places[n].path == r.path;
        }
      }
    }
  }

  /** Taking out by number is taking out by path, whatever the numbers, as no path repeats. */
  lemma {:induction false} WithoutIsLeft(records: seq<Record>, gone: set<nat>, taken: set<seq<nat>>)
    requires forall r | r in records :: r.path in taken <==> r.index in gone
    ensures Unnumbered(Without(records, gone)) == Left(Unnumbered(records), taken)
    decreases |records|
  {
    if records != [] {
      var n := |records| - 1;
      assert records[n] in records;
      WithoutIsLeft(records[..n], gone, taken);
      Front(Unnumbered(records[..n]), records[n].(index := 0));
      if records[n].index !in gone {
        Front(Without(records[..n], gone), records[n]);
      }
    }
  }

  // ---------------------------------------------------------------- untruncated renderings

  /** The paths a compaction takes out: those of the records that bear the number of an
      inactive tab line. */
  function TakenByTidy(rules: Rules, w: Walked, start: nat, depth: nat): set<seq<nat>>
    requires start <= |w.out.lines|
  {
    if rules.compact && Compacts(w.out, start, depth) then
      var first := TabLines(w.out.lines, start, depth)[0];
      var gone := ToSet(Gone(w.out.lines[first..], depth, w.out.records));
      set r | r in w.out.records && r.index in gone :: r.path
    else {}
  }

  /** The paths taken out by all the compactions of a rendering. */
  function TakenOut(rules: Rules, node: Node, depth: nat, path: seq<nat>, w: Walked): set<seq<nat>>
    decreases node, 1, 0
  {
    if Full(w, depth) then {}
    else if ShouldElide(rules, node) then
      if SuppressChildren(node) then {} else TakenOutBelow(rules, node, 0, depth, path, w)
    else if !Descends(rules, node) then {}
    else
      var shown := Show(rules, node, depth, path, w);
      var below := WalkChildren(rules, node, 0, depth + 1, path, shown);
      TakenOutBelow(rules, node, 0, depth + 1, path, shown)
      + TakenByTidy(rules, below, |shown.out.lines|, depth + 1)
  }

  function TakenOutBelow(rules: Rules, node: Node, i: nat, depth: nat, path: seq<nat>, w: Walked): set<seq<nat>>
    requires i <= |node.children|
    decreases node, 0, |node.children| - i
  {
    if i == |node.children| then {}
    else if node.children[i].None? then TakenOutBelow(rules, node, i + 1, depth, path, w)
    else
      TakenOut(rules, node.children[i].value, depth, path + [i], w)
      + TakenOutBelow(rules, node, i + 1, depth, path,
                      Walk(rules, node.children[i].value, depth, path + [i], w))
  }

  /** Without compaction nothing is taken out. */
  lemma {:induction false} NothingTakenUncompacted(rules: Rules, node: Node, depth: nat, path: seq<nat>, w: Walked)
    requires !rules.compact
    ensures TakenOut(rules, node, depth, path, w) == {}
    decreases node, 1, 0
  {
    NothingTakenBelow(rules, node, 0, depth, path, w);
    NothingTakenBelow(rules, node, 0, depth + 1, path, Show(rules, node, depth, path, w));
  }

  lemma {:induction false} NothingTakenBelow(
    rules: Rules, node: Node, i: nat, depth: nat, path: seq<nat>, w: Walked)
    requires i <= |node.children| && !rules.compact
    ensures TakenOutBelow(rules, node, i, depth, path, w) == {}
    decreases node, 0, |node.children| - i
  {
    if i < |node.children| {
      if node.children[i].Some? {
        NothingTakenUncompacted(rules, node.children[i].value, depth, path + [i], w);
        NothingTakenBelow(rules, node, i + 1, depth, path,
                          Walk(rules, node.children[i].value, depth, path + [i], w));
      } else {
        NothingTakenBelow(rules, node, i + 1, depth, path, w);
      }
    }
  }

  /** Only what was there before or lies below the node is ever taken out. */
  ghost predicate Inside(taken: set<seq<nat>>, records: seq<Record>, path: seq<nat>) {
    forall p | p in taken :: p in PathsOf(records) || path <= p
  }

  lemma {:induction false} TakenInside(rules: Rules, node: Node, depth: nat, path: seq<nat>, w: Walked)
    requires DistinctPaths(w.out.records) && Outside(w.out.records, path)
    ensures Inside(TakenOut(rules, node, depth, path, w), w.out.records, path)
    decreases node, 1, 0
  {
    if Full(w, depth) {
    } else if ShouldElide(rules, node) {
      if !SuppressChildren(node) {
        TakenInsideBelow(rules, node, 0, depth, path, w);
      }
    } else if Descends(rules, node) {
      var shown := Show(rules, node, depth, path, w);
      ShowDistinct(rules, node, depth, path, w);
      TakenInsideBelow(rules, node, 0, depth + 1, path, shown);
      ChildrenDistinct(rules, node, 0, depth + 1, path, shown);
      var below := WalkChildren(rules, node, 0, depth + 1, path, shown);
      forall p | p in TakenOut(rules, node, depth, path, w) ensures p in PathsOf(w.out.records) || path <= p {
        if p in TakenByTidy(rules, below, |shown.out.lines|, depth + 1) {
          var r :| r in below.out.records && r.path == p;
          assert r in shown.out.records || path <= r.path;
        } else {
          assert p in PathsOf(shown.out.records) || path <= p;
        }
      }
    }
  }

  lemma {:induction false} TakenInsideBelow(
    rules: Rules, node: Node, i: nat, depth: nat, path: seq<nat>, w: Walked)
    requires i <= |node.children| && DistinctPaths(w.out.records)
    requires forall j | i <= j < |node.children| :: Outside(w.out.records, path + [j])
    ensures Inside(TakenOutBelow(rules, node, i, depth, path, w), w.out.records, path)
    decreases node, 0, |node.children| - i
  {
    if i < |node.children| {
      if node.children[i].None? {
        TakenInsideBelow(rules, node, i + 1, depth, path, w);
      } else {
        var child := node.children[i].value;
        var next := Walk(rules, child, depth, path + [i], w);
        TakenInside(rules, child, depth, path + [i], w);
        ChildStaysOutside(rules, node, i, depth, path, w);
        TakenInsideBelow(rules, node, i + 1, depth, path, next);
        forall p | p in TakenOutBelow(rules, node, i, depth, path, w)
          ensures p in PathsOf(w.out.records) || path <= p
        {
          if p in TakenOut(rules, child, depth, path + [i], w) && path + [i] <= p {
            PrefixAt(path, i, p);
          }
          if p in PathsOf(next.out.records) {
            var r :| r in next.out.records && r.path == p;
            assert r in w.out.records || path <= r.path;
          }
        }
      }
    }
  }

  /** One child rendered: nothing lies behind the later children yet. */
  lemma ChildStaysOutside(rules: Rules, node: Node, i: nat, depth: nat, path: seq<nat>, w: Walked)
    requires i < |node.children| && node.children[i].Some? && DistinctPaths(w.out.records)
    requires forall j | i <= j < |node.children| :: Outside(w.out.records, path + [j])
    ensures var next := Walk(rules, node.children[i].value, depth, path + [i], w);
            && DistinctPaths(next.out.records)
            && (forall j | i < j < |node.children| :: Outside(next.out.records, path + [j]))
            && (forall r | r in next.out.records :: r in w.out.records || path <= r.path)
  {
    var next := Walk(rules, node.children[i].value, depth, path + [i], w);
    WalkDistinct(rules, node.children[i].value, depth, path + [i], w);
    forall j, x | i < j < |node.children| && x in next.out.records ensures !(path + [j] <= x.path) {
      if path + [i] <= x.path {
        BranchesDiffer(path, i, j, x.path);
      } else {
        assert Outside(w.out.records, path + [j]);
      }
    }
    forall x | x in next.out.records ensures x in w.out.records || path <= x.path {
      if path + [i] <= x.path {
        PrefixAt(path, i, x.path);
      }
    }
  }

  /** r holds what w held and these places, in order, but for what was taken out. */
  ghost predicate Thinned(w: Walked, r: Walked, places: seq<Place>, taken: set<seq<nat>>) {
    Unnumbered(r.out.records) == Left(Unnumbered(w.out.records) + RecordsOf(places), taken)
  }

  ghost predicate Apart(places: seq<Place>, taken: set<seq<nat>>) {
    forall p | p in places :: p.path !in taken
  }

  lemma ThinnedFurther(
    w: Walked, m: Walked, r: Walked, a: seq<Place>, b: seq<Place>, first: set<seq<nat>>, second: set<seq<nat>>)
    requires Thinned(w, m, a, first) && Thinned(m, r, b, second) && Apart(b, first)
    ensures Thinned(w, r, a + b, first + second)
  {
    var was, more, later := Unnumbered(w.out.records), RecordsOf(a), RecordsOf(b);
    RecordsAppend(a, b);
    Reassociate(was, more, later);
    LeftAppend(was + more, later, first);
    RecordsArePlaces(b);
    LeftAlone(later, first);
    LeftTwice(was + more + later, first, second);
  }

  lemma ThinnedByNothing(w: Walked)
    ensures Thinned(w, w, [], {})
  {
    Nothing(Unnumbered(w.out.records));
    LeftAlone(Unnumbered(w.out.records), {});
  }

  lemma ThinnedByShow(rules: Rules, node: Node, depth: nat, path: seq<nat>, w: Walked)
    ensures Thinned(w, Show(rules, node, depth, path, w), [Place(node, path)], {})
  {
    var r := MakeRecord(node, |w.out.records|, path);
    Front(w.out.records, r);
    var one := [Place(node, path)];
    assert one[..0] == [];
    Nothing([MakeRecord(node, 0, path)]);
    LeftAlone(Unnumbered(w.out.records) + RecordsOf(one), {});
  }

  lemma ThinnedByTidy(rules: Rules, w: Walked, start: nat, depth: nat)
    requires start <= |w.out.lines| && DistinctPaths(w.out.records)
    ensures Thinned(w, Tidy(rules, w, start, depth), [], TakenByTidy(rules, w, start, depth))
  {
    if rules.compact && Compacts(w.out, start, depth) {
      var records := w.out.records;
      var first := TabLines(w.out.lines, start, depth)[0];
      var gone := ToSet(Gone(w.out.lines[first..], depth, records));
      var taken := TakenByTidy(rules, w, start, depth);
      forall r | r in records ensures r.path in taken <==> r.index in gone {
        if r.path in taken {
          var x :| x in records && x.index in gone && x.path == r.path;
          OneRecordOfAPath(records, x, r);
        }
      }
      WithoutIsLeft(records, gone, taken);
      Nothing(Unnumbered(records));
    } else {
      ThinnedByNothing(w);
    }
  }

  lemma OneRecordOfAPath(records: seq<Record>, x: Record, y: Record)
    requires DistinctPaths(records) && x in records && y in records && x.path == y.path
    ensures x == y
  {
    var i :| 0 <= i < |records| && records[i] == x;
    var j :| 0 <= j < |records| && records[j] == y;
    assert i == j;
  }

  /** The truncation mark is honest, with compaction or without: an untruncated rendering shows
      in order everything there is to show, but for what its compactions took out. */
  lemma {:induction false} UntruncatedIsComplete(rules: Rules, node: Node, depth: nat, path: seq<nat>, w: Walked)
    requires !Walk(rules, node, depth, path, w).truncated
    requires DistinctPaths(w.out.records) && Outside(w.out.records, path)
    ensures !w.truncated
    ensures Thinned(w, Walk(rules, node, depth, path, w), Shown(rules, node, path),
                    TakenOut(rules, node, depth, path, w))
    decreases node, 1, 0
  {
    if ShouldElide(rules, node) {
      if SuppressChildren(node) {
        ThinnedByNothing(w);
      } else {
        UntruncatedBelow(rules, node, 0, depth, path, w);
      }
    } else if !Descends(rules, node) {
      ThinnedByShow(rules, node, depth, path, w);
      Nothing([Place(node, path)]);
    } else {
      UntruncatedShown(rules, node, depth, path, w);
    }
  }

  lemma {:induction false} UntruncatedShown(rules: Rules, node: Node, depth: nat, path: seq<nat>, w: Walked)
    requires !Walk(rules, node, depth, path, w).truncated
    requires !ShouldElide(rules, node) && Descends(rules, node)
    requires DistinctPaths(w.out.records) && Outside(w.out.records, path)
    ensures !w.truncated
    ensures Thinned(w, Walk(rules, node, depth, path, w), Shown(rules, node, path),
                    TakenOut(rules, node, depth, path, w))
    decreases node, 0, |node.children| + 1
  {
    var shown := Show(rules, node, depth, path, w);
    var m := WalkChildren(rules, node, 0, depth + 1, path, shown);
    ShowDistinct(rules, node, depth, path, w);
    UntruncatedBelow(rules, node, 0, depth + 1, path, shown);
    ChildrenDistinct(rules, node, 0, depth + 1, path, shown);
    ShownThenTidied(rules, node, depth, path, w, m, ShownBelow(rules, node, 0, path),
                    TakenOutBelow(rules, node, 0, depth + 1, path, shown));
  }

  lemma ShownThenTidied(
    rules: Rules, node: Node, depth: nat, path: seq<nat>, w: Walked, m: Walked, below: seq<Place>, taken: set<seq<nat>>)
    requires var shown := Show(rules, node, depth, path, w);
             |shown.out.lines| <= |m.out.lines| && Thinned(shown, m, below, taken) && DistinctPaths(m.out.records)
    ensures var start := |w.out.lines| + 1;
            Thinned(w, Tidy(rules, m, start, depth + 1), [Place(node, path)] + below,
                    taken + TakenByTidy(rules, m, start, depth + 1))
  {
    var one, start := [Place(node, path)], |w.out.lines| + 1;
    ThinnedByShow(rules, node, depth, path, w);
    ThinnedFurther(w, Show(rules, node, depth, path, w), m, one, below, {}, taken);
    assert {} + taken == taken;
    ThinnedByTidy(rules, m, start, depth + 1);
    ThinnedFurther(w, m, Tidy(rules, m, start, depth + 1), one + below, [], taken,
                   TakenByTidy(rules, m, start, depth + 1));
    Nothing(one + below);
  }

  lemma {:induction false} UntruncatedBelow(rules: Rules, node: Node, i: nat, depth: nat, path: seq<nat>, w: Walked)
    requires i <= |node.children| && !WalkChildren(rules, node, i, depth, path, w).truncated
    requires DistinctPaths(w.out.records)
    requires forall j | i <= j < |node.children| :: Outside(w.out.records, path + [j])
    ensures !w.truncated
    ensures Thinned(w, WalkChildren(rules, node, i, depth, path, w), ShownBelow(rules, node, i, path),
                    TakenOutBelow(rules, node, i, depth, path, w))
    decreases node, 0, |node.children| - i
  {
    if i == |node.children| {
      ThinnedByNothing(w);
    } else if node.children[i].None? {
      UntruncatedBelow(rules, node, i + 1, depth, path, w);
      Nothing(ShownBelow(rules, node, i + 1, path));
    } else {
      var child := node.children[i].value;
      var m := Walk(rules, child, depth, path + [i], w);
      ChildStaysOutside(rules, node, i, depth, path, w);
      UntruncatedBelow(rules, node, i + 1, depth, path, m);
      UntruncatedIsComplete(rules, child, depth, path + [i], w);
      LaterPlacesApart(rules, node, i, depth, path, w);
      ThinnedFurther(w, m, WalkChildren(rules, node, i, depth, path, w), Shown(rules, child, path + [i]),
                     ShownBelow(rules, node, i + 1, path), TakenOut(rules, child, depth, path + [i], w),
                     TakenOutBelow(rules, node, i + 1, depth, path, m));
    }
  }

  /** What one child's compactions take out lies behind none of the later children. */
  lemma LaterPlacesApart(rules: Rules, node: Node, i: nat, depth: nat, path: seq<nat>, w: Walked)
    requires i < |node.children| && node.children[i].Some? && DistinctPaths(w.out.records)
    requires forall j | i <= j < |node.children| :: Outside(w.out.records, path + [j])
    ensures Apart(ShownBelow(rules, node, i + 1, path), TakenOut(rules, node.children[i].value, depth, path + [i], w))
  {
    var taken := TakenOut(rules, node.children[i].value, depth, path + [i], w);
    TakenInside(rules, node.children[i].value, depth, path + [i], w);
    ShownBelowInside(rules, node, i + 1, path);
    forall p | p in ShownBelow(rules, node, i + 1, path) ensures p.path !in taken {
      var j :| i + 1 <= j < |node.children| && path + [j] <= p.path;
      forall r | r in w.out.records ensures r.path != p.path {
        assert Outside(w.out.records, path + [j]);
      }
      BranchesDiffer(path, j, i, p.path);
    }
  }

  /** Of a whole rendering: the nodes to show, in order, without those taken out. */
  lemma UntruncatedRendering(rules: Rules, window: Node, rootPath: seq<nat>)
    requires !Walk(rules, window, 0, rootPath, Walked(Rendered([], []), false, false)).truncated
    ensures var start := Walked(Rendered([], []), false, false);
            Unnumbered(Walk(rules, window, 0, rootPath, start).out.records)
              == Left(RecordsOf(Shown(rules, window, rootPath)), TakenOut(rules, window, 0, rootPath, start))
  {
    UntruncatedIsComplete(rules, window, 0, rootPath, Walked(Rendered([], []), false, false));
    Nothing(RecordsOf(Shown(rules, window, rootPath)));
  }

  // ---------------------------------------------------------------- without compaction

  function RecordAll(places: seq<Place>, from: nat): (records: seq<Record>)
    ensures |records| == |places|
  {
    if places == [] then []
    else [MakeRecord(places[0].node, from, places[0].path)] + RecordAll(places[1..], from + 1)
  }

  lemma {:induction false} RecordAllAppend(a: seq<Place>, b: seq<Place>, from: nat)
    ensures RecordAll(a + b, from) == RecordAll(a, from) + RecordAll(b, from + |a|)
    decreases |a|
  {
    if a == [] {
      assert a + b == b;
    } else {
      RestOfSum(a, b);
      RecordAllAppend(a[1..], b, from + 1);
    }
  }

  /** w grew by the records of these places. */
  ghost predicate GrewBy(w: Walked, r: Walked, places: seq<Place>) {
    r.out.records == w.out.records + RecordAll(places, |w.out.records|)
  }

  lemma GrewFurther(w: Walked, m: Walked, r: Walked, a: seq<Place>, b: seq<Place>)
    requires GrewBy(w, m, a) && GrewBy(m, r, b)
    ensures GrewBy(w, r, a + b)
  {
    RecordAllAppend(a, b, |w.out.records|);
  }

  /** Without compaction an untruncated rendering shows everything, numbered by position. */
  lemma {:induction false} UncompactedIsComplete(rules: Rules, node: Node, depth: nat, path: seq<nat>, w: Walked)
    requires !rules.compact && !Walk(rules, node, depth, path, w).truncated
    ensures !w.truncated && GrewBy(w, Walk(rules, node, depth, path, w), Shown(rules, node, path))
    decreases node, 1, 0
  {
    if ShouldElide(rules, node) {
      if !SuppressChildren(node) {
        UncompactedBelow(rules, node, 0, depth, path, w);
      }
    } else {
      var shown := Show(rules, node, depth, path, w);
      var one := [Place(node, path)];
      assert one[1..] == [];
      assert GrewBy(w, shown, one);
      if Descends(rules, node) {
        UncompactedBelow(rules, node, 0, depth + 1, path, shown);
        GrewFurther(w, shown, Walk(rules, node, depth, path, w), one, ShownBelow(rules, node, 0, path));
      } else {
        assert one + [] == one;
      }
    }
  }

  lemma {:induction false} UncompactedBelow(rules: Rules, node: Node, i: nat, depth: nat, path: seq<nat>, w: Walked)
    requires i <= |node.children| && !rules.compact && !WalkChildren(rules, node, i, depth, path, w).truncated
    ensures !w.truncated && GrewBy(w, WalkChildren(rules, node, i, depth, path, w), ShownBelow(rules, node, i, path))
    decreases node, 0, |node.children| - i
  {
    if i < |node.children| {
      var r := WalkChildren(rules, node, i, depth, path, w);
      if node.children[i].Some? {
        var child := node.children[i].value;
        var m := Walk(rules, child, depth, path + [i], w);
        UncompactedBelow(rules, node, i + 1, depth, path, m);
        UncompactedIsComplete(rules, child, depth, path + [i], w);
        GrewFurther(w, m, r, Shown(rules, child, path + [i]), ShownBelow(rules, node, i + 1, path));
      } else {
        assert r == WalkChildren(rules, node, i + 1, depth, path, w);
        UncompactedBelow(rules, node, i + 1, depth, path, w);
        assert [] + ShownBelow(rules, node, i + 1, path) == ShownBelow(rules, node, i + 1, path);
        assert ShownBelow(rules, node, i, path) == ShownBelow(rules, node, i + 1, path);
      }
    } else {
      assert w.out.records + [] == w.out.records;
    }
  }
}
