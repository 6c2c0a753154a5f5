/** Rendered browser tabs: when a window shows ten tabs or more and knows which is active, the
    lines and records of the others give way to one summary line. */
module TabCompaction {
  import opened Options
  import opened Seqs

  const MIN_TABS: nat := 10

  /** What is kept of an element: which node it is, its number, where it is in the tree, and
      what it was; its value also with white space collapsed. */
  datatype Record = Record(
    id: nat, index: nat, path: seq<nat>, role: string, name: string, automationId: string, value: string,
    sanitized: string, selected: bool, actions: seq<string>)

  /** A rendered line: an element's, saying whether it reads as a tab and as selected, or the
      summary of omitted tabs. */
  datatype Line = Element(depth: nat, index: nat, tab: bool, marked: bool) | Omitted(depth: nat, count: nat)

  /** What has been rendered so far. */
  datatype Rendered = Rendered(records: seq<Record>, lines: seq<Line>)

  predicate IsDirectTab(line: Line, depth: nat) {
    line.Element? && line.depth == depth && line.tab
  }

  /** The last record of a number wins, as in a dictionary built in order. */
  function RecordOf(records: seq<Record>, index: nat): Option<Record> {
    if records == [] then None
    else if records[|records| - 1].index == index then Some(records[|records| - 1])
    else RecordOf(records[..|records| - 1], index)
  }

  predicate IsActive(line: Line, records: seq<Record>)
    requires line.Element?
  {
    || line.marked
    || (var record := RecordOf(records, line.index);
        record.Some? && (record.value.selected || record.value.sanitized == "1"))
  }

  /** A tab line that goes. */
  predicate Goes(line: Line, depth: nat, records: seq<Record>) {
    IsDirectTab(line, depth) && !IsActive(line, records)
  }

  /** The positions from `start` on that hold a tab line: all of them, ascending. */
  predicate AreTabs(lines: seq<Line>, start: nat, depth: nat, at: seq<nat>) {
    && (forall k | 0 <= k < |at| :: start <= at[k] < |lines| && IsDirectTab(lines[at[k]], depth))
    && (forall j, k | 0 <= j < k < |at| :: at[j] < at[k])
    && (forall i | start <= i < |lines| && IsDirectTab(lines[i], depth) :: i in at)
  }

  function TabLines(lines: seq<Line>, start: nat, depth: nat): (at: seq<nat>)
    requires start <= |lines|
    ensures AreTabs(lines, start, depth, at)
    decreases |lines| - start
  {
    if start == |lines| then []
    else
      var rest := TabLines(lines, start + 1, depth);
      if IsDirectTab(lines[start], depth) then [start] + rest else rest
  }

  /** The lines with those that go taken out. */
  function Kept(lines: seq<Line>, depth: nat, records: seq<Record>): seq<Line> {
    if lines == [] then []
    else
      var rest := Kept(lines[..|lines| - 1], depth, records);
      if Goes(lines[|lines| - 1], depth, records) then rest else rest + [lines[|lines| - 1]]
  }

  /** The numbers of the lines that go. */
  function Gone(lines: seq<Line>, depth: nat, records: seq<Record>): seq<nat> {
    if lines == [] then []
    else
      var rest := Gone(lines[..|lines| - 1], depth, records);
      if Goes(lines[|lines| - 1], depth, records) then rest + [lines[|lines| - 1].index] else rest
  }

  function Without(records: seq<Record>, gone: set<nat>): seq<Record> {
    if records == [] then []
    else
      var rest := Without(records[..|records| - 1], gone);
      if records[|records| - 1].index in gone then rest else rest + [records[|records| - 1]]
  }

  function ToSet(s: seq<nat>): set<nat> {
    set n | n in s
  }

  predicate SomeGo(lines: seq<Line>, depth: nat, records: seq<Record>, tabs: seq<nat>)
    requires forall k | 0 <= k < |tabs| :: tabs[k] < |lines|
  {
    exists k :: 0 <= k < |tabs| && Goes(lines[tabs[k]], depth, records)
  }

  predicate SomeStay(lines: seq<Line>, depth: nat, records: seq<Record>, tabs: seq<nat>)
    requires forall k | 0 <= k < |tabs| :: tabs[k] < |lines|
  {
    exists k :: 0 <= k < |tabs| && !Goes(lines[tabs[k]], depth, records)
  }

  /** Whether the tabs from `start` on are compacted: enough of them, one active, one not. */
  predicate Compacts(r: Rendered, start: nat, depth: nat)
    requires start <= |r.lines|
  {
    var tabs := TabLines(r.lines, start, depth);
    |tabs| >= MIN_TABS && SomeStay(r.lines, depth, r.records, tabs) && SomeGo(r.lines, depth, r.records, tabs)
  }

  function Compact(r: Rendered, start: nat, depth: nat): Rendered
    requires start <= |r.lines|
  {
    if !Compacts(r, start, depth) then r
    else
      var first := TabLines(r.lines, start, depth)[0];
      var tail := r.lines[first..];
      var gone := Gone(tail, depth, r.records);
      Rendered(Without(r.records, ToSet(gone)),
               r.lines[..first] + [Omitted(depth, |gone|)] + Kept(tail, depth, r.records))
  }

  // ---------------------------------------------------------------- the program's lists

  lemma {:induction false} KeptAppend(a: seq<Line>, b: seq<Line>, depth: nat, records: seq<Record>)
    ensures Kept(a + b, depth, records) == Kept(a, depth, records) + Kept(b, depth, records)
    ensures Gone(a + b, depth, records) == Gone(a, depth, records) + Gone(b, depth, records)
    decreases |b|
  {
    if b == [] {
      assert a + b == a;
    } else {
      FrontOfSum(a, b);
      KeptAppend(a, b[..|b| - 1], depth, records);
    }
  }

  lemma {:induction false} NothingGoes(lines: seq<Line>, depth: nat, records: seq<Record>)
    requires forall k | 0 <= k < |lines| :: !Goes(lines[k], depth, records)
    ensures Kept(lines, depth, records) == lines && Gone(lines, depth, records) == []
    decreases |lines|
  {
    if lines != [] {
      NothingGoes(lines[..|lines| - 1], depth, records);
    }
  }

  /** No tab line lies strictly between `at` and `cut`, so going on from one to the other only
      decides about the line at `at`. */
  lemma CutMovesLeft(was: seq<Line>, at: nat, cut: nat, depth: nat, records: seq<Record>)
    requires at < cut <= |was|
    requires forall i | at < i < cut :: !IsDirectTab(was[i], depth)
    ensures was[..cut] + Kept(was[cut..], depth, records)
         == was[..at] + [was[at]] + Kept(was[at + 1..], depth, records)
    ensures Kept(was[at..], depth, records)
         == (if Goes(was[at], depth, records) then [] else [was[at]]) + Kept(was[at + 1..], depth, records)
    ensures Gone(was[at..], depth, records)
         == (if Goes(was[at], depth, records) then [was[at].index] else []) + Gone(was[cut..], depth, records)
  {
    var between, rest := was[at + 1..cut], was[cut..];
    NothingGoes(between, depth, records);
    SplitTail(was, at + 1, cut);
    KeptAppend(between, rest, depth, records);
    Nothing(Gone(rest, depth, records));
    SplitTail(was, at, at + 1);
    OneLine(was[at], depth, records);
    KeptAppend([was[at]], was[at + 1..], depth, records);
    SplitHead(was, at, at + 1);
    SplitHead(was, at + 1, cut);
    Reassociate(was[..at] + [was[at]], between, Kept(rest, depth, records));
  }

  /** The loop's state once everything from `cut` on is decided. */
  ghost predicate Decided(
    was: seq<Line>, lines: seq<Line>, cut: nat, depth: nat, records: seq<Record>, omitted: set<nat>, count: nat)
  {
    && cut <= |was|
    && lines == was[..cut] + Kept(was[cut..], depth, records)
    && omitted == ToSet(Gone(was[cut..], depth, records))
    && count == |Gone(was[cut..], depth, records)|
  }

  lemma DecideOne(
    was: seq<Line>, lines: seq<Line>, at: nat, cut: nat, depth: nat, records: seq<Record>,
    omitted: set<nat>, count: nat)
    requires Decided(was, lines, cut, depth, records, omitted, count)
    requires at < cut && forall i | at < i < cut :: !IsDirectTab(was[i], depth)
    ensures at < |lines| && lines[at] == was[at]
    ensures Goes(was[at], depth, records) ==>
              Decided(was, lines[..at] + lines[at + 1..], at, depth, records, omitted + {was[at].index}, count + 1)
    ensures !Goes(was[at], depth, records) ==> Decided(was, lines, at, depth, records, omitted, count)
  {
    CutMovesLeft(was, at, cut, depth, records);
    var head, rest := was[..at], Kept(was[at + 1..], depth, records);
    Around(head, was[at], rest);
    if Goes(was[at], depth, records) {
      Nothing(rest);
      OneMoreNumber(was[at].index, Gone(was[cut..], depth, records));
    } else {
      Nothing(Gone(was[cut..], depth, records));
      Reassociate(head, [was[at]], rest);
    }
  }

  lemma Around(head: seq<Line>, line: Line, rest: seq<Line>)
    ensures var lines := head + [line] + rest;
            lines[|head|] == line && lines[..|head|] == head && lines[|head| + 1..] == rest
  {}

  lemma OneMoreNumber(n: nat, numbers: seq<nat>)
    ensures ToSet([n] + numbers) == ToSet(numbers) + {n} && |[n] + numbers| == |numbers| + 1
  {
    assert forall m :: m in [n] + numbers <==> m == n || m in numbers;
  }

  lemma NoTabsBetween(lines: seq<Line>, start: nat, depth: nat, tabs: seq<nat>, k: nat)
    requires start <= |lines| && AreTabs(lines, start, depth, tabs) && k < |tabs|
    ensures forall i | tabs[k] < i < (if k + 1 < |tabs| then tabs[k + 1] else |lines|) :: !IsDirectTab(lines[i], depth)
  {
    var end := if k + 1 < |tabs| then tabs[k + 1] else |lines|;
    forall i | tabs[k] < i < end ensures !IsDirectTab(lines[i], depth) {
      forall j | 0 <= j < |tabs| ensures tabs[j] != i {
        assert j <= k || j == k + 1 || j > k + 1;
      }
      assert i !in tabs;
    }
  }

  lemma {:induction false} GoneNothing(lines: seq<Line>, depth: nat, records: seq<Record>)
    ensures Gone(lines, depth, records) == [] <==> forall k | 0 <= k < |lines| :: !Goes(lines[k], depth, records)
    decreases |lines|
  {
    if lines != [] {
      GoneNothing(lines[..|lines| - 1], depth, records);
    }
  }

  /** What goes is found among the tab lines. */
  lemma TabsDecide(lines: seq<Line>, start: nat, depth: nat, records: seq<Record>, tabs: seq<nat>)
    requires start <= |lines| && AreTabs(lines, start, depth, tabs) && tabs != []
    ensures Gone(lines[tabs[0]..], depth, records) == [] <==> !SomeGo(lines, depth, records, tabs)
    ensures Gone(lines[tabs[0]..], depth, records) == [] ==>
              lines[..tabs[0]] + Kept(lines[tabs[0]..], depth, records) == lines
  {
    var tail := lines[tabs[0]..];
    GoneNothing(tail, depth, records);
    if Gone(tail, depth, records) == [] {
      NothingGoes(tail, depth, records);
      assert lines[..tabs[0]] + tail == lines;
      forall k | 0 <= k < |tabs| ensures !Goes(lines[tabs[k]], depth, records) {
        assert k > 0 ==> tabs[k] > tabs[0];
        assert tail[tabs[k] - tabs[0]] == lines[tabs[k]];
      }
    } else {
      var k :| 0 <= k < |tail| && Goes(tail[k], depth, records);
      TabThatGoes(lines, start, depth, records, tabs, tabs[0] + k);
    }
  }

  lemma TabThatGoes(lines: seq<Line>, start: nat, depth: nat, records: seq<Record>, tabs: seq<nat>, at: nat)
    requires start <= at < |lines| && AreTabs(lines, start, depth, tabs) && Goes(lines[at], depth, records)
    ensures SomeGo(lines, depth, records, tabs)
  {
    assert at in tabs;
    var j :| 0 <= j < |tabs| && tabs[j] == at;
  }

  lemma OneLine(line: Line, depth: nat, records: seq<Record>)
    ensures Kept([line], depth, records) == if Goes(line, depth, records) then [] else [line]
    ensures Gone([line], depth, records) == if Goes(line, depth, records) then [line.index] else []
  {
    assert [line][..0] == [];
  }

  method RemoveInactive(was: seq<Line>, records: seq<Record>, start: nat, depth: nat, tabs: seq<nat>, active: set<nat>)
    returns (lines: seq<Line>, omitted: set<nat>, count: nat)
    requires start <= |was| && AreTabs(was, start, depth, tabs) && tabs != []
    requires forall i | i in tabs :: i in active <==> !Goes(was[i], depth, records)
    ensures Decided(was, lines, tabs[0], depth, records, omitted, count)
  {
    lines, omitted, count := was, {}, 0;
    var k := |tabs|;
    ghost var cut := |was|;
    assert was[..cut] == was && was[cut..] == [];
    while k > 0
      invariant 0 <= k <= |tabs| && cut == (if k < |tabs| then tabs[k] else |was|)
      invariant Decided(was, lines, cut, depth, records, omitted, count)
    {
      k := k - 1;
      var at := tabs[k];
      NoTabsBetween(was, start, depth, tabs, k);
      DecideOne(was, lines, at, cut, depth, records, omitted, count);
      cut := at;
      assert at in tabs;
      if at in active { continue; }
      omitted := omitted + {lines[at].index};
      lines := lines[..at] + lines[at + 1..];
      count := count + 1;
    }
  }

  method FindActive(lines: seq<Line>, records: seq<Record>, depth: nat, tabs: seq<nat>) returns (active: set<nat>)
    requires forall i | i in tabs :: i < |lines| && IsDirectTab(lines[i], depth)
    ensures forall i :: i in active <==> i in tabs && !Goes(lines[i], depth, records)
  {
    active := {};
    for k := 0 to |tabs|
      invariant forall i :: i in active <==> i in tabs[..k] && i in tabs && !Goes(lines[i], depth, records)
    {
      assert tabs[k] in tabs;
      if IsActive(lines[tabs[k]], records) {
        active := active + {tabs[k]};
      }
    }
    assert tabs[..|tabs|] == tabs;
  }

  /** When the loop has decided every tab line, the result is the compaction. */
  lemma DecidedIsCompact(
    r: Rendered, lines: seq<Line>, start: nat, depth: nat, tabs: seq<nat>, omitted: set<nat>, count: nat)
    requires start <= |r.lines| && tabs == TabLines(r.lines, start, depth) && |tabs| >= MIN_TABS
    requires SomeStay(r.lines, depth, r.records, tabs)
    requires Decided(r.lines, lines, tabs[0], depth, r.records, omitted, count)
    ensures count == 0 ==> Compact(r, start, depth) == r
    ensures count > 0 ==> tabs[0] <= |lines|
    ensures count > 0 ==>
              Compact(r, start, depth) ==
                Rendered(Without(r.records, omitted), lines[..tabs[0]] + [Omitted(depth, count)] + lines[tabs[0]..])
  {
    TabsDecide(r.lines, start, depth, r.records, tabs);
    if count > 0 {
      assert lines[..tabs[0]] == r.lines[..tabs[0]];
      assert lines[tabs[0]..] == Kept(r.lines[tabs[0]..], depth, r.records);
    }
  }

  /** Records and lines as the program holds them: two lists changed in place. */
  class Rendering {
    var records: seq<Record>
    var lines: seq<Line>

    ghost function View(): Rendered
      reads this
    {
      Rendered(records, lines)
    }

    constructor ()
      ensures View() == Rendered([], [])
    {
      records, lines := [], [];
    }

    method CompactTabs(start: nat, depth: nat)
      requires start <= |lines|
      modifies this
      ensures View() == Compact(old(View()), start, depth)
    {
      var tabs := TabLines(lines, start, depth);
      if |tabs| < MIN_TABS { return; }
      var active := FindActive(lines, records, depth, tabs);
      if active == {} {
        assert forall k | 0 <= k < |tabs| :: tabs[k] in tabs && tabs[k] !in active;
        return;
      }
      assert SomeStay(lines, depth, records, tabs) by {
        var i :| i in active;
        var k :| 0 <= k < |tabs| && tabs[k] == i;
      }
      var shorter, omitted, count := RemoveInactive(lines, records, start, depth, tabs, active);
      DecidedIsCompact(View(), shorter, start, depth, tabs, omitted, count);
      if count <= 0 { return; }
      records := Without(records, omitted);
      lines := shorter[..tabs[0]] + [Omitted(depth, count)] + shorter[tabs[0]..];
    }
  }

  // ---------------------------------------------------------------- records and lines

  function Indexes(records: seq<Record>): seq<nat> {
    if records == [] then [] else Indexes(records[..|records| - 1]) + [records[|records| - 1].index]
  }

  function ElementIndexes(lines: seq<Line>): seq<nat> {
    if lines == [] then []
    else
      ElementIndexes(lines[..|lines| - 1])
      + (if lines[|lines| - 1].Element? then [lines[|lines| - 1].index] else [])
  }

  function FilterOut(s: seq<nat>, gone: set<nat>): seq<nat> {
    if s == [] then []
    else FilterOut(s[..|s| - 1], gone) + (if s[|s| - 1] in gone then [] else [s[|s| - 1]])
  }

  ghost predicate UniqueLines(lines: seq<Line>) {
    forall i, j | 0 <= i < j < |lines| && lines[i].Element? && lines[j].Element? :: lines[i].index != lines[j].index
  }

  /** Records and element lines are the same elements in the same order, no number twice. */
  ghost predicate OneToOne(r: Rendered) {
    Indexes(r.records) == ElementIndexes(r.lines) && UniqueLines(r.lines)
  }

  lemma {:induction false} WithoutIndexes(records: seq<Record>, gone: set<nat>)
    ensures Indexes(Without(records, gone)) == FilterOut(Indexes(records), gone)
    decreases |records|
  {
    if records != [] {
      var front, last := records[..|records| - 1], records[|records| - 1];
      WithoutIndexes(front, gone);
      var all := Indexes(records);
      assert all[..|all| - 1] == Indexes(front);
      if last.index !in gone {
        var kept := Without(records, gone);
        assert kept[..|kept| - 1] == Without(front, gone);
      }
    }
  }

  lemma {:induction false} FilterAppend(a: seq<nat>, b: seq<nat>, gone: set<nat>)
    ensures FilterOut(a + b, gone) == FilterOut(a, gone) + FilterOut(b, gone)
    decreases |b|
  {
    if b == [] {
      assert a + b == a;
    } else {
      FrontOfSum(a, b);
      FilterAppend(a, b[..|b| - 1], gone);
    }
  }

  lemma {:induction false} ElementAppend(a: seq<Line>, b: seq<Line>)
    ensures ElementIndexes(a + b) == ElementIndexes(a) + ElementIndexes(b)
    decreases |b|
  {
    if b == [] {
      assert a + b == a;
    } else {
      FrontOfSum(a, b);
      ElementAppend(a, b[..|b| - 1]);
    }
  }

  /** If the numbers in `gone` are those of the lines that go, filtering lines and filtering
      numbers agree. */
  lemma {:induction false} KeptIndexes(lines: seq<Line>, depth: nat, records: seq<Record>, gone: set<nat>)
    requires forall k | 0 <= k < |lines| && lines[k].Element? :: lines[k].index in gone <==> Goes(lines[k], depth, records)
    ensures ElementIndexes(Kept(lines, depth, records)) == FilterOut(ElementIndexes(lines), gone)
    decreases |lines|
  {
    if lines != [] {
      var front, last := lines[..|lines| - 1], lines[|lines| - 1];
      KeptIndexes(front, depth, records, gone);
      ElementAppend(Kept(front, depth, records), [last]);
      assert [last][..0] == [];
      var one := if last.Element? then [last.index] else [];
      FilterAppend(ElementIndexes(front), one, gone);
      assert one != [] ==> one[..0] == [];
    }
  }

  lemma {:induction false} StayIndexes(lines: seq<Line>, gone: set<nat>)
    requires forall k | 0 <= k < |lines| && lines[k].Element? :: lines[k].index !in gone
    ensures FilterOut(ElementIndexes(lines), gone) == ElementIndexes(lines)
    decreases |lines|
  {
    if lines != [] {
      var front, last := lines[..|lines| - 1], lines[|lines| - 1];
      StayIndexes(front, gone);
      var one := if last.Element? then [last.index] else [];
      FilterAppend(ElementIndexes(front), one, gone);
      assert one != [] ==> one[..0] == [];
    }
  }

  lemma {:induction false} GoneAre(lines: seq<Line>, depth: nat, records: seq<Record>, n: nat)
    ensures n in Gone(lines, depth, records)
       <==> exists k :: 0 <= k < |lines| && Goes(lines[k], depth, records) && lines[k].index == n
    decreases |lines|
  {
    if lines != [] {
      var front := lines[..|lines| - 1];
      GoneAre(front, depth, records, n);
      if k :| 0 <= k < |front| && Goes(front[k], depth, records) && front[k].index == n {
        assert lines[k] == front[k];
      }
      if k :| 0 <= k < |lines| && Goes(lines[k], depth, records) && lines[k].index == n {
        assert k < |front| ==> front[k] == lines[k];
      }
    }
  }

  lemma {:induction false} KeptUnique(lines: seq<Line>, depth: nat, records: seq<Record>)
    requires UniqueLines(lines)
    ensures UniqueLines(Kept(lines, depth, records))
    ensures forall line | line in Kept(lines, depth, records) :: line in lines && !Goes(line, depth, records)
    decreases |lines|
  {
    if lines != [] {
      var front, last := lines[..|lines| - 1], lines[|lines| - 1];
      KeptUnique(front, depth, records);
      var kept := Kept(front, depth, records);
      forall i | 0 <= i < |kept| && kept[i].Element? && last.Element? ensures kept[i].index != last.index {
        assert kept[i] in kept;
        var j :| 0 <= j < |front| && front[j] == kept[i];
        assert lines[j] == front[j];
      }
    }
  }

  /** Compaction drops whole elements, line and record together: what is left is again one
      record for every element line, in the same order, no number twice. */
  lemma CompactKeepsOneToOne(r: Rendered, start: nat, depth: nat)
    requires start <= |r.lines| && OneToOne(r)
    ensures OneToOne(Compact(r, start, depth))
  {
    if Compacts(r, start, depth) {
      CutKeepsOneToOne(r, TabLines(r.lines, start, depth)[0], depth);
    }
  }

  lemma CutKeepsOneToOne(r: Rendered, first: nat, depth: nat)
    requires first <= |r.lines| && OneToOne(r)
    ensures var head, tail := r.lines[..first], r.lines[first..];
            var gone := Gone(tail, depth, r.records);
            OneToOne(Rendered(Without(r.records, ToSet(gone)),
                              head + [Omitted(depth, |gone|)] + Kept(tail, depth, r.records)))
  {
    var head, tail := r.lines[..first], r.lines[first..];
    assert head + tail == r.lines;
    SplitNumbers(r.lines, first, depth, r.records);
    NumbersAfter(head, tail, depth, r.records);
    WithoutIndexes(r.records, ToSet(Gone(tail, depth, r.records)));
    CompactUnique(r, first, depth);
  }

  lemma NumbersAfter(head: seq<Line>, tail: seq<Line>, depth: nat, records: seq<Record>)
    requires var gone := ToSet(Gone(tail, depth, records));
             && (forall k | 0 <= k < |head| && head[k].Element? :: head[k].index !in gone)
             && (forall k | 0 <= k < |tail| && tail[k].Element? ::
                   tail[k].index in gone <==> Goes(tail[k], depth, records))
    ensures var gone := Gone(tail, depth, records);
            ElementIndexes(head + [Omitted(depth, |gone|)] + Kept(tail, depth, records))
              == FilterOut(ElementIndexes(head + tail), ToSet(gone))
  {
    var gone := ToSet(Gone(tail, depth, records));
    var kept := Kept(tail, depth, records);
    SummaryHasNoNumber(head, depth, |Gone(tail, depth, records)|, kept);
    assert FilterOut(ElementIndexes(head + tail), gone)
        == FilterOut(ElementIndexes(head), gone) + FilterOut(ElementIndexes(tail), gone) by {
      ElementAppend(head, tail);
      FilterAppend(ElementIndexes(head), ElementIndexes(tail), gone);
    }
    assert FilterOut(ElementIndexes(head), gone) == ElementIndexes(head) by { StayIndexes(head, gone); }
    assert ElementIndexes(kept) == FilterOut(ElementIndexes(tail), gone) by {
      KeptIndexes(tail, depth, records, gone);
    }
  }

  lemma SummaryHasNoNumber(head: seq<Line>, depth: nat, count: nat, kept: seq<Line>)
    ensures ElementIndexes(head + [Omitted(depth, count)] + kept) == ElementIndexes(head) + ElementIndexes(kept)
  {
    var summary := [Omitted(depth, count)];
    ElementAppend(head + summary, kept);
    ElementAppend(head, summary);
    assert ElementIndexes(summary) == [] by { assert summary[..0] == []; }
  }

  /** With unique numbers, `gone` names exactly the lines that go. */
  lemma SplitNumbers(lines: seq<Line>, first: nat, depth: nat, records: seq<Record>)
    requires first <= |lines| && UniqueLines(lines)
    ensures var gone := ToSet(Gone(lines[first..], depth, records));
            && (forall k | 0 <= k < first && lines[k].Element? :: lines[k].index !in gone)
            && (forall k | 0 <= k < |lines| - first && lines[first..][k].Element? ::
                  lines[first..][k].index in gone <==> Goes(lines[first..][k], depth, records))
  {
    var tail := lines[first..];
    forall k | 0 <= k < |lines| && lines[k].Element?
      ensures lines[k].index in Gone(tail, depth, records) <==> k >= first && Goes(lines[k], depth, records)
    {
      GoneAre(tail, depth, records, lines[k].index);
      if j :| 0 <= j < |tail| && Goes(tail[j], depth, records) && tail[j].index == lines[k].index {
        assert lines[first + j] == tail[j];
      }
      if k >= first {
        assert tail[k - first] == lines[k];
      }
    }
  }

  lemma CompactUnique(r: Rendered, first: nat, depth: nat)
    requires UniqueLines(r.lines) && first <= |r.lines|
    ensures var tail := r.lines[first..];
            UniqueLines(r.lines[..first] + [Omitted(depth, |Gone(tail, depth, r.records)|)] + Kept(tail, depth, r.records))
  {
    var head, tail := r.lines[..first], r.lines[first..];
    forall i, j | 0 <= i < j < |tail| && tail[i].Element? && tail[j].Element? ensures tail[i].index != tail[j].index {
      assert tail[i] == r.lines[first + i] && tail[j] == r.lines[first + j];
    }
    var kept := Kept(tail, depth, r.records);
    KeptUnique(tail, depth, r.records);
    forall i, j | 0 <= i < |head| && 0 <= j < |kept| && head[i].Element? && kept[j].Element?
      ensures head[i].index != kept[j].index
    {
      assert kept[j] in kept;
      var k :| 0 <= k < |tail| && tail[k] == kept[j];
      assert r.lines[first + k] == tail[k];
    }
  }

  /** Uniqueness is needed: an element that shares its number with a tab that goes loses its
      record and keeps its line. */
  lemma SharedNumberLosesRecord(r: Rendered, start: nat, depth: nat, i: nat, j: nat)
    requires start <= |r.lines| && Compacts(r, start, depth)
    requires i < TabLines(r.lines, start, depth)[0] <= j < |r.lines|
    requires r.lines[i].Element? && Goes(r.lines[j], depth, r.records) && r.lines[i].index == r.lines[j].index
    ensures var c := Compact(r, start, depth);
            i < |c.lines| && c.lines[i] == r.lines[i] && r.lines[i].index !in Indexes(c.records)
  {
    var first := TabLines(r.lines, start, depth)[0];
    var tail := r.lines[first..];
    assert tail[j - first] == r.lines[j];
    GoneAre(tail, depth, r.records, r.lines[j].index);
    WithoutIndexes(r.records, ToSet(Gone(tail, depth, r.records)));
    FilterOutDrops(Indexes(r.records), ToSet(Gone(tail, depth, r.records)), r.lines[j].index);
  }

  lemma {:induction false} FilterOutDrops(s: seq<nat>, gone: set<nat>, n: nat)
    requires n in gone
    ensures n !in FilterOut(s, gone)
    decreases |s|
  {
    if s != [] {
      FilterOutDrops(s[..|s| - 1], gone, n);
    }
  }

  // ---------------------------------------------------------------- numbering afterwards

  /** Numbers are positions, as the renderer gives them out. */
  predicate Numbered(records: seq<Record>) {
    forall k | 0 <= k < |records| :: records[k].index == k
  }

  lemma {:induction false} WithoutCounts(records: seq<Record>, gone: set<nat>)
    requires Numbered(records)
    ensures |Without(records, gone)| <= |records|
    ensures |Without(records, gone)| == |records| <==> forall k | 0 <= k < |records| :: k !in gone
    ensures forall r | r in Without(records, gone) :: r in records
    decreases |records|
  {
    if records != [] {
      WithoutCounts(records[..|records| - 1], gone);
    }
  }

  /** The renderer numbers its next element by the length of the shortened list. The kept
      numbers all lie below that, so that no later element can repeat one, exactly when
      nothing was kept after something that went. */
  lemma {:induction false} NextNumbersAreFree(records: seq<Record>, gone: set<nat>)
    requires Numbered(records)
    ensures (forall r | r in Without(records, gone) :: r.index < |Without(records, gone)|)
       <==> (forall a, b | 0 <= a < b < |records| && a in gone :: b in gone)
    decreases |records|
  {
    if records != [] {
      var n := |records| - 1;
      var front := records[..n];
      NextNumbersAreFree(front, gone);
      WithoutCounts(front, gone);
      var kept := Without(records, gone);
      if records[n].index in gone {
        assert kept == Without(front, gone);
      } else {
        assert kept == Without(front, gone) + [records[n]];
        assert records[n] in kept;
        if |Without(front, gone)| == n {
          forall r | r in kept ensures r.index < |kept| {
            if r in Without(front, gone) {
              var k :| 0 <= k < n && front[k] == r;
            }
          }
        }
      }
    }
  }
}
