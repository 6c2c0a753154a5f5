/** Which browser tabs are left out of a rendering, which lines and records that takes away, and
    when it happens at all. */
module OmittedTabs {
  import opened Options
  import opened Seqs
  import opened TabCompaction

  /** The k-th record is the last with this number. */
  ghost predicate LastNumbered(records: seq<Record>, n: nat, k: nat) {
    k < |records| && records[k].index == n && forall j | k < j < |records| :: records[j].index != n
  }

  lemma {:induction false} RecordOfIsLast(records: seq<Record>, n: nat, k: nat)
    requires LastNumbered(records, n, k)
    ensures RecordOf(records, n) == Some(records[k])
    decreases |records|
  {
    if k < |records| - 1 {
      RecordOfIsLast(records[..|records| - 1], n, k);
    }
  }

  lemma {:induction false} LastOfNumber(records: seq<Record>, n: nat) returns (k: nat)
    ensures RecordOf(records, n).Some? ==> LastNumbered(records, n, k)
    decreases |records|
  {
    k := 0;
    if records != [] {
      if records[|records| - 1].index == n {
        k := |records| - 1;
      } else {
        k := LastOfNumber(records[..|records| - 1], n);
      }
    }
  }

  /** A tab is active if its line says so, or if the last record of its number was selected or has
      the value 1. */
  lemma ActiveExactlyIf(line: Line, records: seq<Record>)
    requires line.Element?
    ensures IsActive(line, records) <==>
              line.marked
              || exists k: nat :: LastNumbered(records, line.index, k) && (records[k].selected || records[k].sanitized == "1")
  {
    var k := LastOfNumber(records, line.index);
    forall j: nat | LastNumbered(records, line.index, j) ensures RecordOf(records, line.index) == Some(records[j]) {
      RecordOfIsLast(records, line.index, j);
    }
  }

  // ---------------------------------------------------------------- when

  /** Where the tab lines of this depth are, from `start` on. */
  function TabSet(lines: seq<Line>, start: nat, depth: nat): set<nat> {
    set i: nat | start <= i < |lines| && lines[i].Element? && lines[i].depth == depth && lines[i].tab
  }

  lemma {:induction false} CountsOnce(at: seq<nat>)
    requires forall j, k | 0 <= j < k < |at| :: at[j] < at[k]
    ensures |ToSet(at)| == |at|
    decreases |at|
  {
    if at != [] {
      var front, last := at[..|at| - 1], at[|at| - 1];
      CountsOnce(front);
      assert last !in front;
      assert ToSet(at) == ToSet(front) + {last};
    }
  }

  /** Tabs are compacted exactly if there are ten or more, some active and some not. */
  lemma CompactsExactlyIf(r: Rendered, start: nat, depth: nat)
    requires start <= |r.lines|
    ensures Compacts(r, start, depth) <==>
              var tabs := TabSet(r.lines, start, depth);
              && |tabs| >= 10
              && (exists i :: i in tabs && IsActive(r.lines[i], r.records))
              && (exists i :: i in tabs && !IsActive(r.lines[i], r.records))
  {
    var at := TabLines(r.lines, start, depth);
    var tabs := TabSet(r.lines, start, depth);
    CountsOnce(at);
    assert ToSet(at) == tabs;
    forall i | i in tabs ensures exists k :: 0 <= k < |at| && at[k] == i {
      assert i in at;
    }
  }

  // ---------------------------------------------------------------- what is left

  /** `kept` is `was` without the positions in `gone`, in order; `at` says where each stood. */
  ghost predicate Picks<T>(was: seq<T>, gone: set<nat>, kept: seq<T>, at: seq<nat>) {
    && |at| == |kept|
    && (forall j, k | 0 <= j < k < |at| :: at[j] < at[k])
    && (forall k | 0 <= k < |at| :: at[k] < |was| && at[k] !in gone && kept[k] == was[at[k]])
    && (forall i: nat | i < |was| && i !in gone :: i in at)
  }

  lemma PickNone<T>(was: seq<T>, gone: set<nat>, kept: seq<T>, at: seq<nat>, x: T)
    requires Picks(was, gone, kept, at) && forall i | i in gone :: i < |was|
    ensures Picks(was + [x], gone + {|was|}, kept, at)
  {}

  lemma PickOne<T>(was: seq<T>, gone: set<nat>, kept: seq<T>, at: seq<nat>, x: T)
    requires Picks(was, gone, kept, at) && forall i | i in gone :: i < |was|
    ensures Picks(was + [x], gone, kept + [x], at + [|was|])
  {
    var all, where := was + [x], at + [|was|];
    forall i: nat | i < |all| && i !in gone ensures i in where {
      if i < |was| {
        assert i in at;
      } else {
        assert where[|at|] == i;
      }
    }
  }

  /** Where the lines are that go. */
  function GoneLines(lines: seq<Line>, depth: nat, records: seq<Record>): set<nat> {
    set i: nat | i < |lines| && lines[i].Element? && lines[i].depth == depth && lines[i].tab
                 && !IsActive(lines[i], records)
  }

  lemma {:induction false} KeptPicks(lines: seq<Line>, depth: nat, records: seq<Record>) returns (at: seq<nat>)
    ensures Picks(lines, GoneLines(lines, depth, records), Kept(lines, depth, records), at)
    ensures |Gone(lines, depth, records)| == |GoneLines(lines, depth, records)|
    decreases |lines|
  {
    at := [];
    if lines != [] {
      var front, last := lines[..|lines| - 1], lines[|lines| - 1];
      assert lines == front + [last];
      var before := GoneLines(front, depth, records);
      at := KeptPicks(front, depth, records);
      if Goes(last, depth, records) {
        assert GoneLines(lines, depth, records) == before + {|front|};
        PickNone(front, before, Kept(front, depth, records), at, last);
      } else {
        assert GoneLines(lines, depth, records) == before;
        PickOne(front, before, Kept(front, depth, records), at, last);
        at := at + [|front|];
      }
    }
  }

  function GoneRecords(records: seq<Record>, numbers: set<nat>): set<nat> {
    set i: nat | i < |records| && records[i].index in numbers
  }

  lemma {:induction false} WithoutPicks(records: seq<Record>, numbers: set<nat>) returns (at: seq<nat>)
    ensures Picks(records, GoneRecords(records, numbers), Without(records, numbers), at)
    decreases |records|
  {
    at := [];
    if records != [] {
      var front, last := records[..|records| - 1], records[|records| - 1];
      assert records == front + [last];
      var before := GoneRecords(front, numbers);
      at := WithoutPicks(front, numbers);
      if last.index in numbers {
        assert GoneRecords(records, numbers) == before + {|front|};
        PickNone(front, before, Without(front, numbers), at, last);
      } else {
        assert GoneRecords(records, numbers) == before;
        PickOne(front, before, Without(front, numbers), at, last);
        at := at + [|front|];
      }
    }
  }

  /** The least tab line, from which on lines are taken out. */
  ghost predicate FirstTab(lines: seq<Line>, start: nat, depth: nat, first: nat) {
    first in TabSet(lines, start, depth) && forall i | i in TabSet(lines, start, depth) :: first <= i
  }

  /** The numbers of the inactive tabs from `first` on. */
  ghost predicate AreGone(r: Rendered, first: nat, depth: nat, numbers: set<nat>)
    requires first <= |r.lines|
  {
    forall n :: n in numbers <==>
      exists i :: i in GoneLines(r.lines[first..], depth, r.records) && r.lines[first..][i].index == n
  }

  /** Compacting leaves all lines before the first tab, then one line that says how many tabs are
      left out, then the lines from the first tab on without the inactive tabs, in order; and the
      records, in order, without those whose number is that of such a tab. Otherwise nothing
      changes. */
  lemma CompactionIsExact(r: Rendered, start: nat, depth: nat)
    returns (first: nat, numbers: set<nat>, linesAt: seq<nat>, recordsAt: seq<nat>)
    requires start <= |r.lines|
    ensures first <= |r.lines|
    ensures !Compacts(r, start, depth) ==> Compact(r, start, depth) == r
    ensures Compacts(r, start, depth) ==>
              var c, gone := Compact(r, start, depth), GoneLines(r.lines[first..], depth, r.records);
              && FirstTab(r.lines, start, depth, first) && AreGone(r, first, depth, numbers)
              && first < |c.lines| && c.lines[..first] == r.lines[..first]
              && c.lines[first] == Omitted(depth, |gone|)
              && Picks(r.lines[first..], gone, c.lines[first + 1..], linesAt)
              && Picks(r.records, GoneRecords(r.records, numbers), c.records, recordsAt)
  {
    first, numbers, linesAt, recordsAt := 0, {}, [], [];
    if Compacts(r, start, depth) {
      var at := TabLines(r.lines, start, depth);
      first := at[0];
      FirstIsLeast(r.lines, start, depth, at);
      var tail := r.lines[first..];
      var gone := Gone(tail, depth, r.records);
      numbers := ToSet(gone);
      linesAt := KeptPicks(tail, depth, r.records);
      recordsAt := WithoutPicks(r.records, numbers);
      NumbersAreGone(r, first, depth);
      var c := Compact(r, start, depth);
      assert c.lines[first + 1..] == Kept(tail, depth, r.records);
    }
  }

  lemma FirstIsLeast(lines: seq<Line>, start: nat, depth: nat, at: seq<nat>)
    requires at != [] && AreTabs(lines, start, depth, at)
    ensures FirstTab(lines, start, depth, at[0])
  {
    forall i | i in TabSet(lines, start, depth) ensures at[0] <= i {
      var k :| 0 <= k < |at| && at[k] == i;
    }
  }

  lemma NumbersAreGone(r: Rendered, first: nat, depth: nat)
    requires first <= |r.lines|
    ensures AreGone(r, first, depth, ToSet(Gone(r.lines[first..], depth, r.records)))
  {
    var tail := r.lines[first..];
    forall n ensures n in Gone(tail, depth, r.records) <==>
        exists i :: i in GoneLines(tail, depth, r.records) && tail[i].index == n
    {
      GoneAre(tail, depth, r.records, n);
      if k :| 0 <= k < |tail| && Goes(tail[k], depth, r.records) && tail[k].index == n {
        assert k in GoneLines(tail, depth, r.records);
      }
    }
  }
}
