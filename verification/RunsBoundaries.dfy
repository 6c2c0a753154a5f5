/** Paging where things go wrong: pages that shrink, cursors whose run has been pruned, hosts that
    do not page, and calls that fail. */
module RunsBoundaries {
  import opened Collations
  import opened Numbers
  import opened Options
  import opened Seqs
  import opened RunsPaging

  // ---------------------------------------------------------------- shrinking

  function Halved(limit: nat, times: nat): nat {
    if times == 0 then limit else Halved(limit / 2, times - 1)
  }

  /** A page is asked for again exactly as long as the reply was too large and the limit above one,
      each time with half the limit; any other reply is final. */
  lemma {:induction false} ShrinksOnlyWhileTooLarge(rpc: Rpc, calls: nat, limit: nat, cursor: Option<Cursor>)
    ensures var r := Shrink(rpc, calls, limit, cursor);
            var again := r.calls - 1 - calls;
            && again >= 0 && r.limit == Halved(limit, again) && r.reply == rpc(calls + again, r.limit, cursor)
            && (!r.reply.TooLarge? || r.limit <= 1)
            && forall i: nat | i < again ::
                 Halved(limit, i) > 1 && rpc(calls + i, Halved(limit, i), cursor).TooLarge?
    decreases limit
  {
    ShrinkOnce(rpc, calls, limit, cursor);
    var reply := rpc(calls, limit, cursor);
    if reply.TooLarge? && limit > 1 {
      ShrinksOnlyWhileTooLarge(rpc, calls + 1, limit / 2, cursor);
      var r := Shrink(rpc, calls, limit, cursor);
      forall i: nat | i < r.calls - 1 - calls
        ensures Halved(limit, i) > 1 && rpc(calls + i, Halved(limit, i), cursor).TooLarge?
      {
        if i > 0 {
          assert Halved(limit, i) == Halved(limit / 2, i - 1) && calls + i == calls + 1 + (i - 1);
        }
      }
    }
  }

  // ---------------------------------------------------------------- failures

  /** A reply that ends a session badly: a failure, or one too large for a single run. */
  ghost predicate Ends(rpc: Rpc, reply: Reply) {
    exists n: nat, limit: nat, cursor: Option<Cursor> ::
      rpc(n, limit, cursor) == reply && (reply.Failed? || (reply.TooLarge? && limit <= 1))
  }

  /** A session fails only with a reply the host gave, and only for one of those two reasons. */
  lemma {:induction false} FailsOnlyWithTheHost(rpc: Rpc, cursors: set<Cursor>, s: Session)
    requires Bounded(rpc, cursors) && ReadOn(rpc, cursors, s).0.Error?
    ensures Ends(rpc, ReadOn(rpc, cursors, s).0.reply)
    decreases cursors - s.seen
  {
    var r := Shrink(rpc, s.calls, s.limit, s.cursor);
    assert rpc(r.calls - 1, r.limit, s.cursor) == r.reply;
    if r.reply.Page? {
      ReadOnOnce(rpc, cursors, s, r);
      FailsOnlyWithTheHost(rpc, cursors, Advance(s, r));
    }
  }

  /** An older host that ignores paging and answers with all runs and no cursor is read in one call. */
  lemma OlderHostIsReadAtOnce(rpc: Rpc, cursors: set<Cursor>, runs: seq<Run>)
    requires Bounded(rpc, cursors) && rpc(0, 25, None) == Page(runs, None)
    ensures ReadOn(rpc, cursors, START) == (Ok(runs), START.(calls := 1))
  {
    ShrinkOnce(rpc, 0, 25, None);
    Nothing(runs);
  }

  /** A host that repeats a cursor ends the session too, with what has been read. */
  lemma RepeatedCursorEnds(rpc: Rpc, cursors: set<Cursor>, s: Session)
    requires Bounded(rpc, cursors)
    requires var reply := rpc(s.calls, s.limit, s.cursor);
             reply.Page? && reply.next.Some? && reply.next.value in s.seen
    ensures ReadOn(rpc, cursors, s).0 == Ok(s.runs + rpc(s.calls, s.limit, s.cursor).runs)
  {
    ShrinkOnce(rpc, s.calls, s.limit, s.cursor);
  }

  // ---------------------------------------------------------------- pages and pruned cursors

  /** A page has as many runs as were asked for, but at least one and at most 100, if there are so
      many; and there is a next page exactly if something is left behind it. */
  lemma PagesAreBounded(collate: Collation, runs: seq<Run>, limit: nat, cursor: Option<Cursor>)
    ensures var start := PageStart(collate, runs, cursor);
            var page := Paginate(collate, runs, limit, cursor);
            && |page.runs| == Min(Max(1, Min(limit, 100)), |runs| - start)
            && page.runs == runs[start..start + |page.runs|]
            && (page.next.None? <==> start + |page.runs| == |runs|)
            && (page.next.Some? ==> page.runs != [] && page.next.value == KeyOf(page.runs[|page.runs| - 1]))
  {}

  /** The run stands behind the key: older, or as old and of a later id. */
  predicate Behind(collate: Collation, createdAt: int, id: string, run: Run) {
    run.createdAt < createdAt || (run.createdAt == createdAt && collate(id, run.id) < 0)
  }

  /** Comparing the other way round turns the sign, as it does in any locale. */
  ghost predicate TurnsSign(collate: Collation) {
    forall a, b :: collate(a, b) < 0 <==> collate(b, a) > 0
  }

  /** Newest first, and by id among the equally old. */
  ghost predicate NewestFirst(collate: Collation, runs: seq<Run>) {
    forall i, j | 0 <= i < j < |runs| :: CompareNewestFirst(collate, runs[i].createdAt, runs[i].id, runs[j]) <= 0
  }

  lemma {:induction false} OlderIsFirstBehind(collate: Collation, runs: seq<Run>, createdAt: int, id: string)
    ensures var k := FindOlder(collate, runs, createdAt, id);
            && (k < |runs| ==> Behind(collate, createdAt, id, runs[k]))
            && forall j | 0 <= j < k :: !Behind(collate, createdAt, id, runs[j])
    decreases |runs|
  {
    if runs != [] && !Behind(collate, createdAt, id, runs[0]) {
      OlderIsFirstBehind(collate, runs[1..], createdAt, id);
      var k := FindOlder(collate, runs[1..], createdAt, id);
      forall j | 0 <= j < k + 1 ensures !Behind(collate, createdAt, id, runs[j]) {
        if j > 0 {
          assert runs[j] == runs[1..][j - 1];
        }
      }
    }
  }

  lemma StrictThenNot(collate: Collation, x: string, y: string, z: string)
    requires IsCollation(collate) && TurnsSign(collate) && collate(x, y) < 0 && collate(y, z) <= 0
    ensures collate(x, z) < 0
  {
    assert collate(y, x) > 0;
    assert collate(z, x) <= 0 ==> collate(y, x) <= 0;
    assert collate(x, z) < 0 <==> collate(z, x) > 0;
  }

  lemma BehindIsUpward(collate: Collation, createdAt: int, id: string, a: Run, b: Run)
    requires IsCollation(collate) && TurnsSign(collate)
    requires Behind(collate, createdAt, id, a) && CompareNewestFirst(collate, a.createdAt, a.id, b) <= 0
    ensures Behind(collate, createdAt, id, b)
  {
    if a.createdAt == b.createdAt == createdAt {
      StrictThenNot(collate, id, a.id, b.id);
    }
  }

  /** A cursor whose run has been pruned loses nothing: in a list ordered newest first, reading
      resumes at exactly the runs that stand behind the key, the equally old ones included. */
  lemma PrunedBoundaryLosesNothing(collate: Collation, runs: seq<Run>, createdAt: int, id: string, j: nat)
    requires IsCollation(collate) && TurnsSign(collate) && NewestFirst(collate, runs)
    requires Run(createdAt, id) !in runs && j < |runs|
    ensures j >= PageStart(collate, runs, Some(Key(createdAt, id))) <==> Behind(collate, createdAt, id, runs[j])
  {
    var k := FindOlder(collate, runs, createdAt, id);
    assert FindBoundary(runs, createdAt, id) == |runs|;
    OlderIsFirstBehind(collate, runs, createdAt, id);
    if j > k {
      BehindIsUpward(collate, createdAt, id, runs[k], runs[j]);
    }
  }
}
