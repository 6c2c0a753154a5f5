/** Reading all automation runs page by page: a page whose reply would be too large is asked
    for again at half the size, while new runs may arrive between the calls. */
module RunsPaging {
  import opened Collations
  import opened Numbers
  import opened Options
  import opened Seqs

  const AUTOMATION_RUNS_PAGE_SIZE: nat := 25
  const MAX_PAGE_SIZE: nat := 100

  datatype Run = Run(createdAt: int, id: string)

  /** A keyset cursor names the last run seen; older hosts gave offsets. */
  datatype Cursor = Key(createdAt: int, id: string) | Offset(offset: nat)

  datatype Reply = Page(runs: seq<Run>, next: Option<Cursor>) | TooLarge | Failed

  datatype Result = Ok(runs: seq<Run>) | Error(reply: Reply)

  // The host's answer to the n-th call of a session, for a limit and a cursor.
  type Rpc = (nat, nat, Option<Cursor>) -> Reply

  // ---------------------------------------------------------------- the client

  /** How often a limit can be halved before it is 1. */
  function Log2(n: nat): nat {
    if n <= 1 then 0 else 1 + Log2(n / 2)
  }

  datatype Read = Read(reply: Reply, limit: nat, calls: nat)

  /** The first reply that is not too large, halving the limit; or the one at limit 1. */
  function Shrink(rpc: Rpc, calls: nat, limit: nat, cursor: Option<Cursor>): (r: Read)
    ensures r.limit <= limit && r.calls > calls && (limit >= 1 ==> r.limit >= 1)
    ensures r.reply == rpc(r.calls - 1, r.limit, cursor)
    ensures r.reply.TooLarge? ==> r.limit <= 1
    decreases limit
  {
    var reply := rpc(calls, limit, cursor);
    if reply.TooLarge? && limit > 1 then Shrink(rpc, calls + 1, limit / 2, cursor)
    else Read(reply, limit, calls + 1)
  }

  lemma ShrinkOnce(rpc: Rpc, calls: nat, limit: nat, cursor: Option<Cursor>)
    ensures var reply := rpc(calls, limit, cursor);
            Shrink(rpc, calls, limit, cursor) ==
              if reply.TooLarge? && limit > 1 then Shrink(rpc, calls + 1, limit / 2, cursor)
              else Read(reply, limit, calls + 1)
  {}

  /** One page costs at most one call more than the halvings of its limit. */
  lemma {:induction false} CallsAreHalvings(rpc: Rpc, calls: nat, limit: nat, cursor: Option<Cursor>)
    ensures var r := Shrink(rpc, calls, limit, cursor); r.calls - calls <= Log2(limit) - Log2(r.limit) + 1
    decreases limit
  {
    var reply := rpc(calls, limit, cursor);
    if reply.TooLarge? && limit > 1 {
      CallsAreHalvings(rpc, calls + 1, limit / 2, cursor);
    }
  }

  method ReadShrinkingPage(rpc: Rpc, calls: nat, limit: nat, cursor: Option<Cursor>) returns (r: Read)
    ensures r == Shrink(rpc, calls, limit, cursor)
  {
    var l, n := limit, calls;
    ghost var result := Shrink(rpc, calls, limit, cursor);
    while true
      invariant result == Shrink(rpc, n, l, cursor)
      decreases l
    {
      ShrinkOnce(rpc, n, l, cursor);
      var reply := rpc(n, l, cursor);
      n := n + 1;
      if !reply.TooLarge? || l <= 1 { return Read(reply, l, n); }
      l := l / 2;
    }
  }

  /** The host only ever hands out cursors from a finite set. */
  ghost predicate Bounded(rpc: Rpc, cursors: set<Cursor>) {
    forall n: nat, limit: nat, cursor: Option<Cursor> ::
      var reply := rpc(n, limit, cursor);
      reply.Page? && reply.next.Some? ==> reply.next.value in cursors
  }

  /** Where a session stands: what the next call is, and what has been read. */
  datatype Session = Session(calls: nat, limit: nat, cursor: Option<Cursor>, seen: set<Cursor>, runs: seq<Run>)

  const START: Session := Session(0, AUTOMATION_RUNS_PAGE_SIZE, None, {}, [])

  /** The session after a page that has a next one. */
  function Advance(s: Session, r: Read): Session
    requires r.reply.Page? && r.reply.next.Some?
  {
    Session(r.calls, r.limit, r.reply.next, s.seen + {r.reply.next.value}, s.runs + r.reply.runs)
  }

  /** Pages until there is no next cursor, or one comes back. The measure is the cursors not
      yet seen, so the loop ends against any host with finitely many of them. */
  ghost function ReadOn(rpc: Rpc, cursors: set<Cursor>, s: Session): (Result, Session)
    requires Bounded(rpc, cursors)
    decreases cursors - s.seen
  {
    var r := Shrink(rpc, s.calls, s.limit, s.cursor);
    if !r.reply.Page? then (Error(r.reply), s.(calls := r.calls, limit := r.limit))
    else if r.reply.next.None? || r.reply.next.value in s.seen then
      (Ok(s.runs + r.reply.runs), s.(calls := r.calls, limit := r.limit))
    else ReadOn(rpc, cursors, Advance(s, r))
  }

  method ReadAllAutomationRuns(rpc: Rpc, ghost cursors: set<Cursor>) returns (result: Result, calls: nat, pages: nat)
    requires Bounded(rpc, cursors)
    ensures result == ReadOn(rpc, cursors, START).0
    ensures calls <= pages + Log2(AUTOMATION_RUNS_PAGE_SIZE)
  {
    var runs: seq<Run> := [];
    var seenCursors: set<Cursor> := {};
    var cursor: Option<Cursor> := None;
    var limit := AUTOMATION_RUNS_PAGE_SIZE;
    calls, pages := 0, 0;
    while true
      invariant ReadOn(rpc, cursors, START).0 == ReadOn(rpc, cursors, Session(calls, limit, cursor, seenCursors, runs)).0
      invariant calls + Log2(limit) <= pages + Log2(AUTOMATION_RUNS_PAGE_SIZE)
      decreases cursors - seenCursors
    {
      var read := ReadShrinkingPage(rpc, calls, limit, cursor);
      CallsAreHalvings(rpc, calls, limit, cursor);
      limit, calls, pages := read.limit, read.calls, pages + 1;
      if !read.reply.Page? { return Error(read.reply), calls, pages; }
      runs := runs + read.reply.runs;
      var next := read.reply.next;
      if next.None? || next.value in seenCursors { return Ok(runs), calls, pages; }
      assert next.value in cursors;
      seenCursors := seenCursors + {next.value};
      cursor := next;
    }
  }

  /** At most four replies of a whole session are too large: calls are pages plus halvings. */
  lemma HalvingsOfAPage()
    ensures Log2(AUTOMATION_RUNS_PAGE_SIZE) == 4
  {
    assert Log2(25) == 1 + Log2(12);
    assert Log2(12) == 1 + Log2(6);
    assert Log2(6) == 1 + Log2(3);
  }

  // ---------------------------------------------------------------- the host

  /** Where the run a cursor names stands, or the end. */
  function FindBoundary(runs: seq<Run>, createdAt: int, id: string): (k: nat)
    ensures k <= |runs|
    ensures k < |runs| ==> runs[k] == Run(createdAt, id)
    ensures forall j | 0 <= j < k :: runs[j] != Run(createdAt, id)
  {
    if runs == [] || runs[0] == Run(createdAt, id) then 0 else 1 + FindBoundary(runs[1..], createdAt, id)
  }

  /** Newest first, ties by id: negative when the key stands before the run. */
  function CompareNewestFirst(collate: Collation, createdAt: int, id: string, run: Run): int {
    if run.createdAt != createdAt then run.createdAt - createdAt else collate(id, run.id)
  }

  /** The first run after the key, or the end. */
  function FindOlder(collate: Collation, runs: seq<Run>, createdAt: int, id: string): (k: nat)
    ensures k <= |runs|
  {
    if runs == [] || CompareNewestFirst(collate, createdAt, id, runs[0]) < 0 then 0
    else 1 + FindOlder(collate, runs[1..], createdAt, id)
  }

  function PageStart(collate: Collation, runs: seq<Run>, cursor: Option<Cursor>): (k: nat)
    ensures k <= |runs|
  {
    match cursor
    case None => 0
    case Some(Offset(offset)) => Min(offset, |runs|)
    case Some(Key(createdAt, id)) =>
      var boundary := FindBoundary(runs, createdAt, id);
      if boundary < |runs| then boundary + 1 else FindOlder(collate, runs, createdAt, id)
  }

  function BoundedLimit(limit: nat): nat {
    Min(if limit < 1 then 1 else limit, MAX_PAGE_SIZE)
  }

  function Paginate(collate: Collation, runs: seq<Run>, limit: nat, cursor: Option<Cursor>): (r: Reply)
    ensures r.Page?
  {
    PageOf(runs, PageStart(collate, runs, cursor), limit)
  }

  function PageOf(runs: seq<Run>, start: nat, limit: nat): (r: Reply)
    requires start <= |runs|
    ensures r.Page?
  {
    var end := Min(start + BoundedLimit(limit), |runs|);
    var page := runs[start..end];
    Page(page, if page != [] && end < |runs| then Some(KeyOf(page[|page| - 1])) else None)
  }

  function KeyOf(run: Run): Cursor {
    Key(run.createdAt, run.id)
  }

  /** All runs there will be, newest first; at the n-th call those from arrived(n) on exist.
      A reply must fit, and no page of at most one run fails to. */
  datatype Host = Host(all: seq<Run>, arrived: nat -> nat, fits: seq<Run> -> bool, collate: Collation)

  ghost predicate Sound(h: Host) {
    AllDifferent(h.all) && OnlyArrivals(h) && OneAlwaysFits(h)
  }

  ghost predicate AllDifferent(runs: seq<Run>) {
    forall i, j | 0 <= i < j < |runs| :: runs[i] != runs[j]
  }

  ghost predicate OnlyArrivals(h: Host) {
    && (forall n :: h.arrived(n) <= |h.all|)
    && (forall m, n | m <= n :: h.arrived(n) <= h.arrived(m))
  }

  ghost predicate OneAlwaysFits(h: Host) {
    forall page {:trigger h.fits(page)} | |page| <= 1 :: h.fits(page)
  }

  function Answer(h: Host, n: nat, limit: nat, cursor: Option<Cursor>): Reply
  {
    var from := Min(h.arrived(n), |h.all|);
    var reply := Paginate(h.collate, h.all[from..], limit, cursor);
    if h.fits(reply.runs) then reply else TooLarge
  }

  function RpcOf(h: Host): Rpc {
    (n: nat, limit: nat, cursor: Option<Cursor>) => Answer(h, n, limit, cursor)
  }

  function Keys(runs: seq<Run>): set<Cursor> {
    set run | run in runs :: KeyOf(run)
  }

  lemma HostIsBounded(h: Host)
    ensures Bounded(RpcOf(h), Keys(h.all))
  {
    forall n: nat, limit: nat, cursor: Option<Cursor>
      ensures var reply := RpcOf(h)(n, limit, cursor);
              reply.Page? && reply.next.Some? ==> reply.next.value in Keys(h.all)
    {
      var runs := h.all[Min(h.arrived(n), |h.all|)..];
      var reply := Paginate(h.collate, runs, limit, cursor);
      if reply.next.Some? {
        var last := reply.runs[|reply.runs| - 1];
        assert last in runs && last in h.all;
      }
    }
  }

  lemma PageOfSuffix(all: seq<Run>, from: nat, k: nat, limit: nat)
    requires from <= k <= |all|
    ensures PageOf(all[from..], k - from, limit) == PageOf(all, k, limit)
  {
    var end := Min(k + BoundedLimit(limit), |all|);
    assert all[from..][k - from..end - from] == all[k..end];
  }

  /** With k runs behind the cursor, a page is the next few runs of the whole list, whatever
      has arrived in front meanwhile. */
  lemma BoundaryAt(h: Host, from: nat, k: nat)
    requires AllDifferent(h.all) && from < k <= |h.all|
    ensures PageStart(h.collate, h.all[from..], Some(KeyOf(h.all[k - 1]))) == k - from
  {
    var runs, last := h.all[from..], h.all[k - 1];
    var boundary := FindBoundary(runs, last.createdAt, last.id);
    assert runs[k - 1 - from] == last;
    forall j | 0 <= j < k - 1 - from ensures runs[j] != last {
      assert runs[j] == h.all[from + j];
    }
  }

  /** A page from run k on, at some limit that fits. */
  ghost predicate ReadsFrom(h: Host, k: nat, limit: nat, r: Read) {
    1 <= r.limit <= limit && k <= |h.all| && r.reply == PageOf(h.all, k, r.limit)
  }

  /** At limit 1 a page always fits. */
  lemma OneFits(h: Host, k: nat)
    requires OneAlwaysFits(h) && k <= |h.all|
    ensures h.fits(PageOf(h.all, k, 1).runs)
  {}

  /** The page from run k on, if it fits. */
  function Offered(h: Host, k: nat, limit: nat): Reply
    requires k <= |h.all|
  {
    var page := PageOf(h.all, k, limit);
    if h.fits(page.runs) then page else TooLarge
  }

  lemma AnswerAt(h: Host, n: nat, limit: nat, k: nat)
    requires AllDifferent(h.all) && h.arrived(n) < k <= |h.all|
    ensures Answer(h, n, limit, Some(KeyOf(h.all[k - 1]))) == Offered(h, k, limit)
  {
    var from := h.arrived(n);
    BoundaryAt(h, from, k);
    PageOfSuffix(h.all, from, k, limit);
  }

  lemma AnswerFirst(h: Host, n: nat, limit: nat)
    requires h.arrived(n) <= |h.all|
    ensures Answer(h, n, limit, None) == Offered(h, h.arrived(n), limit)
  {
    PageOfSuffix(h.all, h.arrived(n), h.arrived(n), limit);
  }

  lemma OfferedOrAtOne(h: Host, k: nat, limit: nat)
    requires OneAlwaysFits(h) && k <= |h.all|
    requires limit >= 1 && (Offered(h, k, limit).TooLarge? ==> limit <= 1)
    ensures Offered(h, k, limit) == PageOf(h.all, k, limit)
  {
    if limit == 1 {
      OneFits(h, k);
    }
  }

  /** What the shrinking ends with is the host's answer to its last call. */
  lemma ShrinkIsAnswered(h: Host, calls: nat, limit: nat, cursor: Option<Cursor>)
    ensures var r := Shrink(RpcOf(h), calls, limit, cursor);
            r.reply == Answer(h, r.calls - 1, r.limit, cursor)
  {}

  /** A page behind a cursor: whatever arrives meanwhile, it starts right behind. */
  lemma ShrinkAt(h: Host, calls: nat, limit: nat, k: nat)
    requires Sound(h) && limit >= 1 && h.arrived(calls) < k <= |h.all|
    ensures ReadsFrom(h, k, limit, Shrink(RpcOf(h), calls, limit, Some(KeyOf(h.all[k - 1]))))
  {
    var cursor := Some(KeyOf(h.all[k - 1]));
    var r := Shrink(RpcOf(h), calls, limit, cursor);
    ShrinkIsAnswered(h, calls, limit, cursor);
    assert h.arrived(r.calls - 1) <= h.arrived(calls);
    AnswerAt(h, r.calls - 1, r.limit, k);
    OfferedOrAtOne(h, k, r.limit);
  }

  /** The first page starts at what had arrived when its last call was made. */
  lemma ShrinkFirst(h: Host, calls: nat, limit: nat)
    requires Sound(h) && limit >= 1
    ensures var r := Shrink(RpcOf(h), calls, limit, None);
            ReadsFrom(h, h.arrived(r.calls - 1), limit, r)
  {
    var r := Shrink(RpcOf(h), calls, limit, None);
    ShrinkIsAnswered(h, calls, limit, None);
    AnswerFirst(h, r.calls - 1, r.limit);
    OfferedOrAtOne(h, h.arrived(r.calls - 1), r.limit);
  }

  /** The session has read the runs from `from` to k and goes on behind k. */
  ghost predicate Reading(h: Host, s: Session, from: nat, k: nat) {
    && s.limit >= 1 && from < k <= |h.all| && h.arrived(s.calls) <= from
    && s.runs == h.all[from..k]
    && s.cursor == Some(KeyOf(h.all[k - 1]))
    && s.seen <= Keys(h.all[..k])
  }

  lemma KeyIsNew(h: Host, k: nat, end: nat)
    requires AllDifferent(h.all) && k < end <= |h.all|
    ensures KeyOf(h.all[end - 1]) !in Keys(h.all[..k])
  {
    forall run | run in h.all[..k] ensures KeyOf(run) != KeyOf(h.all[end - 1]) {
      var j :| 0 <= j < k && h.all[j] == run;
      assert run != h.all[end - 1];
    }
  }

  /** What the loop makes of one page. */
  lemma ReadOnOnce(rpc: Rpc, cursors: set<Cursor>, s: Session, r: Read)
    requires Bounded(rpc, cursors) && r == Shrink(rpc, s.calls, s.limit, s.cursor) && r.reply.Page?
    ensures ReadOn(rpc, cursors, s).0 ==
              if r.reply.next.None? || r.reply.next.value in s.seen then Ok(s.runs + r.reply.runs)
              else ReadOn(rpc, cursors, Advance(s, r)).0
  {}

  /** A page behind k: the session goes on, or it has read everything. */
  lemma PageBehind(h: Host, s: Session, from: nat, k: nat, r: Read)
    requires Sound(h) && Reading(h, s, from, k) && r == Shrink(RpcOf(h), s.calls, s.limit, s.cursor)
    ensures ReadsFrom(h, k, s.limit, r) && s.calls <= r.calls
  {
    ShrinkAt(h, s.calls, s.limit, k);
  }

  lemma {:induction false} ReadOnReadsAll(h: Host, s: Session, from: nat, k: nat)
    requires Sound(h) && Reading(h, s, from, k) && Bounded(RpcOf(h), Keys(h.all))
    ensures ReadOn(RpcOf(h), Keys(h.all), s).0 == Ok(h.all[from..])
    decreases |h.all| - k
  {
    var r := Shrink(RpcOf(h), s.calls, s.limit, s.cursor);
    PageBehind(h, s, from, k, r);
    ReadOnOnce(RpcOf(h), Keys(h.all), s, r);
    PageParts(h, from, k, r.limit);
    var end := Min(k + BoundedLimit(r.limit), |h.all|);
    if k < end < |h.all| {
      KeyIsNew(h, k, end);
      StillReading(h, s, from, k, r);
      ReadOnReadsAll(h, Advance(s, r), from, end);
    }
  }

  lemma StillReading(h: Host, s: Session, from: nat, k: nat, r: Read)
    requires OnlyArrivals(h) && Reading(h, s, from, k) && ReadsFrom(h, k, s.limit, r) && s.calls <= r.calls
    requires k < Min(k + BoundedLimit(r.limit), |h.all|) < |h.all|
    ensures r.reply.next.Some? && Reading(h, Advance(s, r), from, Min(k + BoundedLimit(r.limit), |h.all|))
  {
    var end := Min(k + BoundedLimit(r.limit), |h.all|);
    PageParts(h, from, k, r.limit);
    MoreKeys(h, k, end, s.seen);
    assert h.arrived(r.calls) <= h.arrived(s.calls);
  }

  /** What a page from k on adds, and whether there is a next one. */
  lemma PageParts(h: Host, from: nat, k: nat, limit: nat)
    requires from <= k <= |h.all| && limit >= 1
    ensures var end := Min(k + BoundedLimit(limit), |h.all|);
            var page := PageOf(h.all, k, limit);
            && h.all[from..k] + page.runs == h.all[from..end]
            && page.next == (if k < end < |h.all| then Some(KeyOf(h.all[end - 1])) else None)
            && (!(k < end < |h.all|) ==> h.all[from..end] == h.all[from..])
  {}

  lemma MoreKeys(h: Host, k: nat, end: nat, seen: set<Cursor>)
    requires k < end <= |h.all| && seen <= Keys(h.all[..k])
    ensures seen + {KeyOf(h.all[end - 1])} <= Keys(h.all[..end])
  {
    assert h.all[end - 1] in h.all[..end];
    forall c | c in seen ensures c in Keys(h.all[..end]) {
      var run :| run in h.all[..k] && KeyOf(run) == c;
      assert run in h.all[..end];
    }
  }

  /** The first page, when more is to come. */
  lemma FirstPage(h: Host, r: Read, from: nat, end: nat)
    requires OnlyArrivals(h) && r.calls >= 1 && from == h.arrived(r.calls - 1)
    requires ReadsFrom(h, from, AUTOMATION_RUNS_PAGE_SIZE, r)
    requires end == Min(from + BoundedLimit(r.limit), |h.all|) && from < end < |h.all|
    ensures r.reply.next.Some? && Reading(h, Advance(START, r), from, end)
  {
    PageParts(h, from, from, r.limit);
    MoreKeys(h, from, end, {});
    assert h.arrived(r.calls) <= from;
    Nothing(h.all[from..end]);
  }

  /** A session read from its first page on. */
  lemma FirstPageReadsAll(h: Host, r: Read)
    requires Sound(h) && Bounded(RpcOf(h), Keys(h.all))
    requires r == Shrink(RpcOf(h), 0, AUTOMATION_RUNS_PAGE_SIZE, None)
    ensures ReadOn(RpcOf(h), Keys(h.all), START).0 == Ok(h.all[h.arrived(r.calls - 1)..])
  {
    ShrinkFirst(h, 0, AUTOMATION_RUNS_PAGE_SIZE);
    var from := h.arrived(r.calls - 1);
    var end := Min(from + BoundedLimit(r.limit), |h.all|);
    PageParts(h, from, from, r.limit);
    ReadOnOnce(RpcOf(h), Keys(h.all), START, r);
    Nothing(r.reply.runs);
    if from < end < |h.all| {
      FirstPage(h, r, from, end);
      ReadOnReadsAll(h, Advance(START, r), from, end);
    }
  }

  /** Every run exactly once and in order: all the runs that existed when the first page was
      answered, however many replies are too large and however many runs arrive meanwhile. */
  lemma ReadsEveryRunOnce(h: Host)
    requires Sound(h)
    ensures Bounded(RpcOf(h), Keys(h.all))
    ensures var first := Shrink(RpcOf(h), 0, AUTOMATION_RUNS_PAGE_SIZE, None).calls - 1;
            && first <= 4
            && ReadOn(RpcOf(h), Keys(h.all), START).0 == Ok(h.all[h.arrived(first)..])
  {
    HostIsBounded(h);
    HalvingsOfAPage();
    CallsAreHalvings(RpcOf(h), 0, AUTOMATION_RUNS_PAGE_SIZE, None);
    FirstPageReadsAll(h, Shrink(RpcOf(h), 0, AUTOMATION_RUNS_PAGE_SIZE, None));
  }
}
