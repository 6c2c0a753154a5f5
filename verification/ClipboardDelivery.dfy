/** What the clipboard owner does for its readers: when a transfer is written, completed, timed
    out or given up, slot by slot, over a whole iteration and over a run. */
module ClipboardDelivery {
  import opened Numbers
  import opened WaylandClipboard

  // ---------------------------------------------------------------- one slot's turn

  /** From o to p the transfer of slot i was closed, and nothing else happened. */
  ghost predicate JustClosed(o: Owner, p: Owner, i: nat, closing: Closing)
    requires Occupied(o, i)
  {
    && |p.slots| == |o.slots| && p.slots[i].fd == NO_FD
    && (forall k | 0 <= k < |o.slots| && k != i :: p.slots[k] == o.slots[k])
    && p.open == o.open - {o.slots[i].fd}
    && p.closings == o.closings + [closing]
    && p.issued == o.issued && p.stopped == o.stopped
  }

  /** From o to p the reader of slot i came to hold `bytes`, and nothing else happened. */
  ghost predicate JustWritten(o: Owner, p: Owner, i: nat, bytes: seq<Byte>, deadline: int)
    requires Occupied(o, i) && o.slots[i].fd in o.open
  {
    var fd := o.slots[i].fd;
    && p.slots == o.slots[i := Slot(fd, |bytes|, deadline)]
    && p.open == o.open[fd := o.open[fd].(bytes := bytes)]
    && p.closings == o.closings && p.issued == o.issued && p.stopped == o.stopped
  }

  /** Late or deserted: the transfer is timed out exactly from its deadline on, dropped if its
      reader has gone before that, and left alone while it cannot be written. */
  lemma UnwrittenTurn(text: seq<Byte>, o: Owner, i: nat, revents: Revents, c: Check)
    requires Valid(text, o) && Occupied(o, i)
    requires c.now >= o.slots[i].deadline || revents.broken || !revents.writable
    ensures var p, t := CheckSlot(text, o, i, revents, c), o.open[o.slots[i].fd];
            if c.now >= o.slots[i].deadline then JustClosed(o, p, i, Closing(t, TimedOut))
            else if revents.broken then JustClosed(o, p, i, Closing(t, PeerGone))
            else p == o
  {}

  /** In time and writable: the reader gets what the write took of at most 65536 bytes of what is
      left. The transfer is complete exactly if that is the whole text, given up exactly on an
      error that will not pass, and otherwise goes on, with two more seconds if anything was
      taken. */
  lemma WrittenTurn(text: seq<Byte>, o: Owner, i: nat, c: Check)
    requires Valid(text, o) && Occupied(o, i) && c.now < o.slots[i].deadline
    ensures var Slot(fd, offset, deadline) := o.slots[i];
            var p, t := CheckSlot(text, o, i, Revents(false, true), c), o.open[fd];
            var sent := offset + Max(0, Min(c.count, Min(65536, |text| - offset)));
            if sent == |text| then JustClosed(o, p, i, Closing(t.(bytes := text), Completed))
            else if c.count < 0 && !c.transient then JustClosed(o, p, i, Closing(t, WriteFailed))
            else JustWritten(o, p, i, text[..sent], if sent > offset then c.after + 2000 else deadline)
  {
    var Slot(fd, offset, deadline) := o.slots[i];
    var sent := offset + Max(0, Min(c.count, Min(65536, |text| - offset)));
    assert o.open[fd].bytes == text[..offset];
    assert text[..offset] + text[offset..sent] == text[..sent];
    assert text[..|text|] == text;
    if sent == offset {
      assert o.slots[i := Slot(fd, offset, deadline)] == o.slots;
      assert o.open[fd := o.open[fd].(bytes := text[..sent])] == o.open;
    }
  }

  /** source_send: a descriptor that can be made non-blocking goes to the first free slot, from
      the start of the text and with two seconds; any other is closed at once, unread. */
  lemma AcceptTakesFirstFree(text: seq<Byte>, o: Owner, fd: int, settable: bool, now: int, i: nat)
    requires Valid(text, o) && 0 <= fd && fd !in o.open
    requires i <= 8 && (i < 8 ==> o.slots[i].fd == NO_FD)
    requires forall k | 0 <= k < i :: Occupied(o, k)
    ensures var p := Accept(o, fd, settable, now);
            p.issued == o.issued + 1 && p.stopped == o.stopped
            && if i < 8 && settable
               then p.slots == o.slots[i := Slot(fd, 0, now + 2000)]
                    && p.open == o.open[fd := Transfer(o.issued, i, [])] && p.closings == o.closings
               else p.slots == o.slots && p.open == o.open && |p.closings| == |o.closings| + 1
                    && p.closings[..|o.closings|] == o.closings
                    && p.closings[|o.closings|].ending == Refused
                    && p.closings[|o.closings|].transfer.bytes == []
  {
    var first := FirstFree(o.slots, 0);
    assert forall k | 0 <= k < i :: Occupied(o, k) && o.slots[k].fd != NO_FD;
    assert first == i;
  }

  // ---------------------------------------------------------------- one iteration

  /** Slot i and the transfer in it, the same in p as in o. */
  ghost predicate SameAt(o: Owner, p: Owner, i: nat)
    requires Occupied(o, i) && o.slots[i].fd in o.open
  {
    var fd := o.slots[i].fd;
    |p.slots| == |o.slots| && p.slots[i] == o.slots[i] && fd in p.open && p.open[fd] == o.open[fd]
  }

  /** Slot j stays as it is, the transfer in it too, no descriptor is added and no close taken back. */
  ghost predicate Keeps(o: Owner, p: Owner, j: nat)
    requires j < |o.slots|
  {
    && |p.slots| == |o.slots| && p.slots[j] == o.slots[j]
    && p.open.Keys <= o.open.Keys && o.closings <= p.closings
    && (o.slots[j].fd in o.open ==> o.slots[j].fd in p.open && p.open[o.slots[j].fd] == o.open[o.slots[j].fd])
  }

  lemma TurnKeepsOthers(text: seq<Byte>, o: Owner, i: nat, j: nat, revents: Revents, c: Check)
    requires Valid(text, o) && i < |o.slots| && j < |o.slots| && i != j
    ensures Keeps(o, CheckSlot(text, o, i, revents, c), j)
  {
    if Occupied(o, i) {
      if c.now >= o.slots[i].deadline || revents.broken || !revents.writable {
        UnwrittenTurn(text, o, i, revents, c);
      } else {
        assert revents == Revents(false, true);
        WrittenTurn(text, o, i, c);
      }
      assert Occupied(o, j) ==> o.slots[j].fd != o.slots[i].fd;
    }
  }

  lemma {:induction false} LaterTurnsKeep(
    text: seq<Byte>, o: Owner, i: nat, j: nat, polled: seq<Slot>, revents: seq<Revents>, checks: seq<Check>)
    requires Valid(text, o) && j < i && j < |o.slots|
    ensures Keeps(o, CheckAll(text, o, i, polled, revents, checks), j)
    decreases |o.slots| - i
  {
    if i < |o.slots| {
      var a, c := Answer(polled, revents, i), CheckAt(checks, i);
      CheckKeepsValid(text, o, i, a, c);
      TurnKeepsOthers(text, o, i, j, a, c);
      LaterTurnsKeep(text, CheckSlot(text, o, i, a, c), i + 1, j, polled, revents, checks);
    }
  }

  /** The write loop comes to slot j with its transfer as it was. */
  lemma {:induction false} LoopReaches(
    text: seq<Byte>, o: Owner, i: nat, j: nat, polled: seq<Slot>, revents: seq<Revents>, checks: seq<Check>)
    returns (m: Owner)
    requires Valid(text, o) && i <= j && Occupied(o, j)
    ensures Valid(text, m) && SameAt(o, m, j) && o.closings <= m.closings
    ensures CheckAll(text, o, i, polled, revents, checks) == CheckAll(text, m, j, polled, revents, checks)
    decreases j - i
  {
    if i == j {
      m := o;
    } else {
      var a, c := Answer(polled, revents, i), CheckAt(checks, i);
      CheckKeepsValid(text, o, i, a, c);
      TurnKeepsOthers(text, o, i, j, a, c);
      m := LoopReaches(text, CheckSlot(text, o, i, a, c), i + 1, j, polled, revents, checks);
    }
  }

  /** By the end of an iteration the transfer o has in slot i is closed, and how. */
  ghost predicate Ended(o: Owner, end: Owner, i: nat, closing: Closing)
    requires Occupied(o, i)
  {
    |end.slots| == |o.slots| && end.slots[i].fd == NO_FD && o.slots[i].fd !in end.open && closing in end.closings
  }

  /** By the end of an iteration its reader holds `bytes`. */
  ghost predicate Going(o: Owner, end: Owner, i: nat, bytes: seq<Byte>, deadline: int)
    requires Occupied(o, i) && o.slots[i].fd in o.open
  {
    var fd := o.slots[i].fd;
    && |end.slots| == |o.slots| && end.slots[i] == Slot(fd, |bytes|, deadline)
    && fd in end.open && end.open[fd] == o.open[fd].(bytes := bytes)
  }

  /** What an iteration does for the transfer in slot i, given the answer for its descriptor. */
  ghost predicate SlotServed(text: seq<Byte>, o: Owner, end: Owner, i: nat, revents: Revents, c: Check)
    requires Valid(text, o) && Occupied(o, i)
  {
    var Slot(fd, offset, deadline) := o.slots[i];
    var t := o.open[fd];
    if c.now >= deadline then Ended(o, end, i, Closing(t, TimedOut))
    else if revents.broken then Ended(o, end, i, Closing(t, PeerGone))
    else if !revents.writable then Going(o, end, i, text[..offset], deadline)
    else
      var sent := offset + Max(0, Min(c.count, Min(65536, |text| - offset)));
      if sent == |text| then Ended(o, end, i, Closing(t.(bytes := text), Completed))
      else if c.count < 0 && !c.transient then Ended(o, end, i, Closing(t, WriteFailed))
      else Going(o, end, i, text[..sent], if sent > offset then c.after + 2000 else deadline)
  }

  lemma ServedFromSame(text: seq<Byte>, o: Owner, q: Owner, end: Owner, i: nat, revents: Revents, c: Check)
    requires Valid(text, o) && Valid(text, q) && Occupied(o, i) && SameAt(o, q, i)
    requires SlotServed(text, q, end, i, revents, c)
    ensures SlotServed(text, o, end, i, revents, c)
  {}

  lemma TurnServes(text: seq<Byte>, o: Owner, i: nat, revents: Revents, c: Check)
    requires Valid(text, o) && Occupied(o, i)
    ensures SlotServed(text, o, CheckSlot(text, o, i, revents, c), i, revents, c)
  {
    if c.now >= o.slots[i].deadline || revents.broken || !revents.writable {
      UnwrittenTurn(text, o, i, revents, c);
    } else {
      assert revents == Revents(false, true);
      WrittenTurn(text, o, i, c);
    }
  }

  lemma StaysServed(text: seq<Byte>, o: Owner, p: Owner, end: Owner, i: nat, revents: Revents, c: Check)
    requires Valid(text, o) && Occupied(o, i) && SlotServed(text, o, p, i, revents, c)
    requires i < |p.slots| && Keeps(p, end, i)
    ensures SlotServed(text, o, end, i, revents, c)
  {
    forall closing | closing in p.closings ensures closing in end.closings {
      var k :| 0 <= k < |p.closings| && p.closings[k] == closing;
      assert end.closings[k] == closing;
    }
  }

  lemma LoopServes(text: seq<Byte>, o: Owner, i: nat, polled: seq<Slot>, revents: seq<Revents>, checks: seq<Check>)
    requires Valid(text, o) && Occupied(o, i)
    ensures SlotServed(text, o, CheckAll(text, o, 0, polled, revents, checks), i,
                       Answer(polled, revents, i), CheckAt(checks, i))
  {
    var a, c := Answer(polled, revents, i), CheckAt(checks, i);
    var end := CheckAll(text, o, 0, polled, revents, checks);
    var m := LoopReaches(text, o, 0, i, polled, revents, checks);
    CheckKeepsValid(text, m, i, a, c);
    var q := CheckSlot(text, m, i, a, c);
    TurnServes(text, m, i, a, c);
    LaterTurnsKeep(text, q, i + 1, i, polled, revents, checks);
    StaysServed(text, m, q, end, i, a, c);
    ServedFromSame(text, o, m, end, i, a, c);
  }

  // ---------------------------------------------------------------- from iteration to iteration

  /** Display events disturb no transfer under way and take no close back. */
  lemma HandleKeeps(text: seq<Byte>, o: Owner, e: DisplayEvent, i: nat)
    requires Valid(text, o) && Occupied(o, i)
    ensures SameAt(o, Handle(o, e), i) && o.closings <= Handle(o, e).closings
  {}

  lemma {:induction false} HandleAllKeeps(text: seq<Byte>, o: Owner, events: seq<DisplayEvent>, i: nat)
    requires Valid(text, o) && Occupied(o, i)
    ensures SameAt(o, HandleAll(o, events), i) && o.closings <= HandleAll(o, events).closings
    decreases |events|
  {
    if events != [] {
      HandleKeeps(text, o, events[0], i);
      HandleKeepsValid(text, o, events[0]);
      HandleAllKeeps(text, Handle(o, events[0]), events[1..], i);
    }
  }

  lemma {:induction false} PrepareKeeps(text: seq<Byte>, o: Owner, prepares: seq<Dispatch>, i: nat)
    requires Valid(text, o) && Occupied(o, i)
    ensures SameAt(o, Prepare(o, prepares).0, i) && o.closings <= Prepare(o, prepares).0.closings
    decreases |prepares|
  {
    if prepares != [] {
      HandleAllKeeps(text, o, prepares[0].events, i);
      HandleAllKeepsValid(text, o, prepares[0].events);
      PrepareKeeps(text, HandleAll(o, prepares[0].events), prepares[1..], i);
    }
  }

  /** The answer poll gives for a descriptor in slot i. */
  function AnswerFor(r: Round, i: nat): Revents {
    if r.poll.Polled? && i < |r.poll.slots| then r.poll.slots[i] else Revents(false, false)
  }

  /** The iterations that go through to their write loop, on what it then works. */
  lemma RoundLoops(text: seq<Byte>, o: Owner, r: Round)
    requires Valid(text, o) && RunRound(text, o, r).1.Serving? && r.poll.Polled?
    ensures var p := Prepare(o, r.prepares).0;
            var q := HandleAll(p, r.dispatch.events);
            Valid(text, p) && Valid(text, q)
            && RunRound(text, o, r).0 == CheckAll(text, q, 0, p.slots, r.poll.slots, r.checks)
  {
    PrepareKeepsValid(text, o, r.prepares);
    HandleAllKeepsValid(text, Prepare(o, r.prepares).0, r.dispatch.events);
  }

  /** An iteration that goes through to its write loop serves every transfer that was under way
      before it, whatever arrives meanwhile. */
  lemma RoundServes(text: seq<Byte>, o: Owner, r: Round, i: nat)
    requires Valid(text, o) && Occupied(o, i)
    requires RunRound(text, o, r).1.Serving? && r.poll.Polled?
    ensures SlotServed(text, o, RunRound(text, o, r).0, i, AnswerFor(r, i), CheckAt(r.checks, i))
  {
    RoundLoops(text, o, r);
    var p := Prepare(o, r.prepares).0;
    var q := HandleAll(p, r.dispatch.events);
    PrepareKeeps(text, o, r.prepares, i);
    HandleAllKeeps(text, p, r.dispatch.events, i);
    LoopServes(text, q, i, p.slots, r.poll.slots, r.checks);
    ServedFromSame(text, o, q, RunRound(text, o, r).0, i, AnswerFor(r, i), CheckAt(r.checks, i));
  }

  // ---------------------------------------------------------------- over a run

  /** The reader that was given this ticket holds the whole text and was closed for that. */
  ghost predicate Delivered(text: seq<Byte>, o: Owner, ticket: nat) {
    exists k {:trigger o.closings[k]} | 0 <= k < |o.closings| ::
      o.closings[k].ending == Completed && o.closings[k].transfer.bytes == text
      && o.closings[k].transfer.ticket == ticket
  }

  /** An iteration in which the transfer in slot i is written in time: its reader is there and
      ready, the clock has not reached the deadline, and the write takes something. */
  ghost predicate WrittenInTime(text: seq<Byte>, o: Owner, r: Round, i: nat)
    requires Valid(text, o) && Occupied(o, i)
  {
    && !o.stopped && RunRound(text, o, r).1.Serving? && r.poll.Polled?
    && AnswerFor(r, i) == Revents(false, true)
    && CheckAt(r.checks, i).now < o.slots[i].deadline && CheckAt(r.checks, i).count > 0
  }

  /** Iteration after iteration, until the transfer is closed or the rounds end. */
  ghost predicate WrittenThroughout(text: seq<Byte>, o: Owner, rounds: seq<Round>, i: nat)
    requires Valid(text, o) && i < |o.slots|
    decreases |rounds|
  {
    if rounds == [] || !Occupied(o, i) then true
    else
      RoundKeepsValid(text, o, rounds[0]);
      WrittenInTime(text, o, rounds[0], i)
      && i < |RunRound(text, o, rounds[0]).0.slots|
      && WrittenThroughout(text, RunRound(text, o, rounds[0]).0, rounds[1..], i)
  }

  lemma {:induction false} HandleAllAdds(o: Owner, events: seq<DisplayEvent>)
    ensures o.closings <= HandleAll(o, events).closings
    decreases |events|
  {
    if events != [] {
      HandleAllAdds(Handle(o, events[0]), events[1..]);
    }
  }

  lemma {:induction false} PrepareAdds(o: Owner, prepares: seq<Dispatch>)
    ensures o.closings <= Prepare(o, prepares).0.closings
    decreases |prepares|
  {
    if prepares != [] {
      HandleAllAdds(o, prepares[0].events);
      PrepareAdds(HandleAll(o, prepares[0].events), prepares[1..]);
    }
  }

  lemma TurnAdds(text: seq<Byte>, o: Owner, i: nat, revents: Revents, c: Check)
    requires Valid(text, o) && i < |o.slots|
    ensures o.closings <= CheckSlot(text, o, i, revents, c).closings
  {
    if Occupied(o, i) {
      if c.now >= o.slots[i].deadline || revents.broken || !revents.writable {
        UnwrittenTurn(text, o, i, revents, c);
      } else {
        assert revents == Revents(false, true);
        WrittenTurn(text, o, i, c);
      }
    }
  }

  lemma {:induction false} LoopAdds(
    text: seq<Byte>, o: Owner, i: nat, polled: seq<Slot>, revents: seq<Revents>, checks: seq<Check>)
    requires Valid(text, o)
    ensures o.closings <= CheckAll(text, o, i, polled, revents, checks).closings
    decreases |o.slots| - i
  {
    if i < |o.slots| {
      var a, c := Answer(polled, revents, i), CheckAt(checks, i);
      CheckKeepsValid(text, o, i, a, c);
      TurnAdds(text, o, i, a, c);
      LoopAdds(text, CheckSlot(text, o, i, a, c), i + 1, polled, revents, checks);
    }
  }

  lemma RoundAdds(text: seq<Byte>, o: Owner, r: Round)
    requires Valid(text, o)
    ensures o.closings <= RunRound(text, o, r).0.closings
  {
    var p := Prepare(o, r.prepares).0;
    var q := HandleAll(p, r.dispatch.events);
    RoundEnds(text, o, r);
    PrepareAdds(o, r.prepares);
    HandleAllAdds(p, r.dispatch.events);
    if r.poll.Polled? {
      LoopAdds(text, q, 0, p.slots, r.poll.slots, r.checks);
    }
  }

  lemma {:induction false} StaysDelivered(text: seq<Byte>, o: Owner, rounds: seq<Round>, ticket: nat)
    requires Valid(text, o) && Delivered(text, o, ticket)
    ensures Delivered(text, Serve(text, o, rounds).0, ticket)
    decreases |rounds|
  {
    if !o.stopped && rounds != [] {
      RoundKeepsValid(text, o, rounds[0]);
      var (p, exit) := RunRound(text, o, rounds[0]);
      RoundAdds(text, o, rounds[0]);
      var k :| 0 <= k < |o.closings| && o.closings[k].ending == Completed
               && o.closings[k].transfer.bytes == text && o.closings[k].transfer.ticket == ticket;
      assert p.closings[k] == o.closings[k];
      if exit.Serving? {
        StaysDelivered(text, p, rounds[1..], ticket);
      }
    }
  }

  /** A reader that keeps reading gets the whole text: a transfer written in time, iteration
      after iteration, is complete after as many of them as bytes were left, whatever the other
      transfers and the display do meanwhile. */
  lemma {:induction false} ReaderGetsWholeText(text: seq<Byte>, o: Owner, rounds: seq<Round>, i: nat)
    requires Valid(text, o) && Occupied(o, i) && WrittenThroughout(text, o, rounds, i)
    requires |rounds| >= Max(1, |text| - o.slots[i].offset)
    ensures Delivered(text, Serve(text, o, rounds).0, o.open[o.slots[i].fd].ticket)
    decreases |rounds|
  {
    var ticket := o.open[o.slots[i].fd].ticket;
    RoundKeepsValid(text, o, rounds[0]);
    RoundServes(text, o, rounds[0], i);
    var end := RunRound(text, o, rounds[0]).0;
    if Occupied(end, i) {
      ReaderGetsWholeText(text, end, rounds[1..], i);
    } else {
      StaysDelivered(text, end, rounds[1..], ticket);
    }
  }

  // ---------------------------------------------------------------- when serving ends

  /** The selection was lost or the device went away. */
  predicate Ends(e: DisplayEvent) {
    e.Cancelled? || e.Lost?
  }

  lemma {:induction false} StoppedExactlyIfEnded(o: Owner, events: seq<DisplayEvent>)
    ensures HandleAll(o, events).stopped <==> o.stopped || exists e | e in events :: Ends(e)
    decreases |events|
  {
    if events != [] {
      StoppedExactlyIfEnded(Handle(o, events[0]), events[1..]);
      assert events == [events[0]] + events[1..];
      assert Ends(events[0]) ==> events[0] in events;
    }
  }

  predicate Halts(d: Dispatch) {
    d.failed || exists e | e in d.events :: Ends(e)
  }

  lemma {:induction false} PrepareExits(o: Owner, prepares: seq<Dispatch>)
    requires !o.stopped
    ensures Prepare(o, prepares).1 == if exists d | d in prepares :: Halts(d) then Exited(0) else Serving
    ensures Prepare(o, prepares).1.Serving? ==> !Prepare(o, prepares).0.stopped
    decreases |prepares|
  {
    if prepares != [] {
      StoppedExactlyIfEnded(o, prepares[0].events);
      if !Halts(prepares[0]) {
        PrepareExits(HandleAll(o, prepares[0].events), prepares[1..]);
        assert forall d | d in prepares :: d == prepares[0] || d in prepares[1..];
      }
    }
  }

  /** An iteration ends serving well exactly if a dispatch before the poll fails or brings the
      end, and badly exactly if it gets past those and anything else fails. The end brought by
      the dispatch behind the poll still lets the write loop run: serving ends after it. */
  lemma RoundExits(text: seq<Byte>, o: Owner, r: Round)
    requires Valid(text, o) && !o.stopped
    ensures var (p, exit) := RunRound(text, o, r);
            var polled := r.poll.Polled?;
            && exit == (if exists d | d in r.prepares :: Halts(d) then Exited(0)
                        else if r.flushFailed || r.poll.PollFailed?
                                || (polled && (r.poll.readFailed || r.poll.displayBroken || r.dispatch.failed))
                        then Exited(-1)
                        else Serving)
            && (exit.Serving? && polled ==> (p.stopped <==> exists e | e in r.dispatch.events :: Ends(e)))
  {
    PrepareExits(o, r.prepares);
    var (p, exit) := RunRound(text, o, r);
    if exit.Serving? && r.poll.Polled? {
      RoundLoops(text, o, r);
      var q := HandleAll(Prepare(o, r.prepares).0, r.dispatch.events);
      StoppedExactlyIfEnded(Prepare(o, r.prepares).0, r.dispatch.events);
      LoopKeepsFlag(text, q, 0, Prepare(o, r.prepares).0.slots, r.poll.slots, r.checks);
    }
  }

  lemma {:induction false} LoopKeepsFlag(
    text: seq<Byte>, o: Owner, i: nat, polled: seq<Slot>, revents: seq<Revents>, checks: seq<Check>)
    requires Valid(text, o)
    ensures CheckAll(text, o, i, polled, revents, checks).stopped == o.stopped
    decreases |o.slots| - i
  {
    if i < |o.slots| {
      var a, c := Answer(polled, revents, i), CheckAt(checks, i);
      CheckKeepsValid(text, o, i, a, c);
      LoopKeepsFlag(text, CheckSlot(text, o, i, a, c), i + 1, polled, revents, checks);
    }
  }
}
