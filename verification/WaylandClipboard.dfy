/** The Wayland clipboard owner: eight transfer slots served by one poll loop. Display events
    may fill slots in the middle of an iteration, after the poll whose answers drive the
    writes of that iteration. What the kernel and the compositor do is input. */
module WaylandClipboard {
  import opened Numbers

  const MAX_TEXT_BYTES: nat := 16 * 1024 * 1024
  const MAX_TRANSFERS: nat := 8
  const TRANSFER_TIMEOUT_MS: nat := 2000
  const MAX_WRITE: nat := 65536
  const NO_FD: int := -1

  type Byte = bv8

  datatype Slot = Slot(fd: int, offset: nat, deadline: int)

  datatype Ending = Completed | Refused | TimedOut | PeerGone | WriteFailed

  /** Descriptor numbers are reused by the kernel, so every descriptor the compositor hands
      over also gets a ticket, in order of arrival. `slot` is where it was put and `bytes` what
      has been written to it. */
  datatype Transfer = Transfer(ticket: nat, slot: nat, bytes: seq<Byte>)

  datatype Closing = Closing(transfer: Transfer, ending: Ending)

  /** The program's slots and stop flag; then, for the kernel's side, the transfers still
      open by descriptor, every close so far in order, and how many tickets were given out. */
  datatype Owner = Owner(
    slots: seq<Slot>, stopped: bool,
    open: map<int, Transfer>, closings: seq<Closing>, issued: nat)

  // `settable` says whether the descriptor can be made non-blocking.
  datatype DisplayEvent = Send(fd: int, settable: bool, now: int) | Cancelled | Lost

  datatype Dispatch = Dispatch(events: seq<DisplayEvent>, failed: bool)

  datatype Revents = Revents(broken: bool, writable: bool)

  /** What one slot's check meets: the clock before it, the write's result (negative for an
      error, `transient` for EAGAIN and EINTR) and the clock after a write. */
  datatype Check = Check(now: int, count: int, transient: bool, after: int)

  datatype Poll = Interrupted | PollFailed | Polled(readFailed: bool, displayBroken: bool, slots: seq<Revents>)

  datatype Round = Round(
    prepares: seq<Dispatch>, flushFailed: bool, now: int, poll: Poll,
    dispatch: Dispatch, checks: seq<Check>)

  datatype Exit = Serving | Exited(code: int)

  // ---------------------------------------------------------------- single operations

  function FirstFree(slots: seq<Slot>, from: nat): (i: nat)
    requires from <= |slots|
    ensures from <= i <= |slots|
    ensures forall k | from <= k < i :: slots[k].fd != NO_FD
    ensures i < |slots| ==> slots[i].fd == NO_FD
    decreases |slots| - from
  {
    if from == |slots| || slots[from].fd == NO_FD then from else FirstFree(slots, from + 1)
  }

  /** source_send: the first free slot takes the descriptor, or it is closed at once. */
  function Accept(o: Owner, fd: int, settable: bool, now: int): Owner {
    var i := FirstFree(o.slots, 0);
    if i < |o.slots| && settable then PutIn(o, i, fd, now) else Refuse(o, i)
  }

  function PutIn(o: Owner, i: nat, fd: int, now: int): Owner
    requires i < |o.slots|
  {
    o.(slots := o.slots[i := Slot(fd, 0, now + TRANSFER_TIMEOUT_MS)],
       open := o.open[fd := Transfer(o.issued, i, [])],
       issued := o.issued + 1)
  }

  function Refuse(o: Owner, i: nat): Owner {
    o.(closings := o.closings + [Closing(Transfer(o.issued, i, []), Refused)], issued := o.issued + 1)
  }

  /** The kernel only hands over descriptors that are not in use; nothing else can arrive. */
  function Handle(o: Owner, e: DisplayEvent): Owner {
    match e
    case Send(fd, settable, now) =>
      if 0 <= fd && fd !in o.open then Accept(o, fd, settable, now) else o
    case Cancelled | Lost => o.(stopped := true)
  }

  function HandleAll(o: Owner, events: seq<DisplayEvent>): (p: Owner)
    ensures |p.slots| == |o.slots| && p.issued >= o.issued
    decreases |events|
  {
    if events == [] then o else HandleAll(Handle(o, events[0]), events[1..])
  }

  function CloseTransfer(o: Owner, i: nat, ending: Ending): Owner
    requires i < |o.slots| && o.slots[i].fd in o.open
  {
    var fd := o.slots[i].fd;
    o.(slots := o.slots[i := o.slots[i].(fd := NO_FD)],
       open := o.open - {fd},
       closings := o.closings + [Closing(o.open[fd], ending)])
  }

  /** A write that took `taken` bytes, never more than were offered. */
  function Progress(text: seq<Byte>, o: Owner, i: nat, taken: nat, after: int): Owner
    requires i < |o.slots| && o.slots[i].fd in o.open && o.slots[i].offset + taken <= |text|
  {
    var Slot(fd, offset, _) := o.slots[i];
    var t := o.open[fd];
    o.(slots := o.slots[i := Slot(fd, offset + taken, after + TRANSFER_TIMEOUT_MS)],
       open := o.open[fd := t.(bytes := t.bytes + text[offset..offset + taken])])
  }

  /** One slot's turn in the write loop. */
  function CheckSlot(text: seq<Byte>, o: Owner, i: nat, revents: Revents, c: Check): Owner
    requires i < |o.slots|
    requires o.slots[i].fd != NO_FD ==> o.slots[i].fd in o.open && o.slots[i].offset <= |text|
  {
    var slot := o.slots[i];
    if slot.fd == NO_FD then o
    else if c.now >= slot.deadline then CloseTransfer(o, i, TimedOut)
    else if revents.broken then CloseTransfer(o, i, PeerGone)
    else if !revents.writable then o
    else
      var count := Min(c.count, Min(MAX_WRITE, |text| - slot.offset));
      var p := if count > 0 then Progress(text, o, i, count, c.after) else o;
      if p.slots[i].offset == |text| then CloseTransfer(p, i, Completed)
      else if count < 0 && !c.transient then CloseTransfer(p, i, WriteFailed)
      else p
  }

  // ---------------------------------------------------------------- the invariant

  predicate Occupied(o: Owner, i: int) {
    0 <= i < |o.slots| && o.slots[i].fd != NO_FD
  }

  /** Every open transfer sits in exactly one of the eight slots, and what was written to it
      is the text up to that slot's offset. */
  ghost predicate SlotsHoldOpen(text: seq<Byte>, o: Owner) {
    |o.slots| == MAX_TRANSFERS && NO_FD !in o.open && OpenAreHeld(o) && SlotsAreTrue(text, o)
  }

  ghost predicate OpenAreHeld(o: Owner) {
    forall fd | fd in o.open :: o.open[fd].slot < |o.slots| && o.slots[o.open[fd].slot].fd == fd
  }

  ghost predicate SlotsAreTrue(text: seq<Byte>, o: Owner) {
    forall i {:trigger o.slots[i]} | Occupied(o, i) ::
      && o.slots[i].fd in o.open
      && o.open[o.slots[i].fd].slot == i
      && o.slots[i].offset <= |text|
      && o.open[o.slots[i].fd].bytes == text[..o.slots[i].offset]
  }

  /** Every ticket given out belongs to one open transfer or to one close, never to two. */
  ghost predicate TicketsOnce(o: Owner) {
    && (forall fd | fd in o.open :: o.open[fd].ticket < o.issued)
    && (forall fd, gd | fd in o.open && gd in o.open && fd != gd :: o.open[fd].ticket != o.open[gd].ticket)
    && (forall k | 0 <= k < |o.closings| :: o.closings[k].transfer.ticket < o.issued)
    && (forall k, l | 0 <= k < l < |o.closings| ::
          o.closings[k].transfer.ticket != o.closings[l].transfer.ticket)
    && (forall k, fd | 0 <= k < |o.closings| && fd in o.open ::
          o.closings[k].transfer.ticket != o.open[fd].ticket)
  }

  /** And no ticket is lost: none is neither open nor closed. */
  ghost predicate NoneLost(o: Owner) {
    o.issued == |o.open.Keys| + |o.closings|
  }

  /** What a reader was given: always a prefix of the text, all of it on completion. */
  ghost predicate ClosingsHonest(text: seq<Byte>, o: Owner) {
    forall k | 0 <= k < |o.closings| ::
      && o.closings[k].transfer.bytes <= text
      && (o.closings[k].ending == Completed ==> o.closings[k].transfer.bytes == text)
      && (o.closings[k].ending == Refused ==> o.closings[k].transfer.bytes == [])
      && (o.closings[k].ending !in {Completed, Refused} && text != [] ==> o.closings[k].transfer.bytes != text)
  }

  /** No open slot is already finished, so completion is never missed. */
  ghost predicate Unfinished(text: seq<Byte>, o: Owner) {
    forall i {:trigger o.slots[i]} | Occupied(o, i) :: text != [] ==> o.slots[i].offset < |text|
  }

  ghost predicate Valid(text: seq<Byte>, o: Owner) {
    SlotsHoldOpen(text, o) && TicketsOnce(o) && NoneLost(o) && ClosingsHonest(text, o) && Unfinished(text, o)
  }

  function Start(): Owner {
    Owner(seq(MAX_TRANSFERS, _ => Slot(NO_FD, 0, 0)), false, map[], [], 0)
  }

  lemma PutInKeepsHeld(o: Owner, i: nat, fd: int, now: int)
    requires OpenAreHeld(o) && i < |o.slots| && o.slots[i].fd == NO_FD && NO_FD !in o.open && fd !in o.open
    ensures OpenAreHeld(PutIn(o, i, fd, now))
  {
    var p := PutIn(o, i, fd, now);
    forall gd | gd in p.open ensures p.open[gd].slot < |p.slots| && p.slots[p.open[gd].slot].fd == gd {
      if gd != fd {
        assert o.slots[o.open[gd].slot].fd == gd && o.open[gd].slot != i;
      }
    }
  }

  lemma PutInKeepsTrue(text: seq<Byte>, o: Owner, i: nat, fd: int, now: int)
    requires SlotsAreTrue(text, o) && i < |o.slots| && fd !in o.open
    ensures SlotsAreTrue(text, PutIn(o, i, fd, now))
  {
    var p := PutIn(o, i, fd, now);
    forall k {:trigger p.slots[k]} | Occupied(p, k)
      ensures p.slots[k].fd in p.open && p.open[p.slots[k].fd].slot == k && p.slots[k].offset <= |text|
              && p.open[p.slots[k].fd].bytes == text[..p.slots[k].offset]
    {
      if k != i {
        assert Occupied(o, k) && p.slots[k] == o.slots[k];
      }
    }
  }

  lemma PutInKeepsTickets(o: Owner, i: nat, fd: int, now: int)
    requires TicketsOnce(o) && NoneLost(o) && i < |o.slots| && fd !in o.open
    ensures TicketsOnce(PutIn(o, i, fd, now)) && NoneLost(PutIn(o, i, fd, now))
  {
    assert PutIn(o, i, fd, now).open.Keys == o.open.Keys + {fd};
  }

  lemma PutInKeepsHonest(text: seq<Byte>, o: Owner, i: nat, fd: int, now: int)
    requires ClosingsHonest(text, o) && Unfinished(text, o) && i < |o.slots|
    ensures ClosingsHonest(text, PutIn(o, i, fd, now)) && Unfinished(text, PutIn(o, i, fd, now))
  {
    var p := PutIn(o, i, fd, now);
    forall k {:trigger p.slots[k]} | Occupied(p, k) && text != [] ensures p.slots[k].offset < |text| {
      if k != i {
        assert Occupied(o, k) && p.slots[k] == o.slots[k];
      }
    }
  }

  lemma RefuseKeepsTickets(o: Owner, i: nat)
    requires TicketsOnce(o) && NoneLost(o)
    ensures TicketsOnce(Refuse(o, i)) && NoneLost(Refuse(o, i))
  {}

  lemma AddingHonest(text: seq<Byte>, o: Owner, p: Owner, c: Closing)
    requires ClosingsHonest(text, o) && p.closings == o.closings + [c]
    requires c.transfer.bytes <= text
    requires c.ending == Completed ==> c.transfer.bytes == text
    requires c.ending == Refused ==> c.transfer.bytes == []
    requires c.ending !in {Completed, Refused} && text != [] ==> c.transfer.bytes != text
    ensures ClosingsHonest(text, p)
  {}

  lemma AcceptKeepsValid(text: seq<Byte>, o: Owner, fd: int, settable: bool, now: int)
    requires Valid(text, o) && 0 <= fd && fd !in o.open
    ensures Valid(text, Accept(o, fd, settable, now))
  {
    var i := FirstFree(o.slots, 0);
    if i < |o.slots| && settable {
      PutInKeepsHeld(o, i, fd, now);
      PutInKeepsTrue(text, o, i, fd, now);
      PutInKeepsTickets(o, i, fd, now);
      PutInKeepsHonest(text, o, i, fd, now);
    } else {
      RefuseKeepsTickets(o, i);
      AddingHonest(text, o, Refuse(o, i), Closing(Transfer(o.issued, i, []), Refused));
    }
  }

  lemma HandleKeepsValid(text: seq<Byte>, o: Owner, e: DisplayEvent)
    requires Valid(text, o)
    ensures Valid(text, Handle(o, e))
  {
    if e.Send? && 0 <= e.fd && e.fd !in o.open {
      AcceptKeepsValid(text, o, e.fd, e.settable, e.now);
    }
  }

  lemma {:induction false} HandleAllKeepsValid(text: seq<Byte>, o: Owner, events: seq<DisplayEvent>)
    requires Valid(text, o)
    ensures Valid(text, HandleAll(o, events))
    decreases |events|
  {
    if events != [] {
      HandleKeepsValid(text, o, events[0]);
      HandleAllKeepsValid(text, Handle(o, events[0]), events[1..]);
    }
  }

  lemma CloseKeepsHeld(text: seq<Byte>, o: Owner, i: nat, ending: Ending)
    requires OpenAreHeld(o) && SlotsAreTrue(text, o) && Occupied(o, i)
    ensures OpenAreHeld(CloseTransfer(o, i, ending))
  {
    var p := CloseTransfer(o, i, ending);
    forall gd | gd in p.open ensures p.open[gd].slot < |p.slots| && p.slots[p.open[gd].slot].fd == gd {
      assert gd in o.open && o.slots[o.open[gd].slot].fd == gd;
    }
  }

  lemma CloseKeepsTrue(text: seq<Byte>, o: Owner, i: nat, ending: Ending)
    requires SlotsAreTrue(text, o) && Occupied(o, i)
    ensures SlotsAreTrue(text, CloseTransfer(o, i, ending))
  {
    var p := CloseTransfer(o, i, ending);
    forall k {:trigger p.slots[k]} | Occupied(p, k)
      ensures p.slots[k].fd in p.open && p.open[p.slots[k].fd].slot == k && p.slots[k].offset <= |text|
              && p.open[p.slots[k].fd].bytes == text[..p.slots[k].offset]
    {
      assert k != i && Occupied(o, k) && p.slots[k] == o.slots[k];
      assert o.open[o.slots[i].fd].slot == i;
    }
  }

  lemma CloseKeepsTickets(o: Owner, i: nat, ending: Ending)
    requires TicketsOnce(o) && NoneLost(o) && i < |o.slots| && o.slots[i].fd in o.open
    ensures TicketsOnce(CloseTransfer(o, i, ending)) && NoneLost(CloseTransfer(o, i, ending))
  {
    assert CloseTransfer(o, i, ending).open.Keys == o.open.Keys - {o.slots[i].fd};
  }

  /** No slot but perhaps this one is finished. */
  ghost predicate OthersUnfinished(text: seq<Byte>, o: Owner, i: nat) {
    forall j {:trigger o.slots[j]} | Occupied(o, j) && j != i && text != [] :: o.slots[j].offset < |text|
  }

  lemma CloseKeepsUnfinished(text: seq<Byte>, o: Owner, i: nat, ending: Ending)
    requires i < |o.slots| && o.slots[i].fd in o.open && OthersUnfinished(text, o, i)
    ensures Unfinished(text, CloseTransfer(o, i, ending))
  {
    var p := CloseTransfer(o, i, ending);
    forall k {:trigger p.slots[k]} | Occupied(p, k) && text != [] ensures p.slots[k].offset < |text| {
      assert k != i && Occupied(o, k) && p.slots[k] == o.slots[k];
    }
  }

  lemma CloseKeepsHonest(text: seq<Byte>, o: Owner, i: nat, ending: Ending)
    requires SlotsAreTrue(text, o) && ClosingsHonest(text, o) && Occupied(o, i) && ending != Refused
    requires ending == Completed ==> o.slots[i].offset == |text|
    requires ending != Completed && text != [] ==> o.slots[i].offset < |text|
    ensures ClosingsHonest(text, CloseTransfer(o, i, ending))
  {
    var transfer := o.open[o.slots[i].fd];
    assert |text[..o.slots[i].offset]| == o.slots[i].offset;
    AddingHonest(text, o, CloseTransfer(o, i, ending), Closing(transfer, ending));
  }

  lemma CloseKeepsValid(text: seq<Byte>, o: Owner, i: nat, ending: Ending)
    requires SlotsHoldOpen(text, o) && TicketsOnce(o) && NoneLost(o) && ClosingsHonest(text, o)
    requires Occupied(o, i) && OthersUnfinished(text, o, i)
    requires ending != Refused
    requires ending == Completed ==> o.slots[i].offset == |text|
    requires ending != Completed && text != [] ==> o.slots[i].offset < |text|
    ensures Valid(text, CloseTransfer(o, i, ending))
  {
    CloseKeepsHeld(text, o, i, ending);
    CloseKeepsTrue(text, o, i, ending);
    CloseKeepsTickets(o, i, ending);
    CloseKeepsUnfinished(text, o, i, ending);
    CloseKeepsHonest(text, o, i, ending);
  }

  lemma ProgressKeepsHeld(text: seq<Byte>, o: Owner, i: nat, taken: nat, after: int)
    requires OpenAreHeld(o) && i < |o.slots| && o.slots[i].fd in o.open && o.slots[i].offset + taken <= |text|
    ensures OpenAreHeld(Progress(text, o, i, taken, after))
  {
    var p := Progress(text, o, i, taken, after);
    forall gd | gd in p.open ensures p.open[gd].slot < |p.slots| && p.slots[p.open[gd].slot].fd == gd {
      assert gd in o.open && p.open[gd].slot == o.open[gd].slot;
    }
  }

  lemma ProgressKeepsTrue(text: seq<Byte>, o: Owner, i: nat, taken: nat, after: int)
    requires SlotsAreTrue(text, o) && Occupied(o, i) && o.slots[i].offset + taken <= |text|
    ensures SlotsAreTrue(text, Progress(text, o, i, taken, after))
  {
    var p := Progress(text, o, i, taken, after);
    var offset := o.slots[i].offset;
    assert text[..offset] + text[offset..offset + taken] == text[..offset + taken];
    forall k {:trigger p.slots[k]} | Occupied(p, k)
      ensures p.slots[k].fd in p.open && p.open[p.slots[k].fd].slot == k && p.slots[k].offset <= |text|
              && p.open[p.slots[k].fd].bytes == text[..p.slots[k].offset]
    {
      if k != i {
        assert Occupied(o, k) && p.slots[k] == o.slots[k];
      }
    }
  }

  lemma ProgressKeepsTickets(text: seq<Byte>, o: Owner, i: nat, taken: nat, after: int)
    requires TicketsOnce(o) && NoneLost(o)
    requires i < |o.slots| && o.slots[i].fd in o.open && o.slots[i].offset + taken <= |text|
    ensures TicketsOnce(Progress(text, o, i, taken, after)) && NoneLost(Progress(text, o, i, taken, after))
  {
    assert Progress(text, o, i, taken, after).open.Keys == o.open.Keys;
  }

  /** All of the invariant but that slot i may now be finished. */
  ghost predicate ValidBut(text: seq<Byte>, o: Owner, i: nat) {
    && SlotsHoldOpen(text, o) && TicketsOnce(o) && NoneLost(o) && ClosingsHonest(text, o)
    && OthersUnfinished(text, o, i)
  }

  lemma ProgressKeepsValid(text: seq<Byte>, o: Owner, i: nat, taken: nat, after: int)
    requires Valid(text, o) && Occupied(o, i) && o.slots[i].offset + taken <= |text|
    ensures ValidBut(text, Progress(text, o, i, taken, after), i)
  {
    ProgressKeepsHeld(text, o, i, taken, after);
    ProgressKeepsTrue(text, o, i, taken, after);
    ProgressKeepsTickets(text, o, i, taken, after);
    var p := Progress(text, o, i, taken, after);
    forall k {:trigger p.slots[k]} | Occupied(p, k) && k != i && text != [] ensures p.slots[k].offset < |text| {
      assert Occupied(o, k) && p.slots[k] == o.slots[k];
    }
  }

  lemma StillUnfinished(text: seq<Byte>, o: Owner, i: nat)
    requires ValidBut(text, o, i) && (Occupied(o, i) && text != [] ==> o.slots[i].offset < |text|)
    ensures Valid(text, o)
  {}

  /** A slot whose descriptor is writable: the write, then perhaps the close. */
  lemma WriteKeepsValid(text: seq<Byte>, o: Owner, i: nat, revents: Revents, c: Check)
    requires Valid(text, o) && Occupied(o, i)
    requires c.now < o.slots[i].deadline && !revents.broken && revents.writable
    ensures Valid(text, CheckSlot(text, o, i, revents, c))
  {
    var count := Min(c.count, Min(MAX_WRITE, |text| - o.slots[i].offset));
    var p := o;
    if count > 0 {
      ProgressKeepsValid(text, o, i, count, c.after);
      p := Progress(text, o, i, count, c.after);
    }
    assert ValidBut(text, p, i) && Occupied(p, i) && p.slots[i].offset <= |text|;
    if p.slots[i].offset == |text| {
      CloseKeepsValid(text, p, i, Completed);
    } else {
      StillUnfinished(text, p, i);
      if count < 0 && !c.transient {
        CloseKeepsValid(text, p, i, WriteFailed);
      }
    }
  }

  lemma CheckKeepsValid(text: seq<Byte>, o: Owner, i: nat, revents: Revents, c: Check)
    requires Valid(text, o) && i < |o.slots|
    ensures Valid(text, CheckSlot(text, o, i, revents, c))
  {
    if Occupied(o, i) {
      if c.now >= o.slots[i].deadline {
        CloseKeepsValid(text, o, i, TimedOut);
      } else if revents.broken {
        CloseKeepsValid(text, o, i, PeerGone);
      } else if revents.writable {
        WriteKeepsValid(text, o, i, revents, c);
      }
    }
  }

  // ---------------------------------------------------------------- one iteration of the loop

  /** poll leaves the answer for a free slot empty. */
  function Answer(polled: seq<Slot>, revents: seq<Revents>, i: nat): Revents {
    if i < |polled| && i < |revents| && polled[i].fd != NO_FD then revents[i] else Revents(false, false)
  }

  function CheckAt(checks: seq<Check>, i: nat): Check {
    if i < |checks| then checks[i] else Check(0, 0, false, 0)
  }

  /** The write loop from slot i on. `polled` are the slots as they were when poll was called. */
  function CheckAll(text: seq<Byte>, o: Owner, i: nat, polled: seq<Slot>, revents: seq<Revents>,
                    checks: seq<Check>): (p: Owner)
    requires Valid(text, o)
    ensures Valid(text, p)
    decreases |o.slots| - i
  {
    if i >= |o.slots| then o
    else
      CheckKeepsValid(text, o, i, Answer(polled, revents, i), CheckAt(checks, i));
      CheckAll(text, CheckSlot(text, o, i, Answer(polled, revents, i), CheckAt(checks, i)), i + 1,
               polled, revents, checks)
  }

  /** The loop around prepare_read: one dispatch for every time it is not ready. */
  function Prepare(o: Owner, prepares: seq<Dispatch>): (Owner, Exit)
    decreases |prepares|
  {
    if prepares == [] then (o, Serving)
    else
      var p := HandleAll(o, prepares[0].events);
      if prepares[0].failed || p.stopped then (p, Exited(0)) else Prepare(p, prepares[1..])
  }

  function RunRound(text: seq<Byte>, o: Owner, r: Round): (result: (Owner, Exit))
    requires Valid(text, o)
  {
    var (p, exit) := Prepare(o, r.prepares);
    if exit.Exited? then (p, exit)
    else if r.flushFailed then (p, Exited(-1))
    else
      match r.poll
      case Interrupted => (p, Serving)
      case PollFailed => (p, Exited(-1))
      case Polled(readFailed, displayBroken, revents) =>
        if readFailed || displayBroken then (p, Exited(-1))
        else
          var q := HandleAll(p, r.dispatch.events);
          PrepareKeepsValid(text, o, r.prepares);
          HandleAllKeepsValid(text, p, r.dispatch.events);
          if r.dispatch.failed then (q, Exited(-1))
          else (CheckAll(text, q, 0, p.slots, revents, r.checks), Serving)
  }

  lemma {:induction false} PrepareKeepsValid(text: seq<Byte>, o: Owner, prepares: seq<Dispatch>)
    requires Valid(text, o)
    ensures Valid(text, Prepare(o, prepares).0)
    decreases |prepares|
  {
    if prepares != [] {
      HandleAllKeepsValid(text, o, prepares[0].events);
      PrepareKeepsValid(text, HandleAll(o, prepares[0].events), prepares[1..]);
    }
  }

  lemma RoundKeepsValid(text: seq<Byte>, o: Owner, r: Round)
    requires Valid(text, o)
    ensures Valid(text, RunRound(text, o, r).0)
  {
    PrepareKeepsValid(text, o, r.prepares);
    HandleAllKeepsValid(text, Prepare(o, r.prepares).0, r.dispatch.events);
  }

  /** serve, as long as there is input. */
  function Serve(text: seq<Byte>, o: Owner, rounds: seq<Round>): (Owner, Exit)
    requires Valid(text, o)
    decreases |rounds|
  {
    if o.stopped then (o, Exited(0))
    else if rounds == [] then (o, Serving)
    else
      RoundKeepsValid(text, o, rounds[0]);
      var (p, exit) := RunRound(text, o, rounds[0]);
      if exit.Exited? then (p, exit) else Serve(text, p, rounds[1..])
  }

  /** In every run: eight slots, each open descriptor in exactly one of them, every descriptor
      ever taken either open or closed exactly once, and no reader given anything but a prefix
      of the text, which is the whole text exactly on completion. */
  lemma {:induction false} EveryRunIsSafe(text: seq<Byte>, o: Owner, rounds: seq<Round>)
    requires Valid(text, o)
    ensures Valid(text, Serve(text, o, rounds).0)
    decreases |rounds|
  {
    if !o.stopped && rounds != [] {
      RoundKeepsValid(text, o, rounds[0]);
      var (p, exit) := RunRound(text, o, rounds[0]);
      if !exit.Exited? {
        EveryRunIsSafe(text, p, rounds[1..]);
      }
    }
  }

  // ---------------------------------------------------------------- slots filled in mid-iteration

  /** Transfers with a ticket of `since` or later: open ones sit in slots that were free in
      `polled`; nothing has been written to any of them, open or closed. */
  ghost predicate Unwritten(polled: seq<Slot>, since: nat, o: Owner) {
    && (forall fd | fd in o.open && o.open[fd].ticket >= since ::
          o.open[fd].bytes == [] && o.open[fd].slot < |polled| && polled[o.open[fd].slot].fd == NO_FD)
    && (forall k | 0 <= k < |o.closings| && o.closings[k].transfer.ticket >= since ::
          o.closings[k].transfer.bytes == [] && o.closings[k].ending in {Refused, TimedOut})
  }

  /** The slots that were taken when poll was called are as they were. */
  ghost predicate StillHeld(polled: seq<Slot>, o: Owner) {
    && |polled| == |o.slots|
    && forall i {:trigger polled[i]} | 0 <= i < |polled| && polled[i].fd != NO_FD :: o.slots[i] == polled[i]
  }

  lemma ArrivalIsUnwritten(text: seq<Byte>, polled: seq<Slot>, since: nat, o: Owner, e: DisplayEvent)
    requires Valid(text, o) && StillHeld(polled, o)
    requires since <= o.issued && Unwritten(polled, since, o)
    ensures Unwritten(polled, since, Handle(o, e)) && StillHeld(polled, Handle(o, e))
  {}

  lemma {:induction false} ArrivalsAreUnwritten(
    text: seq<Byte>, polled: seq<Slot>, since: nat, o: Owner, events: seq<DisplayEvent>)
    requires Valid(text, o) && StillHeld(polled, o)
    requires since <= o.issued && Unwritten(polled, since, o)
    ensures Unwritten(polled, since, HandleAll(o, events)) && StillHeld(polled, HandleAll(o, events))
    decreases |events|
  {
    if events != [] {
      HandleKeepsValid(text, o, events[0]);
      ArrivalIsUnwritten(text, polled, since, o, events[0]);
      ArrivalsAreUnwritten(text, polled, since, Handle(o, events[0]), events[1..]);
    }
  }

  lemma {:induction false} ChecksLeaveArrivalsUnwritten(
    text: seq<Byte>, polled: seq<Slot>, since: nat, o: Owner, i: nat, revents: seq<Revents>, checks: seq<Check>)
    requires Valid(text, o) && |polled| == |o.slots| && Unwritten(polled, since, o)
    ensures Unwritten(polled, since, CheckAll(text, o, i, polled, revents, checks))
    decreases |o.slots| - i
  {
    if i < |o.slots| {
      var a, c := Answer(polled, revents, i), CheckAt(checks, i);
      var p := CheckSlot(text, o, i, a, c);
      CheckKeepsValid(text, o, i, a, c);
      CheckLeavesArrivalsUnwritten(text, polled, since, o, i, a, c);
      ChecksLeaveArrivalsUnwritten(text, polled, since, p, i + 1, revents, checks);
    }
  }

  lemma CheckLeavesArrivalsUnwritten(
    text: seq<Byte>, polled: seq<Slot>, since: nat, o: Owner, i: nat, revents: Revents, c: Check)
    requires Valid(text, o) && |polled| == |o.slots| && i < |o.slots| && Unwritten(polled, since, o)
    requires polled[i].fd == NO_FD ==> revents == Revents(false, false)
    ensures Unwritten(polled, since, CheckSlot(text, o, i, revents, c))
  {
    if Occupied(o, i) {
      CheckSlotTouchesOne(text, o, i, revents, c);
      var p := CheckSlot(text, o, i, revents, c);
      forall k | 0 <= k < |p.closings| && p.closings[k].transfer.ticket >= since
        ensures p.closings[k].transfer.bytes == [] && p.closings[k].ending in {Refused, TimedOut}
      {
        if k < |o.closings| {
          assert p.closings[k] == p.closings[..|o.closings|][k];
        }
      }
    }
  }

  /** A slot's turn changes that slot and its descriptor only, and writes nothing unless the
      descriptor was answered writable. */
  lemma CheckSlotTouchesOne(text: seq<Byte>, o: Owner, i: nat, revents: Revents, c: Check)
    requires Valid(text, o) && Occupied(o, i)
    ensures var p := CheckSlot(text, o, i, revents, c);
            var fd := o.slots[i].fd;
            && (forall gd | gd in p.open && gd != fd :: gd in o.open && p.open[gd] == o.open[gd])
            && (fd in p.open ==> p.open[fd].ticket == o.open[fd].ticket && p.open[fd].slot == i)
            && (fd in p.open && !revents.writable ==> p.open[fd] == o.open[fd])
            && (p.closings == o.closings
                || (|p.closings| == |o.closings| + 1
                    && p.closings[..|o.closings|] == o.closings
                    && var last := p.closings[|o.closings|];
                       && last.transfer.ticket == o.open[fd].ticket
                       && (!revents.writable && !revents.broken ==>
                             last == Closing(o.open[fd], TimedOut))))
  {}

  /** An iteration ends before the dispatch, after it, or after the write loop. */
  lemma RoundEnds(text: seq<Byte>, o: Owner, r: Round)
    requires Valid(text, o)
    ensures var p := Prepare(o, r.prepares).0;
            var q := HandleAll(p, r.dispatch.events);
            var end := RunRound(text, o, r).0;
            && Valid(text, p) && Valid(text, q)
            && (end == p || end == q
                || (r.poll.Polled? && end == CheckAll(text, q, 0, p.slots, r.poll.slots, r.checks)))
  {
    PrepareKeepsValid(text, o, r.prepares);
    HandleAllKeepsValid(text, Prepare(o, r.prepares).0, r.dispatch.events);
  }

  lemma NothingArrivedYet(text: seq<Byte>, p: Owner)
    requires Valid(text, p)
    ensures Unwritten(p.slots, p.issued, p)
  {}

  /** A descriptor that arrives between poll and the write loop is never written on the old
      answers: in that iteration it is refused, or kept untouched, or at most timed out. */
  lemma ArrivalsNotWrittenThisRound(text: seq<Byte>, o: Owner, r: Round)
    requires Valid(text, o)
    ensures var p := Prepare(o, r.prepares).0; Unwritten(p.slots, p.issued, RunRound(text, o, r).0)
  {
    RoundEnds(text, o, r);
    var p := Prepare(o, r.prepares).0;
    NothingArrivedYet(text, p);
    ArrivalsAreUnwritten(text, p.slots, p.issued, p, r.dispatch.events);
    if r.poll.Polled? {
      var q := HandleAll(p, r.dispatch.events);
      ChecksLeaveArrivalsUnwritten(text, p.slots, p.issued, q, 0, r.poll.slots, r.checks);
    }
  }

  // ---------------------------------------------------------------- the poll timeout

  const TWO_31: int := 0x8000_0000
  const TWO_32: int := 0x1_0000_0000

  /** A 64-bit difference stored in a 32-bit int. */
  function Wrap32(d: int): int {
    (d + TWO_31) % TWO_32 - TWO_31
  }

  function Remaining(deadline: int, now: int): int {
    Max(0, Wrap32(deadline - now))
  }

  /** The narrowing is harmless exactly while no transfer is overdue by an amount whose low 32
      bits exceed 2^31 (the first such lateness is some 25 days). */
  lemma RemainingIsRight(deadline: int, now: int)
    requires deadline - now <= TRANSFER_TIMEOUT_MS
    ensures (Remaining(deadline, now) == Max(0, deadline - now))
            <==> (deadline >= now || (now - deadline) % TWO_32 <= TWO_31)
  {
    var late := now - deadline;
    if late > 0 {
      var q, r := late / TWO_32, late % TWO_32;
      assert late == q * TWO_32 + r;
      if r <= TWO_31 {
        WrapUnique(-late, -q, -r);
      } else {
        WrapUnique(-late, -q - 1, TWO_32 - r);
      }
    } else {
      WrapUnique(-late, 0, -late);
    }
  }

  /** It does harm to a transfer overdue by 2^31 + 1 ms: poll would sleep on for 2^31 - 1 ms. */
  lemma LongOverdueSleepsOn(deadline: int)
    ensures Remaining(deadline, deadline + TWO_31 + 1) == TWO_31 - 1
  {
    WrapUnique(-TWO_31 - 1, -1, TWO_31 - 1);
  }

  lemma WrapUnique(d: int, q: int, r: int)
    requires d == q * TWO_32 + r && -TWO_31 <= r < TWO_31
    ensures Wrap32(d) == r
  {
    var e := d + TWO_31;
    assert e == q * TWO_32 + (r + TWO_31);
    assert (e % TWO_32 - (r + TWO_31)) % TWO_32 == 0;
  }

  /** The poll timeout over the first n slots: -1 for none. */
  function PollTimeout(slots: seq<Slot>, now: int, n: nat): (timeout: int)
    requires n <= |slots|
    ensures timeout >= -1
  {
    if n == 0 then -1
    else
      var timeout := PollTimeout(slots, now, n - 1);
      var slot := slots[n - 1];
      if slot.fd == NO_FD then timeout
      else
        var remaining := Remaining(slot.deadline, now);
        if timeout == -1 || remaining < timeout then remaining else timeout
  }

  /** poll sleeps for ever exactly when nothing is being transferred, and otherwise until the
      earliest deadline. */
  lemma {:induction false} PollWakesForEarliestDeadline(slots: seq<Slot>, now: int, n: nat)
    requires n <= |slots|
    requires forall i | 0 <= i < n && slots[i].fd != NO_FD ::
               slots[i].deadline - now <= TRANSFER_TIMEOUT_MS
               && (slots[i].deadline >= now || (now - slots[i].deadline) % TWO_32 <= TWO_31)
    ensures var timeout := PollTimeout(slots, now, n);
            && (timeout == -1 <==> forall i | 0 <= i < n :: slots[i].fd == NO_FD)
            && (forall i | 0 <= i < n && slots[i].fd != NO_FD :: timeout <= Max(0, slots[i].deadline - now))
            && (timeout >= 0 ==> exists i :: 0 <= i < n && slots[i].fd != NO_FD
                                      && timeout == Max(0, slots[i].deadline - now))
  {
    if n > 0 {
      PollWakesForEarliestDeadline(slots, now, n - 1);
      if slots[n - 1].fd != NO_FD {
        RemainingIsRight(slots[n - 1].deadline, now);
      }
    }
  }

  // ---------------------------------------------------------------- the program's own state

  /** The process: its slots are updated in place; the last three fields are the kernel's account. */
  class Process {
    const text: seq<Byte>
    const transfers: array<Slot>
    var stopped: bool
    var open: map<int, Transfer>
    var closings: seq<Closing>
    var issued: nat

    ghost function View(): Owner
      reads this, transfers
    {
      Owner(transfers[..], stopped, open, closings, issued)
    }

    ghost predicate Inv()
      reads this, transfers
    {
      Valid(text, View())
    }

    constructor (text: seq<Byte>)
      ensures Inv() && this.text == text && View() == Start() && fresh(transfers)
    {
      this.text := text;
      transfers := new Slot[MAX_TRANSFERS](_ => Slot(NO_FD, 0, 0));
      stopped, open, closings, issued := false, map[], [], 0;
      new;
      assert transfers[..] == Start().slots;
    }

    method PutInSlot(i: nat, fd: int, now: int)
      requires i < transfers.Length
      modifies this`open, this`issued, transfers
      ensures View() == PutIn(old(View()), i, fd, now)
    {
      transfers[i] := Slot(fd, 0, now + TRANSFER_TIMEOUT_MS);
      open, issued := open[fd := Transfer(issued, i, [])], issued + 1;
    }

    method SourceSend(fd: int, settable: bool, now: int)
      requires Inv() && 0 <= fd && fd !in open
      modifies this`open, this`closings, this`issued, transfers
      ensures View() == Accept(old(View()), fd, settable, now) && Inv()
    {
      AcceptKeepsValid(text, View(), fd, settable, now);
      var i := 0;
      while i < MAX_TRANSFERS
        invariant i <= MAX_TRANSFERS && View() == old(View())
        invariant FirstFree(transfers[..], 0) == FirstFree(transfers[..], i)
      {
        if transfers[i].fd != NO_FD {
          i := i + 1;
          continue;
        }
        if !settable {
          break;
        }
        PutInSlot(i, fd, now);
        return;
      }
      closings, issued := closings + [Closing(Transfer(issued, i, []), Refused)], issued + 1;
    }

    method Close(i: nat, ending: Ending)
      requires i < transfers.Length && transfers[i].fd in open
      modifies this`open, this`closings, transfers
      ensures View() == CloseTransfer(old(View()), i, ending)
    {
      closings := closings + [Closing(open[transfers[i].fd], ending)];
      open := open - {transfers[i].fd};
      transfers[i] := transfers[i].(fd := NO_FD);
    }

    method Write(i: nat, count: nat, after: int)
      requires i < transfers.Length && transfers[i].fd in open && transfers[i].offset + count <= |text|
      modifies this`open, transfers
      ensures View() == Progress(text, old(View()), i, count, after)
    {
      var Slot(fd, offset, _) := transfers[i];
      var t := open[fd];
      open := open[fd := t.(bytes := t.bytes + text[offset..offset + count])];
      transfers[i] := Slot(fd, offset + count, after + TRANSFER_TIMEOUT_MS);
    }

    method ServeSlot(i: nat, revents: Revents, c: Check)
      requires Inv() && i < transfers.Length
      modifies this`open, this`closings, transfers
      ensures View() == CheckSlot(text, old(View()), i, revents, c) && Inv()
    {
      CheckKeepsValid(text, View(), i, revents, c);
      if transfers[i].fd == NO_FD { return; }
      if c.now >= transfers[i].deadline || revents.broken {
        Close(i, if c.now >= transfers[i].deadline then TimedOut else PeerGone);
        return;
      }
      if !revents.writable { return; }
      var offset := transfers[i].offset;
      var count := Min(c.count, Min(MAX_WRITE, |text| - offset));
      if count > 0 {
        Write(i, count, c.after);
      }
      if transfers[i].offset == |text| || (count < 0 && !c.transient) {
        Close(i, if transfers[i].offset == |text| then Completed else WriteFailed);
      }
    }

    method OnEvent(e: DisplayEvent)
      requires Inv()
      modifies this, transfers
      ensures View() == Handle(old(View()), e) && Inv()
    {
      match e
      case Send(fd, settable, now) =>
        if 0 <= fd && fd !in open {
          SourceSend(fd, settable, now);
        }
      case Cancelled | Lost =>
        HandleKeepsValid(text, View(), e);
        stopped := true;
    }

    method DispatchPending(events: seq<DisplayEvent>)
      requires Inv()
      modifies this, transfers
      ensures View() == HandleAll(old(View()), events) && Inv()
    {
      var i := 0;
      while i < |events|
        invariant i <= |events| && Inv()
        invariant HandleAll(old(View()), events) == HandleAll(View(), events[i..])
      {
        assert events[i..][1..] == events[i + 1..];
        OnEvent(events[i]);
        i := i + 1;
      }
    }

    method WriteLoop(polled: seq<Slot>, revents: seq<Revents>, checks: seq<Check>)
      requires Inv()
      modifies this`open, this`closings, transfers
      ensures View() == CheckAll(text, old(View()), 0, polled, revents, checks) && Inv()
    {
      var i := 0;
      while i < MAX_TRANSFERS
        invariant i <= MAX_TRANSFERS && Inv()
        invariant CheckAll(text, old(View()), 0, polled, revents, checks)
               == CheckAll(text, View(), i, polled, revents, checks)
      {
        ServeSlot(i, Answer(polled, revents, i), CheckAt(checks, i));
        i := i + 1;
      }
    }

    /** serve: runs until it exits or the input ends. */
    method Run(rounds: seq<Round>) returns (exit: Exit)
      requires Inv()
      modifies this, transfers
      ensures (View(), exit) == Serve(text, old(View()), rounds) && Inv()
    {
      var n := 0;
      while !stopped && n < |rounds|
        invariant n <= |rounds| && Inv()
        invariant Serve(text, old(View()), rounds) == Serve(text, View(), rounds[n..])
      {
        var r := rounds[n];
        assert rounds[n..][1..] == rounds[n + 1..];
        exit := Iterate(r);
        if exit.Exited? { return; }
        n := n + 1;
      }
      exit := if stopped then Exited(0) else Serving;
    }

    /** The timeout for the next poll, over the slots as they stand. */
    method ComputeTimeout(now: int) returns (timeout: int)
      requires transfers.Length == MAX_TRANSFERS
      ensures timeout == PollTimeout(transfers[..], now, MAX_TRANSFERS)
    {
      timeout := -1;
      for i := 0 to MAX_TRANSFERS
        invariant timeout == PollTimeout(transfers[..], now, i)
      {
        if transfers[i].fd == NO_FD { continue; }
        var remaining := Remaining(transfers[i].deadline, now);
        if timeout == -1 || remaining < timeout {
          timeout := remaining;
        }
      }
    }

    method Iterate(r: Round) returns (exit: Exit)
      requires Inv()
      modifies this, transfers
      ensures (View(), exit) == RunRound(text, old(View()), r) && Inv()
    {
      RoundKeepsValid(text, View(), r);
      var k := 0;
      while k < |r.prepares|
        invariant k <= |r.prepares| && Inv()
        invariant Prepare(old(View()), r.prepares) == Prepare(View(), r.prepares[k..])
      {
        assert r.prepares[k..][1..] == r.prepares[k + 1..];
        DispatchPending(r.prepares[k].events);
        if r.prepares[k].failed || stopped { return Exited(0); }
        k := k + 1;
      }
      if r.flushFailed { return Exited(-1); }
      var polled := transfers[..];
      var _ := ComputeTimeout(r.now);
      if r.poll.Interrupted? { return Serving; }
      if r.poll.PollFailed? || r.poll.readFailed || r.poll.displayBroken { return Exited(-1); }
      DispatchPending(r.dispatch.events);
      if r.dispatch.failed { return Exited(-1); }
      WriteLoop(polled, r.poll.slots, r.checks);
      return Serving;
    }
  }

  // ---------------------------------------------------------------- reading the text

  // One read: how many bytes it takes (0 or less with an error, which may be an interruption).
  datatype ReadResult = Took(count: nat) | ReadInterrupted | ReadFailed

  /** read_text over an input that reads hand out in any pieces: it succeeds only with the
      whole input, and only when that is at most 16 MiB. */
  method ReadText(input: seq<Byte>, answers: seq<ReadResult>) returns (text: seq<Byte>, ok: bool, ended: bool)
    requires forall r | r in answers && r.Took? :: r.count > 0
    ensures ended && ok ==> text == input && |input| <= 16_777_216
    ensures ended && |input| > 16_777_216 ==> !ok
    ensures ended && ReadFailed !in answers ==> (ok <==> |input| <= 16_777_216)
    ensures text <= input && |text| <= 16_777_217
  {
    text, ok, ended := [], false, false;
    var n := 0;
    while |text| <= MAX_TEXT_BYTES && n < |answers|
      invariant n <= |answers| && text <= input && |text| <= MAX_TEXT_BYTES + 1
    {
      var r := answers[n];
      n := n + 1;
      match r
      case ReadInterrupted =>
      case ReadFailed => return text, false, true;
      case Took(count) =>
        if |text| == |input| { return text, true, true; }
        var taken := Min(count, Min(|input| - |text|, MAX_TEXT_BYTES + 1 - |text|));
        text := text + input[|text|..|text| + taken];
    }
    ended := |text| > MAX_TEXT_BYTES;
  }
}
