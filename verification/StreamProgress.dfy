/** What a terminal subscriber gets if nobody interferes: every tick produces the next chunk, and
    in the end everything has been sent. */
module StreamProgress {
  import opened Numbers
  import opened Seqs
  import opened TerminalStream

  /** All that was sent or waits to be sent for a stream, in order. */
  function Output(s: State, id: nat): seq<Message> {
    MessagesOf(s.sent, id) + MessagesOf(s.pending, id)
  }

  lemma RespondKeepsStreams(s: State, r: Reply)
    ensures var t := Respond(s, r);
            t.streams == s.streams && t.current == s.current && t.closed == s.closed
  {}

  lemma RespondOutputs(s: State, r: Reply)
    requires IsCurrent(s, r.stream) && (s.delayed || s.pending == [])
    ensures Output(Respond(s, r), r.stream) == Output(s, r.stream) + [r.message]
  {
    RespondAdds(s, r, r.stream);
    var sent := MessagesOf(s.sent, r.stream);
    if s.delayed {
      Reassociate(sent, MessagesOf(s.pending, r.stream), [r.message]);
    } else {
      Nothing(sent);
      Nothing(sent + [r.message]);
    }
  }

  /** A tick of a stream that stands and has chunks left sends the next one, or has it wait, and
      the interval goes on. */
  lemma TickProduces(s: State, id: nat)
    requires Invariant(s) && IsCurrent(s, id) && s.streams[id].live && s.streams[id].chunkIndex < 5
    ensures var n, t := s.streams[id].chunkIndex, OnTick(s, id);
            && IsCurrent(t, id) && t.streams[id] == s.streams[id].(chunkIndex := n + 1)
            && (forall other | 0 <= other < |s.streams| && other != id :: t.streams[other] == s.streams[other])
            && |t.streams| == |s.streams| && t.current == s.current && t.closed == s.closed
            && Output(t, id) == Output(s, id) + [Data(n)]
            && (s.delayed ==> t.sent == s.sent) && (!s.delayed ==> t.pending == s.pending)
  {
    var r := Reply(id, Data(s.streams[id].chunkIndex));
    RespondKeepsStreams(s, r);
    RespondOutputs(s, r);
  }

  /** A tick with nothing left to send, or nobody to send it to, stops the interval; a stopped
      one does not tick. Nothing else changes. */
  lemma TickStops(s: State, id: nat)
    requires id < |s.streams|
    requires !s.streams[id].live || !IsCurrent(s, id) || s.streams[id].chunkIndex >= 5
    ensures OnTick(s, id) == s.(streams := s.streams[id := s.streams[id].(live := false)])
  {
    assert s.streams[id := s.streams[id]] == s.streams;
  }

  // ---------------------------------------------------------------- a subscription left alone

  /** An event that does not end the subscription of a place. */
  predicate LeavesAlone(e: Event, place: Place) {
    e != Subscribe(place) && e != Unsubscribe(place) && e != Close(place.socket)
  }

  /** A subscription that stands and whose interval runs until everything is produced. */
  predicate Underway(s: State, id: nat) {
    IsCurrent(s, id) && s.streams[id].chunkIndex <= 5 && (s.streams[id].live || s.streams[id].chunkIndex == 5)
  }

  function Ticks(events: seq<Event>, id: nat): nat {
    if events == [] then 0 else (if events[0] == Tick(id) then 1 else 0) + Ticks(events[1..], id)
  }

  lemma SubscribeLeavesOthers(s: State, place: Place, id: nat)
    requires Invariant(s) && Underway(s, id) && s.streams[id].place != place
    ensures var t := OnSubscribe(s, place);
            Underway(t, id) && t.streams[id] == s.streams[id]
  {
    RespondKeepsStreams(Begin(s, place), Reply(|s.streams|, Scrollback));
    ClearKeeps(s, place);
  }

  lemma TickLeavesOthers(s: State, other: nat, id: nat)
    requires Invariant(s) && Underway(s, id) && other != id
    ensures Underway(OnTick(s, other), id) && OnTick(s, other).streams[id] == s.streams[id]
  {
    if other < |s.streams| {
      RespondKeepsStreams(s, Reply(other, Data(s.streams[other].chunkIndex)));
    }
  }

  lemma StepGoesOn(s: State, e: Event, id: nat)
    requires Invariant(s) && Underway(s, id) && LeavesAlone(e, s.streams[id].place)
    ensures var t := Step(s, e);
            && Underway(t, id) && t.streams[id].place == s.streams[id].place
            && t.streams[id].chunkIndex == Min(5, s.streams[id].chunkIndex + if e == Tick(id) then 1 else 0)
  {
    match e
    case Subscribe(place) => SubscribeLeavesOthers(s, place, id);
    case Unsubscribe(place) =>
    case Tick(other) =>
      if other != id {
        TickLeavesOthers(s, other, id);
      } else if s.streams[id].live && s.streams[id].chunkIndex < 5 {
        TickProduces(s, id);
      } else {
        TickStops(s, id);
      }
    case Close(socket) =>
    case Deliver =>
  }

  predicate AllLeaveAlone(events: seq<Event>, place: Place) {
    forall e | e in events :: LeavesAlone(e, place)
  }

  lemma FirstAndRest(events: seq<Event>, place: Place)
    requires events != [] && AllLeaveAlone(events, place)
    ensures LeavesAlone(events[0], place) && AllLeaveAlone(events[1..], place)
  {
    assert events[0] in events;
  }

  /** In a state of the invariant, subscription id stands at this place with n chunks behind it. */
  ghost predicate Standing(s: State, id: nat, place: Place, n: nat) {
    Invariant(s) && Underway(s, id) && s.streams[id].place == place && s.streams[id].chunkIndex == n
  }

  lemma StepStands(s: State, e: Event, id: nat, place: Place, n: nat)
    requires Standing(s, id, place, n) && LeavesAlone(e, place)
    ensures Standing(Step(s, e), id, place, Min(5, n + if e == Tick(id) then 1 else 0))
  {
    StepGoesOn(s, e, id);
    StepKeepsInvariant(s, e);
  }

  /** A subscription left alone stands, whatever happens to the others, and has produced one chunk
      for each of its ticks until there are no more. */
  lemma {:induction false} LeftAloneGoesOn(s: State, events: seq<Event>, id: nat, place: Place, n: nat)
    requires Standing(s, id, place, n) && AllLeaveAlone(events, place)
    ensures Standing(Run(s, events), id, place, Min(5, n + Ticks(events, id)))
    decreases |events|
  {
    if events != [] {
      FirstAndRest(events, place);
      StepStands(s, events[0], id, place, n);
      LeftAloneGoesOn(Step(s, events[0]), events[1..], id, place, Min(5, n + if events[0] == Tick(id) then 1 else 0));
    }
  }

  // ---------------------------------------------------------------- everything arrives

  predicate AllDeliver(events: seq<Event>) {
    forall e | e in events :: e == Deliver
  }

  /** As many deliveries as there are replies waiting leave none. */
  lemma {:induction false} DeliveriesEmpty(s: State, deliveries: seq<Event>)
    requires AllDeliver(deliveries) && |deliveries| >= |s.pending|
    ensures Run(s, deliveries).pending == []
    decreases |deliveries|
  {
    if deliveries != [] {
      assert deliveries[0] in deliveries && forall e | e in deliveries[1..] :: e in deliveries;
      DeliveriesEmpty(OnDeliver(s), deliveries[1..]);
    }
  }

  lemma {:induction false} RunAppend(s: State, a: seq<Event>, b: seq<Event>)
    ensures Run(s, a + b) == Run(Run(s, a), b)
    decreases |a|
  {
    if a == [] {
      Nothing(b);
    } else {
      RestOfSum(a, b);
      RunAppend(Step(s, a[0]), a[1..], b);
    }
  }

  lemma SubscribeStands(s: State, place: Place)
    requires Invariant(s) && place.socket !in s.closed
    ensures Standing(OnSubscribe(s, place), |s.streams|, place, 0)
  {
    SubscribeKeeps(s, place);
    BeginKeeps(s, place);
    RespondKeepsStreams(Begin(s, place), Reply(|s.streams|, Scrollback));
  }

  /** When nothing waits, what stands has been sent all it has produced. */
  lemma AllProducedIsSent(s: State, id: nat, place: Place, n: nat)
    requires Standing(s, id, place, n) && s.pending == []
    ensures MessagesOf(s.sent, id) == Produced(n)
  {
    assert Orderly(s, id);
    Nothing(MessagesOf(s.sent, id));
  }

  lemma FiveChunks()
    ensures Produced(5) == [Scrollback, Data(0), Data(1), Data(2), Data(3), Data(4)]
  {
    assert Produced(1) == [Scrollback, Data(0)];
    assert Produced(3) == [Scrollback, Data(0), Data(1), Data(2)];
  }

  lemma DeliveriesLeaveAlone(deliveries: seq<Event>, id: nat, place: Place)
    requires AllDeliver(deliveries)
    ensures AllLeaveAlone(deliveries, place) && Ticks(deliveries, id) == 0
    decreases |deliveries|
  {
    if deliveries != [] {
      assert deliveries[0] in deliveries && forall e | e in deliveries[1..] :: e in deliveries;
      DeliveriesLeaveAlone(deliveries[1..], id, place);
    }
  }

  /** A new subscription on an open socket, left alone while its interval ticks five times or more
      and until what waits has been delivered, has been sent the scrollback and the five chunks,
      each once and in order. */
  lemma SubscriberGetsEverything(s: State, place: Place, events: seq<Event>, deliveries: seq<Event>)
    requires Invariant(s) && place.socket !in s.closed
    requires AllLeaveAlone(events, place) && Ticks(events, |s.streams|) >= 5
    requires AllDeliver(deliveries) && |deliveries| >= |Run(OnSubscribe(s, place), events).pending|
    ensures MessagesOf(Run(OnSubscribe(s, place), events + deliveries).sent, |s.streams|)
         == [Scrollback, Data(0), Data(1), Data(2), Data(3), Data(4)]
  {
    var id, t := |s.streams|, OnSubscribe(s, place);
    SubscribeStands(s, place);
    LeftAloneGoesOn(t, events, id, place, 0);
    DeliveriesLeaveAlone(deliveries, id, place);
    LeftAloneGoesOn(Run(t, events), deliveries, id, place, 5);
    DeliveriesEmpty(Run(t, events), deliveries);
    RunAppend(t, events, deliveries);
    AllProducedIsSent(Run(t, events + deliveries), id, place, 5);
    FiveChunks();
  }
}
