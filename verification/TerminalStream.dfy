/** Terminal streaming of the mock server: subscriptions, their interval timers, and replies that
    are delivered later and only if their subscription still stands. */
module TerminalStream {
  import opened Options

  // How many chunks a stream has to send.
  const CHUNKS: nat := 5

  // A socket and a terminal on it.
  datatype Place = Place(socket: nat, terminal: string)

  datatype Message = Scrollback | Data(chunk: nat)

  /** A subscription; `live` says whether its interval timer runs. Streams are known by their
      number, in order of subscription. */
  datatype Stream = Stream(place: Place, live: bool, chunkIndex: nat)

  datatype Reply = Reply(stream: nat, message: Message)

  /** `current` is the table of streams by place; `pending` the replies whose delay still runs,
      oldest first; `sent` everything sent. With a delay of zero replies do not wait. */
  datatype State = State(
    delayed: bool,
    current: map<Place, nat>,
    streams: seq<Stream>,
    closed: set<nat>,
    pending: seq<Reply>,
    sent: seq<Reply>)

  datatype Event =
    | Subscribe(place: Place)
    | Unsubscribe(place: Place)
    | Tick(stream: nat)
    | Close(socket: nat)
    | Deliver

  function Initial(delayed: bool): State {
    State(delayed, map[], [], {}, [], [])
  }

  predicate IsCurrent(s: State, id: nat) {
    && id < |s.streams|
    && s.streams[id].place in s.current && s.current[s.streams[id].place] == id
    && s.streams[id].place.socket !in s.closed
  }

  function StopInterval(s: State, id: nat): State
    requires id < |s.streams|
  {
    s.(streams := s.streams[id := s.streams[id].(live := false)])
  }

  function Clear(s: State, place: Place): State {
    if place in s.current && s.current[place] < |s.streams|
    then StopInterval(s, s.current[place]).(current := s.current - {place})
    else s
  }

  function Begin(s: State, place: Place): State {
    var t := Clear(s, place);
    t.(current := t.current[place := |t.streams|], streams := t.streams + [Stream(place, false, 0)])
  }

  function Send(s: State, r: Reply): State {
    if IsCurrent(s, r.stream) then s.(sent := s.sent + [r]) else s
  }

  function Respond(s: State, r: Reply): State {
    if s.delayed then s.(pending := s.pending + [r]) else Send(s, r)
  }

  function StartInterval(s: State, id: nat): State
    requires id < |s.streams|
  {
    s.(streams := s.streams[id := s.streams[id].(live := true)])
  }

  function OnSubscribe(s: State, place: Place): State {
    var t := Begin(s, place);
    var id := |t.streams| - 1;
    StartInterval(Respond(t, Reply(id, Scrollback)), id)
  }

  /** The interval's callback; a stopped interval does not fire. */
  function OnTick(s: State, id: nat): State {
    if id >= |s.streams| || !s.streams[id].live then s
    else if !IsCurrent(s, id) || s.streams[id].chunkIndex >= CHUNKS then StopInterval(s, id)
    else
      var t := Respond(s, Reply(id, Data(s.streams[id].chunkIndex)));
      t.(streams := t.streams[id := t.streams[id].(chunkIndex := t.streams[id].chunkIndex + 1)])
  }

  function OnDeliver(s: State): State {
    if s.pending == [] then s else Send(s.(pending := s.pending[1..]), s.pending[0])
  }

  function Step(s: State, e: Event): State {
    match e
    case Subscribe(place) => OnSubscribe(s, place)
    case Unsubscribe(place) => Clear(s, place)
    case Tick(id) => OnTick(s, id)
    case Close(socket) => s.(closed := s.closed + {socket})
    case Deliver => OnDeliver(s)
  }

  function Run(s: State, events: seq<Event>): State
    decreases |events|
  {
    if events == [] then s else Run(Step(s, events[0]), events[1..])
  }

  // ---------------------------------------------------------------- the invariant

  /** The messages among the replies that are for one stream. */
  function MessagesOf(replies: seq<Reply>, id: nat): seq<Message> {
    if replies == [] then []
    else
      MessagesOf(replies[..|replies| - 1], id)
      + (if replies[|replies| - 1].stream == id then [replies[|replies| - 1].message] else [])
  }

  /** What a stream with this many chunks behind it has produced. */
  function Produced(chunks: nat): seq<Message> {
    if chunks == 0 then [Scrollback] else Produced(chunks - 1) + [Data(chunks - 1)]
  }

  ghost predicate Tables(s: State) {
    && (forall p | p in s.current :: s.current[p] < |s.streams| && s.streams[s.current[p]].place == p)
    && (forall id | 0 <= id < |s.streams| && s.streams[id].live ::
          s.streams[id].place in s.current && s.current[s.streams[id].place] == id)
    && (forall id | 0 <= id < |s.streams| :: s.streams[id].chunkIndex <= CHUNKS)
    && (forall k | 0 <= k < |s.pending| :: s.pending[k].stream < |s.streams|)
    && (forall k | 0 <= k < |s.sent| :: s.sent[k].stream < |s.streams|)
    && (!s.delayed ==> s.pending == [])
  }

  /** What one stream's subscriber has got: a prefix of what was produced; and if the
      subscription stands, all of it but what is still pending. */
  ghost predicate Orderly(s: State, id: nat)
    requires id < |s.streams|
  {
    && MessagesOf(s.sent, id) <= Produced(s.streams[id].chunkIndex)
    && (IsCurrent(s, id) ==>
          MessagesOf(s.sent, id) + MessagesOf(s.pending, id) == Produced(s.streams[id].chunkIndex))
  }

  ghost predicate Invariant(s: State) {
    Tables(s) && forall id | 0 <= id < |s.streams| :: Orderly(s, id)
  }

  lemma MessagesAppend(replies: seq<Reply>, r: Reply, id: nat)
    ensures MessagesOf(replies + [r], id) == MessagesOf(replies, id) + (if r.stream == id then [r.message] else [])
  {
    assert (replies + [r])[..|replies|] == replies;
  }

  lemma {:induction false} MessagesFirst(r: Reply, replies: seq<Reply>, id: nat)
    ensures MessagesOf([r] + replies, id) == (if r.stream == id then [r.message] else []) + MessagesOf(replies, id)
    decreases |replies|
  {
    var all := [r] + replies;
    if replies == [] {
      assert all[..|all| - 1] == [];
    } else {
      assert all[..|all| - 1] == [r] + replies[..|replies| - 1];
      MessagesFirst(r, replies[..|replies| - 1], id);
    }
  }

  lemma {:induction false} NoMessages(replies: seq<Reply>, id: nat)
    requires forall k | 0 <= k < |replies| :: replies[k].stream != id
    ensures MessagesOf(replies, id) == []
    decreases |replies|
  {
    if replies != [] {
      NoMessages(replies[..|replies| - 1], id);
    }
  }

  lemma {:induction false} ProducedGrows(a: nat, b: nat)
    requires a <= b
    ensures Produced(a) <= Produced(b)
    decreases b
  {
    if a < b {
      ProducedGrows(a, b - 1);
    }
  }

  lemma ClearKeeps(s: State, place: Place)
    requires Invariant(s)
    ensures Invariant(Clear(s, place)) && place !in Clear(s, place).current
    ensures |Clear(s, place).streams| == |s.streams|
  {
    var t := Clear(s, place);
    forall id | 0 <= id < |t.streams| ensures Orderly(t, id) {
      assert Orderly(s, id);
    }
  }

  /** A new subscription, before its scrollback. */
  lemma BeginKeeps(s: State, place: Place)
    requires Invariant(s)
    ensures var t := Begin(s, place);
            && Tables(t)
            && |t.streams| == |s.streams| + 1
            && t.streams[|s.streams|] == Stream(place, false, 0)
            && t.current[place] == |s.streams|
            && (forall id | 0 <= id < |s.streams| :: Orderly(t, id))
            && MessagesOf(t.sent, |s.streams|) == [] && MessagesOf(t.pending, |s.streams|) == []
  {
    ClearKeeps(s, place);
    var c := Clear(s, place);
    var t := Begin(s, place);
    forall id | 0 <= id < |s.streams| ensures Orderly(t, id) {
      assert Orderly(c, id);
    }
    NoMessages(t.sent, |s.streams|);
    NoMessages(t.pending, |s.streams|);
  }

  /** Responding adds the reply to what is sent or pending of a stream that stands, and leaves
      the other streams' messages alone. */
  lemma RespondAdds(s: State, r: Reply, id: nat)
    ensures var t := Respond(s, r);
            && t == s.(sent := t.sent, pending := t.pending)
            && (r.stream != id ==>
                  MessagesOf(t.sent, id) == MessagesOf(s.sent, id)
                  && MessagesOf(t.pending, id) == MessagesOf(s.pending, id))
            && (r.stream == id && s.delayed ==>
                  MessagesOf(t.sent, id) == MessagesOf(s.sent, id)
                  && MessagesOf(t.pending, id) == MessagesOf(s.pending, id) + [r.message])
            && (r.stream == id && !s.delayed && IsCurrent(s, id) ==>
                  MessagesOf(t.sent, id) == MessagesOf(s.sent, id) + [r.message]
                  && MessagesOf(t.pending, id) == MessagesOf(s.pending, id))
            && (r.stream == id && !s.delayed && !IsCurrent(s, id) ==> t == s)
  {
    MessagesAppend(s.sent, r, id);
    MessagesAppend(s.pending, r, id);
  }

  /** A stream whose messages and progress are untouched stays orderly. */
  lemma OrderlyFrame(s: State, t: State, id: nat)
    requires id < |s.streams| && id < |t.streams| && Orderly(s, id)
    requires t.streams[id].chunkIndex == s.streams[id].chunkIndex
    requires MessagesOf(t.sent, id) == MessagesOf(s.sent, id)
    requires IsCurrent(t, id) ==> IsCurrent(s, id) && MessagesOf(t.pending, id) == MessagesOf(s.pending, id)
    ensures Orderly(t, id)
  {}

  lemma RespondTables(s: State, r: Reply)
    requires Tables(s) && r.stream < |s.streams|
    ensures Tables(Respond(s, r)) && Respond(s, r).streams == s.streams && Respond(s, r).current == s.current
  {
    var t := Respond(s, r);
    assert forall k | 0 <= k < |t.sent| :: t.sent[k].stream < |s.streams|;
    assert forall k | 0 <= k < |t.pending| :: t.pending[k].stream < |s.streams|;
  }

  lemma ChangeStreamTables(s: State, id: nat, stream: Stream)
    requires Tables(s) && id < |s.streams|
    requires stream.place == s.streams[id].place && stream.chunkIndex <= CHUNKS
    requires stream.live ==> stream.place in s.current && s.current[stream.place] == id
    ensures Tables(s.(streams := s.streams[id := stream]))
  {}

  lemma SubscribeTables(s: State, place: Place)
    requires Invariant(s)
    ensures Tables(OnSubscribe(s, place))
  {
    BeginKeeps(s, place);
    var t, id := Begin(s, place), |s.streams|;
    RespondTables(t, Reply(id, Scrollback));
    ChangeStreamTables(Respond(t, Reply(id, Scrollback)), id, Stream(place, true, 0));
  }

  lemma SubscribeOrderly(s: State, place: Place, other: nat)
    requires Invariant(s) && other < |OnSubscribe(s, place).streams|
    ensures Orderly(OnSubscribe(s, place), other)
  {
    var t, u, id := Begin(s, place), OnSubscribe(s, place), |s.streams|;
    BeginKeeps(s, place);
    RespondAdds(t, Reply(id, Scrollback), other);
    if other == id {
      assert Produced(0) == [Scrollback];
    } else {
      assert Orderly(t, other);
      OrderlyFrame(t, u, other);
    }
  }

  lemma SubscribeKeeps(s: State, place: Place)
    requires Invariant(s)
    ensures Invariant(OnSubscribe(s, place))
  {
    SubscribeTables(s, place);
    forall other | 0 <= other < |OnSubscribe(s, place).streams| ensures Orderly(OnSubscribe(s, place), other) {
      SubscribeOrderly(s, place, other);
    }
  }

  lemma TickTables(s: State, id: nat)
    requires Invariant(s)
    ensures Tables(OnTick(s, id)) && |OnTick(s, id).streams| == |s.streams|
  {
    if id < |s.streams| && s.streams[id].live {
      var stream := s.streams[id];
      if IsCurrent(s, id) && stream.chunkIndex < CHUNKS {
        var r := Reply(id, Data(stream.chunkIndex));
        RespondTables(s, r);
        ChangeStreamTables(Respond(s, r), id, stream.(chunkIndex := stream.chunkIndex + 1));
      } else {
        ChangeStreamTables(s, id, stream.(live := false));
      }
    }
  }

  lemma TickSends(s: State, id: nat, other: nat)
    requires Invariant(s) && id < |s.streams| && s.streams[id].live && other < |s.streams|
    requires IsCurrent(s, id) && s.streams[id].chunkIndex < CHUNKS
    ensures Orderly(OnTick(s, id), other)
  {
    var n, t := s.streams[id].chunkIndex, OnTick(s, id);
    assert Orderly(s, other);
    RespondAdds(s, Reply(id, Data(n)), other);
    if other == id {
      assert Produced(n + 1) == Produced(n) + [Data(n)];
      Regroup(MessagesOf(s.sent, id), MessagesOf(s.pending, id), [Data(n)]);
    } else {
      OrderlyFrame(s, t, other);
    }
  }

  lemma TickKeeps(s: State, id: nat)
    requires Invariant(s)
    ensures Invariant(OnTick(s, id))
  {
    TickTables(s, id);
    forall other | 0 <= other < |s.streams| ensures Orderly(OnTick(s, id), other) {
      assert Orderly(s, other);
      if id < |s.streams| && s.streams[id].live && IsCurrent(s, id) && s.streams[id].chunkIndex < CHUNKS {
        TickSends(s, id, other);
      } else {
        OrderlyFrame(s, OnTick(s, id), other);
      }
    }
  }

  lemma DeliverOrderly(s: State, id: nat)
    requires Invariant(s) && id < |s.streams| && s.pending != []
    ensures Orderly(OnDeliver(s), id)
  {
    var r, rest, t := s.pending[0], s.pending[1..], OnDeliver(s);
    assert Orderly(s, id);
    assert MessagesOf(s.pending, id) == (if r.stream == id then [r.message] else []) + MessagesOf(rest, id) by {
      assert s.pending == [r] + rest;
      MessagesFirst(r, rest, id);
    }
    if IsCurrent(s, r.stream) {
      assert t.sent == s.sent + [r] && t.pending == rest;
      MessagesAppend(s.sent, r, id);
      if r.stream == id {
        Regroup(MessagesOf(s.sent, id), [r.message], MessagesOf(rest, id));
      } else {
        OrderlyFrame(s, t, id);
      }
    } else {
      OrderlyFrame(s, t, id);
    }
  }

  lemma Regroup(a: seq<Message>, b: seq<Message>, c: seq<Message>)
    ensures a + (b + c) == (a + b) + c
    ensures a + b <= a + b + c
  {}

  lemma DeliverKeeps(s: State)
    requires Invariant(s)
    ensures Invariant(OnDeliver(s))
  {
    if s.pending != [] {
      forall id | 0 <= id < |s.streams| ensures Orderly(OnDeliver(s), id) {
        DeliverOrderly(s, id);
      }
    }
  }

  lemma StepKeepsInvariant(s: State, e: Event)
    requires Invariant(s)
    ensures Invariant(Step(s, e))
  {
    match e
    case Subscribe(place) => SubscribeKeeps(s, place);
    case Unsubscribe(place) => ClearKeeps(s, place);
    case Tick(id) => TickKeeps(s, id);
    case Close(socket) =>
      forall id | 0 <= id < |s.streams| ensures Orderly(Step(s, e), id) {
        assert Orderly(s, id);
      }
    case Deliver => DeliverKeeps(s);
  }

  lemma {:induction false} RunKeepsInvariant(s: State, events: seq<Event>)
    requires Invariant(s)
    ensures Invariant(Run(s, events))
    decreases |events|
  {
    if events != [] {
      StepKeepsInvariant(s, events[0]);
      RunKeepsInvariant(Step(s, events[0]), events[1..]);
    }
  }

  // ---------------------------------------------------------------- what it means

  /** In every run each socket and terminal has at most one running interval, that of its
      current stream; and a subscriber gets the scrollback and then the chunks in order, none
      twice and none left out before the last one it gets. */
  lemma StreamsAreOrderly(delayed: bool, events: seq<Event>, a: nat, b: nat)
    requires a < |Run(Initial(delayed), events).streams| && b < |Run(Initial(delayed), events).streams|
    ensures var s := Run(Initial(delayed), events);
            && (s.streams[a].live && s.streams[b].live && s.streams[a].place == s.streams[b].place ==> a == b)
            && MessagesOf(s.sent, a) <= Produced(CHUNKS)
            && (IsCurrent(s, a) && s.pending == [] ==> MessagesOf(s.sent, a) == Produced(s.streams[a].chunkIndex))
  {
    RunKeepsInvariant(Initial(delayed), events);
    var s := Run(Initial(delayed), events);
    assert Orderly(s, a);
    ProducedGrows(s.streams[a].chunkIndex, CHUNKS);
    assert MessagesOf(s.pending, a) == [] || s.pending != [];
  }

  /** Once a subscription is replaced, cancelled or its socket closed, it stays so. */
  lemma StepStaysEnded(s: State, e: Event, id: nat)
    requires Invariant(s) && id < |s.streams| && !IsCurrent(s, id)
    ensures id < |Step(s, e).streams| && !IsCurrent(Step(s, e), id)
    ensures MessagesOf(Step(s, e).sent, id) == MessagesOf(s.sent, id)
  {
    match e
    case Subscribe(place) => SubscribeStaysEnded(s, place, id);
    case Unsubscribe(place) =>
    case Tick(other) => TickStaysEnded(s, other, id);
    case Close(socket) =>
    case Deliver =>
      if s.pending != [] {
        MessagesAppend(s.sent, s.pending[0], id);
      }
  }

  lemma TickStaysEnded(s: State, other: nat, id: nat)
    requires Invariant(s) && id < |s.streams| && !IsCurrent(s, id)
    ensures var t := OnTick(s, other);
            id < |t.streams| && !IsCurrent(t, id) && MessagesOf(t.sent, id) == MessagesOf(s.sent, id)
  {
    if other < |s.streams| && s.streams[other].live && IsCurrent(s, other) {
      TickLeavesEnded(s, other, id);
    }
  }

  lemma TickLeavesEnded(s: State, other: nat, id: nat)
    requires Tables(s) && id < |s.streams| && IsCurrent(s, other) && !IsCurrent(s, id)
    ensures var t := OnTick(s, other);
            id < |t.streams| && !IsCurrent(t, id) && MessagesOf(t.sent, id) == MessagesOf(s.sent, id)
  {
    if s.streams[other].live && s.streams[other].chunkIndex < CHUNKS {
      var r := Reply(other, Data(s.streams[other].chunkIndex));
      var u := Respond(s, r);
      RespondAdds(s, r, id);
      assert u.streams == s.streams && u.current == s.current && u.closed == s.closed;
      assert OnTick(s, other).sent == u.sent;
    }
  }

  lemma SubscribeStaysEnded(s: State, place: Place, id: nat)
    requires Invariant(s) && id < |s.streams| && !IsCurrent(s, id)
    ensures var t := OnSubscribe(s, place);
            id < |t.streams| && !IsCurrent(t, id) && MessagesOf(t.sent, id) == MessagesOf(s.sent, id)
  {
    BeginKeeps(s, place);
    RespondAdds(Begin(s, place), Reply(|s.streams|, Scrollback), id);
  }

  /** Nothing is ever delivered for a subscription that has ended, however late. */
  lemma {:induction false} NothingAfterTheEnd(s: State, events: seq<Event>, id: nat)
    requires Invariant(s) && id < |s.streams| && !IsCurrent(s, id)
    ensures id < |Run(s, events).streams| && !IsCurrent(Run(s, events), id)
    ensures MessagesOf(Run(s, events).sent, id) == MessagesOf(s.sent, id)
    decreases |events|
  {
    if events != [] {
      StepStaysEnded(s, events[0], id);
      StepKeepsInvariant(s, events[0]);
      NothingAfterTheEnd(Step(s, events[0]), events[1..], id);
    }
  }

  /** Subscribing again to a place ends the subscription that was there; so do unsubscribing
      and closing the socket. */
  lemma ReplacedSubscriptionsEnd(s: State, place: Place, id: nat)
    requires Invariant(s) && IsCurrent(s, id) && s.streams[id].place == place
    ensures !IsCurrent(OnSubscribe(s, place), id) && !OnSubscribe(s, place).streams[id].live
    ensures !IsCurrent(Clear(s, place), id) && !Clear(s, place).streams[id].live
    ensures !IsCurrent(Step(s, Close(place.socket)), id)
  {
    BeginKeeps(s, place);
    RespondAdds(Begin(s, place), Reply(|s.streams|, Scrollback), id);
  }

  // ---------------------------------------------------------------- the server

  /** The server's tables, changed in place by requests and timers. */
  class Server {
    const delayed: bool
    var current: map<Place, nat>
    var streams: seq<Stream>
    var closed: set<nat>
    var pending: seq<Reply>
    var sent: seq<Reply>

    ghost function View(): State
      reads this
    {
      State(delayed, current, streams, closed, pending, sent)
    }

    constructor (delayed: bool)
      ensures View() == Initial(delayed)
    {
      this.delayed := delayed;
      current, streams, closed, pending, sent := map[], [], {}, [], [];
    }

    predicate StillCurrent(id: nat)
      reads this
    {
      && id < |streams|
      && streams[id].place in current && current[streams[id].place] == id
      && streams[id].place.socket !in closed
    }

    method StopTerminalStreamInterval(id: nat)
      requires id < |streams|
      modifies this`streams
      ensures View() == StopInterval(old(View()), id)
    {
      streams := streams[id := streams[id].(live := false)];
    }

    method ClearTerminalStream(place: Place)
      modifies this
      ensures View() == Clear(old(View()), place)
    {
      if place in current && current[place] < |streams| {
        StopTerminalStreamInterval(current[place]);
        current := current - {place};
      }
    }

    method BeginTerminalStream(place: Place) returns (id: nat)
      modifies this
      ensures View() == Begin(old(View()), place) && id == |streams| - 1
    {
      ClearTerminalStream(place);
      id := |streams|;
      current := current[place := id];
      streams := streams + [Stream(place, false, 0)];
    }

    method SendIfCurrent(r: Reply)
      modifies this`sent
      ensures View() == Send(old(View()), r)
    {
      if StillCurrent(r.stream) {
        sent := sent + [r];
      }
    }

    method RespondWith(r: Reply)
      modifies this`sent, this`pending
      ensures View() == Respond(old(View()), r)
    {
      if delayed {
        pending := pending + [r];
      } else {
        SendIfCurrent(r);
      }
    }

    method HandleSubscribe(place: Place)
      modifies this
      ensures View() == OnSubscribe(old(View()), place)
    {
      var id := BeginTerminalStream(place);
      RespondWith(Reply(id, Scrollback));
      streams := streams[id := streams[id].(live := true)];
    }

    method OnInterval(id: nat)
      modifies this
      ensures View() == OnTick(old(View()), id)
    {
      if id >= |streams| || !streams[id].live { return; }
      if !StillCurrent(id) {
        StopTerminalStreamInterval(id);
        return;
      }
      if streams[id].chunkIndex >= CHUNKS {
        StopTerminalStreamInterval(id);
        return;
      }
      RespondWith(Reply(id, Data(streams[id].chunkIndex)));
      streams := streams[id := streams[id].(chunkIndex := streams[id].chunkIndex + 1)];
    }

    method DeliverNext()
      modifies this`sent, this`pending
      ensures View() == OnDeliver(old(View()))
    {
      if pending != [] {
        var r := pending[0];
        pending := pending[1..];
        SendIfCurrent(r);
      }
    }

    /** Any interleaving of requests, timers, closing sockets and deliveries. */
    method Play(events: seq<Event>)
      requires Invariant(View())
      modifies this
      ensures View() == Run(old(View()), events) && Invariant(View())
    {
      var i := 0;
      while i < |events|
        invariant i <= |events| && Invariant(View())
        invariant Run(old(View()), events) == Run(View(), events[i..])
      {
        assert events[i..][1..] == events[i + 1..];
        StepKeepsInvariant(View(), events[i]);
        match events[i] {
          case Subscribe(place) => HandleSubscribe(place);
          case Unsubscribe(place) => ClearTerminalStream(place);
          case Tick(id) => OnInterval(id);
          case Close(socket) => closed := closed + {socket};
          case Deliver => DeliverNext();
        }
        i := i + 1;
      }
    }
  }
}
