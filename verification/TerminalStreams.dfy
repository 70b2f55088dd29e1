// The terminal streams of the mock host: every subscription cancels the one before it,
// and delayed responses are delivered only while their stream is current
// (mobile/scripts/mock-server-terminal-stream.ts, mobile/scripts/mock-server-rpc-handlers.ts).
module TerminalStreams {

  type Socket = nat
  type Terminal = string
  type StreamId = nat
  type Key = (Socket, Terminal)

  // One subscription: whether its interval timer runs, and the next chunk to emit.
  datatype Stream = Stream(key: Key, ticking: bool, chunkIndex: nat)

  datatype Payload = Scrollback | Chunk(index: nat)

  datatype Delivery = Delivery(stream: StreamId, payload: Payload)

  // `current` is the registry, `queue` the responses waiting for their delay - equal
  // delays run out in order - and `sent` what reached a socket.
  datatype State = State(
    current: map<Key, StreamId>,
    streams: map<StreamId, Stream>,
    closed: set<Socket>,
    queue: seq<Delivery>,
    sent: seq<Delivery>)

  const EMPTY := State(map[], map[], {}, [], [])

  // The scenario: how many chunks a stream emits, and whether responses are delayed.
  datatype Scenario = Scenario(chunkCount: nat, delayed: bool)

  datatype Event =
    | Subscribe(key: Key, id: StreamId)
    | Unsubscribe(key: Key)
    | Tick(id: StreamId)
    | Deliver
    | Close(socket: Socket)

  predicate IsCurrent(s: State, id: StreamId) {
    && id in s.streams
    && var key := s.streams[id].key;
       key in s.current && s.current[key] == id && key.0 !in s.closed
  }

  function StopTicking(s: State, id: StreamId): State {
    if id in s.streams then s.(streams := s.streams[id := s.streams[id].(ticking := false)]) else s
  }

  function ClearStream(s: State, key: Key): State {
    if key in s.current then
      StopTicking(s, s.current[key]).(current := map k | k in s.current && k != key :: s.current[k])
    else s
  }

  // The guarded delivery of `respond`.
  function SendIfCurrent(s: State, d: Delivery): State {
    if IsCurrent(s, d.stream) then s.(sent := s.sent + [d]) else s
  }

  function Respond(scenario: Scenario, s: State, d: Delivery): State {
    if scenario.delayed then s.(queue := s.queue + [d]) else SendIfCurrent(s, d)
  }

  // A new stream is a new object; a tick needs a running timer, a delivery a waiting one.
  predicate Enabled(s: State, e: Event) {
    match e
    case Subscribe(_, id) => id !in s.streams
    case Tick(id) => id in s.streams && s.streams[id].ticking
    case Deliver => s.queue != []
    case _ => true
  }

  function Apply(scenario: Scenario, s: State, e: Event): State
    requires Enabled(s, e)
  {
    match e
    case Subscribe(key, id) =>
      var cleared := ClearStream(s, key);
      var begun := cleared.(current := cleared.current[key := id],
                            streams := cleared.streams[id := Stream(key, false, 0)]);
      var responded := Respond(scenario, begun, Delivery(id, Scrollback));
      responded.(streams := responded.streams[id := responded.streams[id].(ticking := true)])
    case Unsubscribe(key) => ClearStream(s, key)
    case Tick(id) =>
      var index := s.streams[id].chunkIndex;
      if !IsCurrent(s, id) || index >= scenario.chunkCount then StopTicking(s, id)
      else
        var responded := Respond(scenario, s, Delivery(id, Chunk(index)));
        responded.(streams := responded.streams[id := responded.streams[id].(chunkIndex := index + 1)])
    case Deliver => SendIfCurrent(s.(queue := s.queue[1..]), s.queue[0])
    case Close(socket) => s.(closed := s.closed + {socket})
  }

  predicate Feasible(scenario: Scenario, s: State, events: seq<Event>)
    decreases |events|
  {
    events == [] || (Enabled(s, events[0]) && Feasible(scenario, Apply(scenario, s, events[0]), events[1..]))
  }

  function After(scenario: Scenario, s: State, events: seq<Event>): State
    requires Feasible(scenario, s, events)
    decreases |events|
  {
    if events == [] then s else After(scenario, Apply(scenario, s, events[0]), events[1..])
  }

  // ---------------------------------------------------------------------------
  // What a stream has emitted

  function Of(deliveries: seq<Delivery>, id: StreamId): seq<Payload> {
    if deliveries == [] then []
    else (if deliveries[0].stream == id then [deliveries[0].payload] else []) + Of(deliveries[1..], id)
  }

  lemma {:induction false} OfAppend(deliveries: seq<Delivery>, d: Delivery, id: StreamId)
    ensures Of(deliveries + [d], id) == Of(deliveries, id) + (if d.stream == id then [d.payload] else [])
  {
    if deliveries == [] {
      assert (deliveries + [d])[1..] == [];
    } else {
      var first := if deliveries[0].stream == id then [deliveries[0].payload] else [];
      var last := if d.stream == id then [d.payload] else [];
      assert (deliveries + [d])[1..] == deliveries[1..] + [d];
      assert Of(deliveries + [d], id) == first + Of(deliveries[1..] + [d], id);
      OfAppend(deliveries[1..], d, id);
      assert Of(deliveries, id) == first + Of(deliveries[1..], id);
      hide Of;
      assert first + (Of(deliveries[1..], id) + last) == first + Of(deliveries[1..], id) + last;
    }
  }

  // The scrollback and the first n chunks.
  function Emission(n: nat): seq<Payload> {
    if n == 0 then [Scrollback] else Emission(n - 1) + [Chunk(n - 1)]
  }

  lemma {:induction false} EmissionGrows(n: nat, m: nat)
    requires n <= m
    ensures Emission(n) <= Emission(m)
    decreases m
  {
    if n < m {
      EmissionGrows(n, m - 1);
    }
  }

  predicate Registered(s: State) {
    forall key <- s.current :: s.current[key] in s.streams && s.streams[s.current[key]].key == key
  }

  // A running timer belongs to the registered stream of its socket and terminal.
  predicate TimersAreRegistered(s: State) {
    forall id <- s.streams :: s.streams[id].ticking ==>
      s.streams[id].key in s.current && s.current[s.streams[id].key] == id
  }

  // What was sent and what waits is what was emitted, while current; otherwise what was
  // sent is the beginning of it.
  predicate Conserved(s: State, id: StreamId, emitted: seq<Payload>) {
    && Of(s.sent, id) <= emitted
    && (IsCurrent(s, id) ==> Of(s.sent, id) + Of(s.queue, id) == emitted)
  }

  predicate Accounted(scenario: Scenario, s: State, id: StreamId)
    requires id in s.streams
  {
    var stream := s.streams[id];
    && stream.chunkIndex <= scenario.chunkCount
    && Conserved(s, id, Emission(stream.chunkIndex))
    && (IsCurrent(s, id) && !stream.ticking ==> stream.chunkIndex == scenario.chunkCount)
  }

  // Deliveries belong to streams that were begun.
  predicate Begun(deliveries: seq<Delivery>, streams: map<StreamId, Stream>) {
    forall i :: 0 <= i < |deliveries| ==> deliveries[i].stream in streams
  }

  predicate Structured(scenario: Scenario, s: State) {
    && Registered(s) && TimersAreRegistered(s)
    && (!scenario.delayed ==> s.queue == [])
    && Begun(s.sent, s.streams) && Begun(s.queue, s.streams)
  }

  predicate Invariant(scenario: Scenario, s: State) {
    && Structured(scenario, s)
    && (forall id <- s.streams :: Accounted(scenario, s, id))
  }

  lemma RespondKeepsBegun(scenario: Scenario, s: State, d: Delivery)
    requires Begun(s.sent, s.streams) && Begun(s.queue, s.streams) && d.stream in s.streams
    ensures var t := Respond(scenario, s, d);
            Begun(t.sent, t.streams) && Begun(t.queue, t.streams)
  {
  }

  lemma BegunGrows(deliveries: seq<Delivery>, streams: map<StreamId, Stream>, more: map<StreamId, Stream>)
    requires Begun(deliveries, streams) && streams.Keys <= more.Keys
    ensures Begun(deliveries, more)
  {
  }

  lemma RespondConserves(scenario: Scenario, s: State, d: Delivery, id: StreamId, emitted: seq<Payload>)
    requires Conserved(s, id, emitted) && (!scenario.delayed ==> s.queue == [])
    ensures Conserved(Respond(scenario, s, d), id, if d.stream == id then emitted + [d.payload] else emitted)
  {
    OfAppend(s.sent, d, id);
    OfAppend(s.queue, d, id);
    assert Of(s.sent, id) + [] == Of(s.sent, id) && Of(s.queue, id) + [] == Of(s.queue, id);
    assert !scenario.delayed ==> Of(s.queue, id) == [];
    hide Of;
    if IsCurrent(s, id) && scenario.delayed && d.stream == id {
      assert Of(s.sent, id) + (Of(s.queue, id) + [d.payload]) == emitted + [d.payload];
    }
  }

  // Changes to other streams, and to timers and counters, do not matter to conservation.
  lemma ConservedElsewhere(s: State, t: State, id: StreamId, emitted: seq<Payload>)
    requires Conserved(s, id, emitted) && t.sent == s.sent && t.queue == s.queue
    requires IsCurrent(t, id) ==> IsCurrent(s, id)
    ensures Conserved(t, id, emitted)
  {
    hide Of, IsCurrent;
  }

  lemma {:induction false} OfUnknown(deliveries: seq<Delivery>, id: StreamId)
    requires forall i :: 0 <= i < |deliveries| ==> deliveries[i].stream != id
    ensures Of(deliveries, id) == []
  {
    if deliveries != [] {
      OfUnknown(deliveries[1..], id);
    }
  }

  lemma ClearKeepsInvariant(scenario: Scenario, s: State, key: Key)
    requires Invariant(scenario, s)
    ensures Invariant(scenario, ClearStream(s, key))
    ensures key !in ClearStream(s, key).current
    ensures ClearStream(s, key).streams.Keys == s.streams.Keys
  {
    hide Of, Emission;
    var t := ClearStream(s, key);
    forall id <- t.streams
      ensures Accounted(scenario, t, id)
    {
      assert Accounted(scenario, s, id);
    }
  }

  // The registry and the streams just before the scrollback of a new stream is sent.
  function Begin(s: State, key: Key, id: StreamId): State {
    s.(current := s.current[key := id], streams := s.streams[id := Stream(key, false, 0)])
  }

  lemma BeginConserves(scenario: Scenario, s: State, key: Key, id: StreamId, other: StreamId)
    requires Invariant(scenario, s) && id !in s.streams && key !in s.current
    requires other in s.streams || other == id
    ensures Conserved(Begin(s, key, id), other, if other == id then [] else Emission(s.streams[other].chunkIndex))
    ensures other != id ==> (IsCurrent(Begin(s, key, id), other) <==> IsCurrent(s, other))
  {
    if other == id {
      OfUnknown(s.sent, id);
      OfUnknown(s.queue, id);
    } else {
      assert Accounted(scenario, s, other);
      hide Of, Emission;
    }
  }

  lemma SubscribeKeepsAccount(scenario: Scenario, s: State, key: Key, id: StreamId, other: StreamId)
    requires Invariant(scenario, s) && id !in s.streams && (other in s.streams || other == id)
    ensures Accounted(scenario, Apply(scenario, s, Subscribe(key, id)), other)
  {
    var cleared := ClearStream(s, key);
    ClearKeepsInvariant(scenario, s, key);
    var begun := Begin(cleared, key, id);
    BeginConserves(scenario, cleared, key, id, other);
    assert Emission(0) == [] + [Scrollback];
    if other != id {
      assert Accounted(scenario, cleared, other);
    }
    hide Of, Emission, Conserved, Invariant;
    var d := Delivery(id, Scrollback);
    var emitted := if other == id then [] else Emission(cleared.streams[other].chunkIndex);
    RespondConserves(scenario, begun, d, other, emitted);
    var t := Apply(scenario, s, Subscribe(key, id));
    ConservedElsewhere(Respond(scenario, begun, d), t, other, if other == id then emitted + [Scrollback] else emitted);
  }

  lemma SubscribeKeepsStructure(scenario: Scenario, s: State, key: Key, id: StreamId)
    requires Structured(scenario, s) && id !in s.streams && key !in s.current
    ensures var begun := Begin(s, key, id);
            var responded := Respond(scenario, begun, Delivery(id, Scrollback));
            Structured(scenario, responded.(streams := responded.streams[id := Stream(key, true, 0)]))
  {
    var begun := Begin(s, key, id);
    BegunGrows(s.sent, s.streams, begun.streams);
    BegunGrows(s.queue, s.streams, begun.streams);
    RespondKeepsBegun(scenario, begun, Delivery(id, Scrollback));
    var responded := Respond(scenario, begun, Delivery(id, Scrollback));
    var t := responded.(streams := responded.streams[id := Stream(key, true, 0)]);
    BegunGrows(responded.sent, responded.streams, t.streams);
    BegunGrows(responded.queue, responded.streams, t.streams);
    hide Begun;
  }

  lemma SubscribeResult(scenario: Scenario, s: State, key: Key, id: StreamId)
    requires id !in s.streams && ClearStream(s, key).streams.Keys == s.streams.Keys
    ensures Enabled(s, Subscribe(key, id))
    ensures var begun := Begin(ClearStream(s, key), key, id);
            var responded := Respond(scenario, begun, Delivery(id, Scrollback));
            var t := Apply(scenario, s, Subscribe(key, id));
            && t == responded.(streams := responded.streams[id := Stream(key, true, 0)])
            && t.streams.Keys == s.streams.Keys + {id}
  {
    hide ClearStream, IsCurrent;
  }

  lemma SubscribeKeepsInvariant(scenario: Scenario, s: State, key: Key, id: StreamId)
    requires Invariant(scenario, s) && id !in s.streams
    ensures Invariant(scenario, Apply(scenario, s, Subscribe(key, id)))
  {
    hide *;
    ClearKeepsInvariant(scenario, s, key);
    InvariantIs(scenario, ClearStream(s, key));
    SubscribeKeepsStructure(scenario, ClearStream(s, key), key, id);
    SubscribeResult(scenario, s, key, id);
    var t := Apply(scenario, s, Subscribe(key, id));
    forall other <- t.streams
      ensures Accounted(scenario, t, other)
    {
      SubscribeKeepsAccount(scenario, s, key, id, other);
    }
    InvariantIs(scenario, t);
  }

  lemma InvariantIs(scenario: Scenario, s: State)
    ensures Invariant(scenario, s) <==> Structured(scenario, s) && forall id <- s.streams :: Accounted(scenario, s, id)
  {
  }

  predicate Emits(scenario: Scenario, s: State, id: StreamId)
    requires id in s.streams
  {
    IsCurrent(s, id) && s.streams[id].chunkIndex < scenario.chunkCount
  }

  // What a tick does, as far as another account can tell.
  lemma TickResult(scenario: Scenario, s: State, id: StreamId, other: StreamId)
    requires Enabled(s, Tick(id)) && other in s.streams
    ensures var emits := Emits(scenario, s, id);
            var t := Apply(scenario, s, Tick(id));
            var d := Delivery(id, Chunk(s.streams[id].chunkIndex));
            var responded := if emits then Respond(scenario, s, d) else s;
            && t.sent == responded.sent && t.queue == responded.queue
            && (IsCurrent(t, other) <==> IsCurrent(s, other)) && (IsCurrent(responded, other) <==> IsCurrent(s, other))
            && other in t.streams
            && t.streams[other].chunkIndex == s.streams[other].chunkIndex + (if emits && other == id then 1 else 0)
            && t.streams[other].ticking == (s.streams[other].ticking && (emits || other != id))
  {
    hide Emission, Of;
  }

  lemma TickConserves(scenario: Scenario, s: State, id: StreamId, other: StreamId)
    requires Invariant(scenario, s) && Enabled(s, Tick(id)) && other in s.streams
    ensures other in Apply(scenario, s, Tick(id)).streams
    ensures Conserved(Apply(scenario, s, Tick(id)), other, Emission(Apply(scenario, s, Tick(id)).streams[other].chunkIndex))
  {
    assert Accounted(scenario, s, other) && (!scenario.delayed ==> s.queue == []);
    var index := s.streams[id].chunkIndex;
    var emitted := Emission(s.streams[other].chunkIndex);
    assert Conserved(s, other, emitted);
    assert Emission(index + 1) == Emission(index) + [Chunk(index)];
    hide *;
    TickResult(scenario, s, id, other);
    var t := Apply(scenario, s, Tick(id));
    var d := Delivery(id, Chunk(index));
    if Emits(scenario, s, id) {
      RespondConserves(scenario, s, d, other, emitted);
      ConservedElsewhere(Respond(scenario, s, d), t, other, if other == id then emitted + [Chunk(index)] else emitted);
    } else {
      ConservedElsewhere(s, t, other, emitted);
    }
  }

  lemma TickKeepsAccount(scenario: Scenario, s: State, id: StreamId, other: StreamId)
    requires Invariant(scenario, s) && Enabled(s, Tick(id)) && other in s.streams
    ensures other in Apply(scenario, s, Tick(id)).streams
    ensures Accounted(scenario, Apply(scenario, s, Tick(id)), other)
  {
    TickConserves(scenario, s, id, other);
    TickResult(scenario, s, id, other);
    assert Accounted(scenario, s, other);
    hide Conserved, Emission, IsCurrent, Apply;
  }

  lemma TickKeepsStructure(scenario: Scenario, s: State, id: StreamId)
    requires Structured(scenario, s) && Enabled(s, Tick(id))
    ensures Structured(scenario, Apply(scenario, s, Tick(id)))
    ensures Apply(scenario, s, Tick(id)).streams.Keys == s.streams.Keys
  {
    var d := Delivery(id, Chunk(s.streams[id].chunkIndex));
    RespondKeepsBegun(scenario, s, d);
    var responded := Respond(scenario, s, d);
    var t := Apply(scenario, s, Tick(id));
    BegunGrows(s.sent, s.streams, t.streams);
    BegunGrows(s.queue, s.streams, t.streams);
    BegunGrows(responded.sent, s.streams, t.streams);
    BegunGrows(responded.queue, s.streams, t.streams);
    hide Begun;
  }

  lemma TickKeepsInvariant(scenario: Scenario, s: State, id: StreamId)
    requires Invariant(scenario, s) && Enabled(s, Tick(id))
    ensures Invariant(scenario, Apply(scenario, s, Tick(id)))
  {
    var t := Apply(scenario, s, Tick(id));
    TickKeepsStructure(scenario, s, id);
    forall other <- t.streams
      ensures Accounted(scenario, t, other)
    {
      TickKeepsAccount(scenario, s, id, other);
    }
    hide *;
    InvariantIs(scenario, t);
  }

  lemma DeliverConserves(s: State, id: StreamId, emitted: seq<Payload>)
    requires Conserved(s, id, emitted) && s.queue != []
    ensures Conserved(SendIfCurrent(s.(queue := s.queue[1..]), s.queue[0]), id, emitted)
  {
    var d := s.queue[0];
    OfAppend(s.sent, d, id);
    assert Of(s.queue, id) == (if d.stream == id then [d.payload] else []) + Of(s.queue[1..], id);
    hide Of;
    var sent, waiting := Of(s.sent, id), Of(s.queue[1..], id);
    var popped := s.(queue := s.queue[1..]);
    assert IsCurrent(popped, id) == IsCurrent(s, id);
    if d.stream == id {
      assert sent + ([d.payload] + waiting) == sent + [d.payload] + waiting;
    } else {
      assert sent + [] == sent && [] + waiting == waiting;
    }
    hide IsCurrent;
  }

  lemma DeliverKeepsInvariant(scenario: Scenario, s: State)
    requires Invariant(scenario, s) && s.queue != []
    ensures Invariant(scenario, Apply(scenario, s, Deliver))
  {
    var t := Apply(scenario, s, Deliver);
    forall other <- t.streams
      ensures Accounted(scenario, t, other)
    {
      assert Accounted(scenario, s, other);
      DeliverConserves(s, other, Emission(s.streams[other].chunkIndex));
      hide Of, Emission, Conserved;
    }
    hide Accounted;
  }

  lemma StepKeepsInvariant(scenario: Scenario, s: State, e: Event)
    requires Invariant(scenario, s) && Enabled(s, e)
    ensures Invariant(scenario, Apply(scenario, s, e))
  {
    match e
    case Subscribe(key, id) => SubscribeKeepsInvariant(scenario, s, key, id);
    case Unsubscribe(key) => ClearKeepsInvariant(scenario, s, key);
    case Tick(id) => TickKeepsInvariant(scenario, s, id);
    case Deliver => DeliverKeepsInvariant(scenario, s);
    case Close(socket) =>
      var t := Apply(scenario, s, e);
      forall id <- t.streams
        ensures Accounted(scenario, t, id)
      {
        assert Accounted(scenario, s, id);
        hide Of, Emission;
      }
  }

  lemma {:induction false} InvariantAlways(scenario: Scenario, s: State, events: seq<Event>)
    requires Invariant(scenario, s) && Feasible(scenario, s, events)
    ensures Invariant(scenario, After(scenario, s, events))
    decreases |events|
  {
    if events != [] {
      StepKeepsInvariant(scenario, s, events[0]);
      hide Invariant;
      InvariantAlways(scenario, Apply(scenario, s, events[0]), events[1..]);
    }
  }

  // ---------------------------------------------------------------------------
  // What every run keeps

  lemma EmptyInvariant(scenario: Scenario)
    ensures Invariant(scenario, EMPTY)
  {
  }

  // In every run from the start: per socket and terminal at most one interval is live, it
  // belongs to the registered stream, and every stream has sent, without gaps or repeats,
  // a beginning of the scrollback followed by the chunks.
  lemma RunSafety(scenario: Scenario, events: seq<Event>)
    requires Feasible(scenario, EMPTY, events)
    ensures var s := After(scenario, EMPTY, events);
            && (forall id <- s.streams :: s.streams[id].ticking ==>
                  s.streams[id].key in s.current && s.current[s.streams[id].key] == id)
            && (forall a <- s.streams, b <- s.streams ::
                  s.streams[a].ticking && s.streams[b].ticking && s.streams[a].key == s.streams[b].key ==> a == b)
            && (forall id <- s.streams :: Of(s.sent, id) <= Emission(scenario.chunkCount))
  {
    EmptyInvariant(scenario);
    InvariantAlways(scenario, EMPTY, events);
    var s := After(scenario, EMPTY, events);
    hide Of, Emission, After;
    forall id <- s.streams
      ensures Of(s.sent, id) <= Emission(scenario.chunkCount)
    {
      assert Accounted(scenario, s, id);
      EmissionGrows(s.streams[id].chunkIndex, scenario.chunkCount);
    }
  }

  // Nothing is lost: a stream that is still current when its timer has stopped and its
  // responses have been delivered has sent everything.
  lemma CurrentStreamIsComplete(scenario: Scenario, events: seq<Event>, id: StreamId)
    requires Feasible(scenario, EMPTY, events)
    requires var s := After(scenario, EMPTY, events);
             IsCurrent(s, id) && !s.streams[id].ticking && Of(s.queue, id) == []
    ensures Of(After(scenario, EMPTY, events).sent, id) == Emission(scenario.chunkCount)
  {
    EmptyInvariant(scenario);
    InvariantAlways(scenario, EMPTY, events);
    var s := After(scenario, EMPTY, events);
    assert Accounted(scenario, s, id);
    hide Of, Emission, After;
    assert Of(s.sent, id) + [] == Of(s.sent, id);
  }

  predicate Superseded(s: State, id: StreamId) {
    id in s.streams && !IsCurrent(s, id)
  }

  lemma SilentSend(scenario: Scenario, s: State, d: Delivery, id: StreamId)
    requires !IsCurrent(s, id)
    ensures Of(SendIfCurrent(s, d).sent, id) == Of(s.sent, id)
    ensures Of(Respond(scenario, s, d).sent, id) == Of(s.sent, id)
  {
    OfAppend(s.sent, d, id);
    hide Of;
    assert Of(s.sent, id) + [] == Of(s.sent, id);
  }

  lemma ClearSupersedes(s: State, key: Key, id: StreamId)
    requires Registered(s) && Superseded(s, id)
    ensures var t := ClearStream(s, key);
            && Registered(t) && Superseded(t, id) && t.sent == s.sent && t.streams.Keys == s.streams.Keys
            && key !in t.current
  {
  }

  lemma BeginSupersedes(s: State, key: Key, next: StreamId, id: StreamId)
    requires Registered(s) && Superseded(s, id) && key !in s.current && next !in s.streams
    ensures Registered(Begin(s, key, next)) && Superseded(Begin(s, key, next), id)
  {
  }

  lemma SubscribeSupersedes(scenario: Scenario, s: State, key: Key, next: StreamId, id: StreamId)
    requires Registered(s) && Superseded(s, id) && next !in s.streams
    ensures var t := Apply(scenario, s, Subscribe(key, next));
            Registered(t) && Superseded(t, id) && Of(t.sent, id) == Of(s.sent, id)
  {
    ClearSupersedes(s, key, id);
    BeginSupersedes(ClearStream(s, key), key, next, id);
    SilentSend(scenario, Begin(ClearStream(s, key), key, next), Delivery(next, Scrollback), id);
    hide Of, ClearStream;
  }

  lemma TickSupersedes(scenario: Scenario, s: State, other: StreamId, id: StreamId)
    requires Registered(s) && Superseded(s, id) && Enabled(s, Tick(other))
    ensures var t := Apply(scenario, s, Tick(other));
            Registered(t) && Superseded(t, id) && Of(t.sent, id) == Of(s.sent, id)
  {
    TickKeepsRegistry(scenario, s, other);
    var d := Delivery(other, Chunk(s.streams[other].chunkIndex));
    SilentSend(scenario, s, d, id);
    hide Of, Respond, IsCurrent, StopTicking, Registered;
    assert StopTicking(s, other).sent == s.sent by { StopSendsNothing(s, other); }
    RegistryDecides(s, Apply(scenario, s, Tick(other)));
  }

  lemma StopSendsNothing(s: State, id: StreamId)
    ensures StopTicking(s, id).sent == s.sent
  {
  }

  lemma TickKeepsRegistry(scenario: Scenario, s: State, other: StreamId)
    requires Enabled(s, Tick(other))
    ensures var t := Apply(scenario, s, Tick(other));
            && t.current == s.current && t.closed == s.closed && t.streams.Keys == s.streams.Keys
            && forall id <- s.streams :: t.streams[id].key == s.streams[id].key
  {
    hide IsCurrent;
  }

  // Whether a stream is current depends on the registry, the keys and the open sockets.
  lemma RegistryDecides(s: State, t: State)
    requires t.current == s.current && t.closed == s.closed && t.streams.Keys == s.streams.Keys
    requires forall id <- s.streams :: t.streams[id].key == s.streams[id].key
    ensures Registered(t) <==> Registered(s)
    ensures forall id :: Superseded(t, id) <==> Superseded(s, id)
  {
  }

  lemma SupersededStep(scenario: Scenario, s: State, e: Event, id: StreamId)
    requires Registered(s) && Superseded(s, id) && Enabled(s, e)
    ensures var t := Apply(scenario, s, e);
            Registered(t) && Superseded(t, id) && Of(t.sent, id) == Of(s.sent, id)
  {
    match e
    case Subscribe(key, other) =>
      SubscribeSupersedes(scenario, s, key, other, id);
      hide *;
    case Tick(other) =>
      TickSupersedes(scenario, s, other, id);
      hide *;
    case Deliver =>
      SilentSend(scenario, s.(queue := s.queue[1..]), s.queue[0], id);
      hide Of;
    case Unsubscribe(key) =>
      ClearSupersedes(s, key, id);
      hide Of, ClearStream;
    case Close(_) => hide Of;
  }

  // Once a stream has been superseded, unsubscribed or its socket closed, it never becomes
  // current again and nothing of it is sent, whatever still waits in the queue.
  lemma {:induction false} SupersededStreamIsSilent(scenario: Scenario, s: State, events: seq<Event>, id: StreamId)
    requires Registered(s) && Superseded(s, id) && Feasible(scenario, s, events)
    ensures var t := After(scenario, s, events);
            Superseded(t, id) && Of(t.sent, id) == Of(s.sent, id)
    decreases |events|
  {
    if events != [] {
      SupersededStep(scenario, s, events[0], id);
      hide Of, Superseded, Registered;
      SupersededStreamIsSilent(scenario, Apply(scenario, s, events[0]), events[1..], id);
    }
  }

  // ---------------------------------------------------------------------------
  // What cancels a stream, and that it stays cancelled

  // An event that ends a stream: unsubscribing from its terminal, subscribing to it anew,
  // or the closing of its socket.
  predicate Ends(s: State, e: Event, id: StreamId) {
    && id in s.streams
    && (match e
        case Unsubscribe(key) => s.streams[id].key == key
        case Subscribe(key, _) => s.streams[id].key == key
        case Close(socket) => s.streams[id].key.0 == socket
        case _ => false)
  }

  lemma ClearedKey(s: State, key: Key, id: StreamId)
    requires Registered(s) && TimersAreRegistered(s) && id in s.streams && s.streams[id].key == key
    ensures var t := ClearStream(s, key);
            Superseded(t, id) && !t.streams[id].ticking && t.streams[id].key == key && t.sent == s.sent
  {
  }

  lemma SubscribeElsewhere(scenario: Scenario, s: State, key: Key, next: StreamId, id: StreamId)
    requires id in s.streams && id != next && Enabled(s, Subscribe(key, next))
    requires key !in s.current && !IsCurrent(s, id) && s.streams[id].key == key
    ensures var begun := Begin(s, key, next);
            var responded := Respond(scenario, begun, Delivery(next, Scrollback));
            var t := responded.(streams := responded.streams[next := Stream(key, true, 0)]);
            && Superseded(t, id) && t.streams[id].ticking == s.streams[id].ticking
            && Of(t.sent, id) == Of(s.sent, id)
  {
    var begun := Begin(s, key, next);
    SilentSend(scenario, begun, Delivery(next, Scrollback), id);
    hide Of;
  }

  // Such an event takes effect at once: the stream is not current, nothing more of it is
  // sent, and but for a closed socket, which the next tick will notice, its timer is off.
  lemma EndTakesEffect(scenario: Scenario, s: State, e: Event, id: StreamId)
    requires Invariant(scenario, s) && Enabled(s, e) && Ends(s, e, id)
    ensures var t := Apply(scenario, s, e);
            && Superseded(t, id) && Of(t.sent, id) == Of(s.sent, id)
            && (!e.Close? ==> !t.streams[id].ticking)
  {
    match e
    case Unsubscribe(key) =>
      ClearedKey(s, key, id);
      hide Of;
    case Subscribe(key, next) =>
      ClearedKey(s, key, id);
      ClearKeepsInvariant(scenario, s, key);
      SubscribeElsewhere(scenario, ClearStream(s, key), key, next, id);
      SubscribeResult(scenario, s, key, next);
      hide *;
    case Close(_) =>
      hide Of;
  }

  // A timer that is off stays off: only beginning a stream sets one.
  lemma TimerStaysOff(scenario: Scenario, s: State, e: Event, id: StreamId)
    requires Enabled(s, e) && id in s.streams && !s.streams[id].ticking
    ensures id in Apply(scenario, s, e).streams && !Apply(scenario, s, e).streams[id].ticking
  {
    hide IsCurrent;
  }

  lemma {:induction false} TimerIsOffForGood(scenario: Scenario, s: State, events: seq<Event>, id: StreamId)
    requires Feasible(scenario, s, events) && id in s.streams && !s.streams[id].ticking
    ensures id in After(scenario, s, events).streams && !After(scenario, s, events).streams[id].ticking
    decreases |events|
  {
    if events != [] {
      TimerStaysOff(scenario, s, events[0], id);
      TimerIsOffForGood(scenario, Apply(scenario, s, events[0]), events[1..], id);
      hide Apply;
    }
  }

  // Over every run: after an unsubscription, a new subscription or the closing of the
  // socket nothing of the stream is sent any more, whatever happens then, and unless the
  // socket was closed its timer never fires again.
  lemma EndedStreamIsSilent(scenario: Scenario, early: seq<Event>, e: Event, id: StreamId, late: seq<Event>)
    requires Feasible(scenario, EMPTY, early)
    requires var s := After(scenario, EMPTY, early);
             Enabled(s, e) && Ends(s, e, id) && Feasible(scenario, Apply(scenario, s, e), late)
    ensures var s := After(scenario, EMPTY, early);
            var t := After(scenario, Apply(scenario, s, e), late);
            && Superseded(t, id) && Of(t.sent, id) == Of(s.sent, id)
            && (!e.Close? ==> !t.streams[id].ticking)
  {
    hide *;
    var s := After(scenario, EMPTY, early);
    EmptyInvariant(scenario);
    InvariantAlways(scenario, EMPTY, early);
    EndTakesEffect(scenario, s, e, id);
    EndedStreamExists(Apply(scenario, s, e), id);
    StepKeepsInvariant(scenario, s, e);
    InvariantRegisters(scenario, Apply(scenario, s, e));
    SupersededStreamIsSilent(scenario, Apply(scenario, s, e), late, id);
    EndedStreamExists(After(scenario, Apply(scenario, s, e), late), id);
    if !e.Close? {
      TimerIsOffForGood(scenario, Apply(scenario, s, e), late, id);
    }
  }

  lemma EndedStreamExists(s: State, id: StreamId)
    requires Superseded(s, id)
    ensures id in s.streams
  {
  }

  lemma InvariantRegisters(scenario: Scenario, s: State)
    requires Invariant(scenario, s)
    ensures Registered(s)
  {
  }

  // ---------------------------------------------------------------------------
  // Timers come to an end

  function CountTicks(events: seq<Event>, id: StreamId): nat {
    if events == [] then 0 else (if events[0] == Tick(id) then 1 else 0) + CountTicks(events[1..], id)
  }

  // The ticks a stream can still make; one that is yet to begin can make them all.
  function TicksLeft(scenario: Scenario, s: State, id: StreamId): int {
    if id !in s.streams then scenario.chunkCount + 1
    else if s.streams[id].ticking then scenario.chunkCount + 1 - s.streams[id].chunkIndex
    else 0
  }

  // No other event advances a stream, and only its subscription begins it.
  lemma TimerElsewhere(scenario: Scenario, s: State, e: Event, id: StreamId)
    requires Enabled(s, e) && !e.Tick?
    ensures var t := Apply(scenario, s, e);
            if id in s.streams then
              id in t.streams && t.streams[id].chunkIndex == s.streams[id].chunkIndex
              && (t.streams[id].ticking ==> s.streams[id].ticking)
            else id in t.streams ==> t.streams[id].chunkIndex == 0
  {
    hide IsCurrent;
  }

  lemma ChunksAreCounted(scenario: Scenario, s: State, id: StreamId)
    requires Invariant(scenario, s) && id in s.streams
    ensures s.streams[id].chunkIndex <= scenario.chunkCount
  {
    assert Accounted(scenario, s, id);
    hide Conserved, Of, Emission, IsCurrent;
  }

  lemma TickIsSpent(scenario: Scenario, s: State, e: Event, id: StreamId)
    requires Invariant(scenario, s) && Enabled(s, e)
    ensures TicksLeft(scenario, s, id) >= 0
    ensures TicksLeft(scenario, Apply(scenario, s, e), id) <= TicksLeft(scenario, s, id) - if e == Tick(id) then 1 else 0
  {
    if id in s.streams {
      ChunksAreCounted(scenario, s, id);
    }
    if e.Tick? {
      TickKeepsStructure(scenario, s, e.id);
      if id in s.streams {
        TickResult(scenario, s, e.id, id);
      }
    } else {
      TimerElsewhere(scenario, s, e, id);
    }
    hide Apply, Accounted, Structured, IsCurrent, Respond;
  }

  lemma {:induction false} TicksAreBounded(scenario: Scenario, s: State, events: seq<Event>, id: StreamId)
    requires Invariant(scenario, s) && Feasible(scenario, s, events)
    ensures CountTicks(events, id) <= TicksLeft(scenario, s, id)
    decreases |events|
  {
    hide Invariant, TicksLeft, Apply;
    if events == [] {
      NoTicksLeft(scenario, s, id);
    } else {
      TickIsSpent(scenario, s, events[0], id);
      StepKeepsInvariant(scenario, s, events[0]);
      TicksAreBounded(scenario, Apply(scenario, s, events[0]), events[1..], id);
    }
  }

  lemma NoTicksLeft(scenario: Scenario, s: State, id: StreamId)
    requires Invariant(scenario, s)
    ensures TicksLeft(scenario, s, id) >= 0
  {
    if id in s.streams {
      ChunksAreCounted(scenario, s, id);
    }
    hide Invariant;
  }

  // In every run the timer of a stream fires at most once more than there are chunks.
  lemma TimersEnd(scenario: Scenario, events: seq<Event>, id: StreamId)
    requires Feasible(scenario, EMPTY, events)
    ensures CountTicks(events, id) <= scenario.chunkCount + 1
  {
    EmptyInvariant(scenario);
    TicksAreBounded(scenario, EMPTY, events, id);
  }

  // ---------------------------------------------------------------------------
  // The host itself

  class MockHost {
    const scenario: Scenario
    var terminalStreams: map<Key, StreamId>
    var streams: map<StreamId, Stream>
    var closed: set<Socket>
    var timeouts: seq<Delivery>
    var sent: seq<Delivery>
    var nextId: StreamId

    ghost function Value(): State
      reads this
    {
      State(terminalStreams, streams, closed, timeouts, sent)
    }

    // Registered streams exist, and ids not yet given out are unused.
    ghost predicate Valid()
      reads this
    {
      && (forall key <- terminalStreams :: terminalStreams[key] in streams)
      && (forall d <- timeouts :: d.stream in streams)
      && (forall id <- streams :: id < nextId)
    }

    constructor (scenario: Scenario)
      ensures Valid() && this.scenario == scenario && Value() == EMPTY
    {
      this.scenario := scenario;
      terminalStreams, streams, closed, timeouts, sent, nextId := map[], map[], {}, [], [], 0;
    }

    predicate IsCurrentTerminalStream(id: StreamId)
      requires id in streams
      reads this
      ensures IsCurrentTerminalStream(id) == IsCurrent(Value(), id)
    {
      var key := streams[id].key;
      key in terminalStreams && terminalStreams[key] == id && key.0 !in closed
    }

    method StopTerminalStreamInterval(id: StreamId)
      requires Valid() && id in streams
      modifies this`streams
      ensures Valid() && Value() == StopTicking(old(Value()), id)
    {
      if streams[id].ticking {
        streams := streams[id := streams[id].(ticking := false)];
      }
    }

    method ClearTerminalStream(key: Key)
      requires Valid()
      modifies this`streams, this`terminalStreams
      ensures Valid() && Value() == ClearStream(old(Value()), key)
    {
      if key in terminalStreams {
        StopTerminalStreamInterval(terminalStreams[key]);
        terminalStreams := map k | k in terminalStreams && k != key :: terminalStreams[k];
      }
    }

    method BeginTerminalStream(key: Key) returns (id: StreamId)
      requires Valid()
      modifies this`streams, this`terminalStreams, this`nextId
      ensures Valid() && id !in old(streams) && id in streams && streams[id].key == key
      ensures Value() == Begin(ClearStream(old(Value()), key), key, id)
    {
      ClearTerminalStream(key);
      id := nextId;
      nextId := nextId + 1;
      terminalStreams := terminalStreams[key := id];
      streams := streams[id := Stream(key, false, 0)];
    }

    // `deliver`: sends only if the guard still holds.
    method DeliverGuarded(d: Delivery)
      requires d.stream in streams
      modifies this`sent
      ensures Value() == SendIfCurrent(old(Value()), d)
    {
      if IsCurrentTerminalStream(d.stream) {
        sent := sent + [d];
      }
    }

    method RespondGuarded(d: Delivery)
      requires Valid() && d.stream in streams
      modifies this`sent, this`timeouts
      ensures Valid() && Value() == Respond(scenario, old(Value()), d)
    {
      if scenario.delayed {
        timeouts := timeouts + [d];
        return;
      }
      DeliverGuarded(d);
    }

    method HandleSubscribe(key: Key) returns (id: StreamId)
      requires Valid()
      modifies this
      ensures Valid() && id !in old(streams)
      ensures Value() == Apply(scenario, old(Value()), Subscribe(key, id))
    {
      id := BeginTerminalStream(key);
      RespondGuarded(Delivery(id, Scrollback));
      streams := streams[id := streams[id].(ticking := true)];
    }

    method HandleUnsubscribe(key: Key)
      requires Valid()
      modifies this
      ensures Valid() && Value() == Apply(scenario, old(Value()), Unsubscribe(key))
    {
      ClearTerminalStream(key);
    }

    // The interval callback of a stream.
    method OnInterval(id: StreamId)
      requires Valid() && id in streams && streams[id].ticking
      modifies this
      ensures Valid() && Value() == Apply(scenario, old(Value()), Tick(id))
    {
      if !IsCurrentTerminalStream(id) {
        StopTerminalStreamInterval(id);
        return;
      }
      var chunkIndex := streams[id].chunkIndex;
      if chunkIndex >= scenario.chunkCount {
        StopTerminalStreamInterval(id);
        return;
      }
      RespondGuarded(Delivery(id, Chunk(chunkIndex)));
      streams := streams[id := streams[id].(chunkIndex := chunkIndex + 1)];
    }

    // The oldest timeout runs out.
    method OnTimeout()
      requires Valid() && timeouts != []
      modifies this
      ensures Valid() && Value() == Apply(scenario, old(Value()), Deliver)
    {
      var d := timeouts[0];
      timeouts := timeouts[1..];
      DeliverGuarded(d);
    }

    method OnClose(socket: Socket)
      requires Valid()
      modifies this`closed
      ensures Valid() && Value() == Apply(scenario, old(Value()), Close(socket))
    {
      closed := closed + {socket};
    }
  }
}
