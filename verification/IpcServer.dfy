/** The IPC server of the logger: ordinary signals are coalesced between flushes,
    `WCM.event_*` samples are queued and sent one by one. */
module IpcServer {
  import opened SignalData
  import opened Octets
  import opened IpcProtocol
  import opened IpcStream
  import opened IpcReader

  type Key = seq<CodeUnit>
  type Values = map<Key, Sample>

  /** "WCM.event_" */
  const EVENT_PREFIX: seq<CodeUnit> := [87, 67, 77, 46, 101, 118, 101, 110, 116, 95]

  predicate IsEvent(s: Sample) { EVENT_PREFIX <= s.name.Key() }

  /** A name is that of an event exactly when its text begins with "WCM.event_". */
  lemma EventIff(s: Sample)
    ensures var key := s.name.Key();
      IsEvent(s) <==>
        && |key| >= 10
        && key[0] == 'W' as int && key[1] == 'C' as int && key[2] == 'M' as int && key[3] == '.' as int
        && key[4] == 'e' as int && key[5] == 'v' as int && key[6] == 'e' as int && key[7] == 'n' as int
        && key[8] == 't' as int && key[9] == '_' as int
  {
    var key := s.name.Key();
    assert |EVENT_PREFIX| == 10;
    if |key| >= 10 && forall i :: 0 <= i < 10 ==> key[i] == EVENT_PREFIX[i] {
      assert key[..10] == EVENT_PREFIX;
    }
  }

  datatype Server = Server(
    definitions: seq<Definition>, clients: seq<nat>, latest: Values, pending: Values, events: seq<Sample>)

  const EMPTY := Server([], [], map[], map[], [])

  /** The ordinary samples put into a last-value map one after the other. */
  function Apply(values: Values, samples: seq<Sample>): Values {
    if samples == [] then values
    else
      var before, last := Apply(values, samples[..|samples| - 1]), samples[|samples| - 1];
      if IsEvent(last) then before else before[last.name.Key() := last]
  }

  /** Every value is filed under its own name, and none is an event. */
  ghost predicate Keyed(values: Values) {
    forall k :: k in values ==> values[k].name.Key() == k && !IsEvent(values[k])
  }

  lemma {:induction false} ApplyKeepsKeyed(values: Values, samples: seq<Sample>)
    requires Keyed(values)
    ensures Keyed(Apply(values, samples))
  {
    if samples != [] {
      ApplyKeepsKeyed(values, samples[..|samples| - 1]);
    }
  }

  function EventsOf(samples: seq<Sample>): seq<Sample> {
    if samples == [] then []
    else
      var before, last := EventsOf(samples[..|samples| - 1]), samples[|samples| - 1];
      if IsEvent(last) then before + [last] else before
  }

  function Publish(s: Server, samples: seq<Sample>): Server {
    if s.clients == [] then s.(latest := Apply(s.latest, samples))
    else s.(latest := Apply(s.latest, samples), pending := Apply(s.pending, samples),
            events := s.events + EventsOf(samples))
  }

  /** `list` is some order of the values of a hash. */
  ghost predicate Lists(list: seq<Sample>, values: Values) {
    && (forall i :: 0 <= i < |list| ==> list[i].name.Key() in values && values[list[i].name.Key()] == list[i])
    && (forall i, j :: 0 <= i < j < |list| ==> list[i].name.Key() != list[j].name.Key())
    && (forall k :: k in values ==> exists i :: 0 <= i < |list| && list[i].name.Key() == k)
  }

  /** What a new connection is sent: the definitions, then the state if there is any. */
  function Greeting(s: Server, list: seq<Sample>): seq<Message> {
    [Definitions(s.definitions)] + if s.latest == map[] then [] else [Samples(list)]
  }

  function Accept(s: Server, client: nat): Server { s.(clients := s.clients + [client]) }

  function Without(clients: seq<nat>, gone: set<nat>): (r: seq<nat>)
    ensures forall c :: c in r <==> c in clients && c !in gone
  {
    if clients == [] then []
    else
      var front, last := Without(clients[..|clients| - 1], gone), clients[|clients| - 1];
      if last in gone then front else front + [last]
  }

  ghost predicate Distinct(clients: seq<nat>) {
    forall i, j :: 0 <= i < j < |clients| ==> clients[i] != clients[j]
  }

  lemma {:induction false} WithoutKeepsDistinct(clients: seq<nat>, gone: set<nat>)
    requires Distinct(clients)
    ensures Distinct(Without(clients, gone))
  {
    if clients != [] {
      WithoutKeepsDistinct(clients[..|clients| - 1], gone);
    }
  }

  function Remove(s: Server, client: nat): Server { s.(clients := Without(s.clients, {client})) }

  function Stopped(s: Server): Server { s.(clients := [], pending := map[], events := []) }

  predicate Sends(s: Server) { s.clients != [] && (s.pending != map[] || s.events != []) }

  /** After a flush; the clients whose socket failed on this frame are gone. */
  function Flushed(s: Server, failed: set<nat>): Server {
    if Sends(s) then s.(clients := Without(s.clients, failed), pending := map[], events := [])
    else if s.clients == [] then s.(pending := map[], events := [])
    else s
  }

  function Batch(s: Server, list: seq<Sample>): Message { Samples(s.events + list) }

  lemma GreetingFrames(s: Server, list: seq<Sample>)
    ensures Wires(Greeting(s, list))
      == [Wire(Definitions(s.definitions))] + if s.latest == map[] then [] else [Wire(Samples(list))]
  {
  }

  // ---- The server object -----------------------------------------------------

  class SignalIpcServer {
    var definitions: seq<Definition>
    var clients: seq<nat>
    var latestState: Values
    var pendingLatest: Values
    var pendingEvents: seq<Sample>

    function State(): Server
      reads this
    {
      Server(definitions, clients, latestState, pendingLatest, pendingEvents)
    }

    ghost predicate Valid()
      reads this
    {
      Distinct(clients) && Keyed(latestState) && Keyed(pendingLatest)
    }

    constructor ()
      ensures Valid() && State() == EMPTY
    {
      definitions, clients, latestState, pendingLatest, pendingEvents := [], [], map[], map[], [];
    }

    method SetDefinitions(ds: seq<Definition>)
      requires Valid()
      modifies this
      ensures Valid() && State() == old(State()).(definitions := ds)
    {
      definitions := ds;
    }

    method PublishSamples(samples: seq<Sample>)
      requires Valid()
      modifies this
      ensures Valid() && State() == Publish(old(State()), samples)
    {
      ApplyKeepsKeyed(latestState, samples);
      ApplyKeepsKeyed(pendingLatest, samples);
      ghost var start := State();
      for i := 0 to |samples|
        invariant definitions == start.definitions && clients == start.clients
        invariant latestState == Apply(start.latest, samples[..i])
        invariant pendingLatest == if clients == [] then start.pending else Apply(start.pending, samples[..i])
        invariant pendingEvents == if clients == [] then start.events else start.events + EventsOf(samples[..i])
      {
        assert samples[..i + 1][..i] == samples[..i];
        var sample := samples[i];
        if IsEvent(sample) {
          if clients != [] { pendingEvents := pendingEvents + [sample]; }
        } else {
          latestState := latestState[sample.name.Key() := sample];
          if clients != [] { pendingLatest := pendingLatest[sample.name.Key() := sample]; }
        }
      }
      assert samples[..|samples|] == samples;
    }

    /** One pending connection; `frames` are written to its socket. */
    method AcceptConnection(socket: nat) returns (frames: seq<Octets>, ghost list: seq<Sample>)
      requires Valid() && socket !in clients
      modifies this
      ensures Valid() && State() == Accept(old(State()), socket)
      ensures Lists(list, latestState)
      ensures frames == Wires(Greeting(State(), list))
    {
      clients := clients + [socket];
      var first := EncodeDefinitions(definitions);
      frames := [first];
      var values := ValuesOf(latestState);
      list := values;
      GreetingFrames(State(), list);
      if latestState != map[] {
        var second := EncodeSamples(values);
        frames := frames + [second];
      }
    }

    method RemoveClient(socket: nat)
      requires Valid()
      modifies this
      ensures Valid() && State() == Remove(old(State()), socket)
    {
      WithoutKeepsDistinct(clients, {socket});
      var i := 0;
      while i < |clients| && clients[i] != socket
        invariant i <= |clients|
        invariant forall k :: 0 <= k < i ==> clients[k] != socket
      {
        i := i + 1;
      }
      if i < |clients| {
        WithoutOne(clients, i);
        clients := clients[..i] + clients[i + 1..];
      } else {
        WithoutNone(clients, {socket});
      }
    }

    /** The frame of a flush and the clients it reaches.  A socket in `failing` is
        aborted and its client removed. */
    method FlushPendingSamples(failing: set<nat>)
      returns (frames: seq<Octets>, receivers: seq<nat>, ghost list: seq<Sample>)
      requires Valid()
      modifies this
      ensures Valid() && State() == Flushed(old(State()), failing)
      ensures Lists(list, old(pendingLatest))
      ensures frames == if Sends(old(State())) then [Wire(Batch(old(State()), list))] else []
      ensures receivers == if Sends(old(State())) then Without(old(clients), failing) else []
    {
      var values := ValuesOf(pendingLatest);
      list := values;
      frames, receivers := [], [];
      if clients == [] {
        pendingLatest, pendingEvents := map[], [];
        return;
      }
      if pendingLatest == map[] && pendingEvents == [] { return; }
      var batch := pendingEvents + values;
      pendingEvents, pendingLatest := [], map[];
      var frame := EncodeSamples(batch);
      frames := [frame];
      WithoutKeepsDistinct(clients, failing);
      receivers := SendTo(clients, failing);
      clients := receivers;
    }

    method Stop()
      requires Valid()
      modifies this
      ensures Valid() && State() == Stopped(old(State()))
    {
      clients, pendingLatest, pendingEvents := [], map[], [];
    }
  }

  /** The sockets that take a frame. */
  method SendTo(sockets: seq<nat>, failing: set<nat>) returns (receivers: seq<nat>)
    ensures receivers == Without(sockets, failing)
  {
    receivers := [];
    for i := 0 to |sockets|
      invariant receivers == Without(sockets[..i], failing)
    {
      assert sockets[..i + 1][..i] == sockets[..i];
      if sockets[i] !in failing { receivers := receivers + [sockets[i]]; }
    }
    assert sockets[..|sockets|] == sockets;
  }

  /** The values of a hash in an order nobody promises. */
  method ValuesOf(values: Values) returns (list: seq<Sample>)
    requires Keyed(values)
    ensures Lists(list, values)
  {
    list := [];
    var left := values.Keys;
    while left != {}
      invariant left <= values.Keys
      invariant forall i :: 0 <= i < |list| ==> list[i].name.Key() in values && list[i].name.Key() !in left
      invariant forall i :: 0 <= i < |list| ==> values[list[i].name.Key()] == list[i]
      invariant forall i, j :: 0 <= i < j < |list| ==> list[i].name.Key() != list[j].name.Key()
      invariant forall k :: k in values && k !in left ==> exists i :: 0 <= i < |list| && list[i].name.Key() == k
      decreases left
    {
      var k :| k in left;
      ghost var before := list;
      list := list + [values[k]];
      assert list[|before|].name.Key() == k;
      forall q | q in values && q !in left
        ensures exists i :: 0 <= i < |list| && list[i].name.Key() == q
      {
        var i :| 0 <= i < |before| && before[i].name.Key() == q;
        assert list[i].name.Key() == q;
      }
      left := left - {k};
    }
  }

  lemma {:induction false} WithoutNone(clients: seq<nat>, gone: set<nat>)
    requires forall i :: 0 <= i < |clients| ==> clients[i] !in gone
    ensures Without(clients, gone) == clients
  {
    if clients != [] {
      WithoutNone(clients[..|clients| - 1], gone);
    }
  }

  lemma {:induction false} WithoutConcat(a: seq<nat>, b: seq<nat>, gone: set<nat>)
    ensures Without(a + b, gone) == Without(a, gone) + Without(b, gone)
  {
    if b == [] {
      assert a + b == a;
    } else {
      assert (a + b)[..|a + b| - 1] == a + b[..|b| - 1];
      WithoutConcat(a, b[..|b| - 1], gone);
    }
  }

  lemma WithoutMiddle(before: seq<nat>, c: nat, after: seq<nat>)
    requires c !in before && c !in after
    ensures Without((before + [c]) + after, {c}) == before + after
  {
    WithoutConcat(before + [c], after, {c});
    WithoutConcat(before, [c], {c});
    WithoutNone(before, {c});
    WithoutNone(after, {c});
    assert [c][..0] == [];
    assert Without([c], {c}) == [];
  }

  lemma WithoutOne(clients: seq<nat>, i: nat)
    requires i < |clients| && Distinct(clients)
    ensures Without(clients, {clients[i]}) == clients[..i] + clients[i + 1..]
  {
    assert clients == (clients[..i] + [clients[i]]) + clients[i + 1..];
    WithoutMiddle(clients[..i], clients[i], clients[i + 1..]);
  }
}
