/** Whole runs of the IPC server: coalescing loses nothing but intermediate values,
    and no event is lost, repeated or reordered for a connected client. */
module IpcServerRuns {
  import opened SignalData
  import opened Octets
  import opened IpcProtocol
  import opened StreamScan
  import opened IpcStream
  import opened IpcServer

  // ---- What a client makes of its messages -----------------------------------

  function SamplesOf(m: Message): seq<Sample> {
    match m
    case Definitions(_) => []
    case Samples(ss) => ss
  }

  /** The last value of every ordinary signal among the messages. */
  function View(ms: seq<Message>): Values {
    if ms == [] then map[] else Apply(View(ms[..|ms| - 1]), SamplesOf(ms[|ms| - 1]))
  }

  function EventsIn(ms: seq<Message>): seq<Sample> {
    if ms == [] then [] else EventsIn(ms[..|ms| - 1]) + EventsOf(SamplesOf(ms[|ms| - 1]))
  }

  lemma ViewAppend(ms: seq<Message>, m: Message)
    ensures View(ms + [m]) == Apply(View(ms), SamplesOf(m))
    ensures EventsIn(ms + [m]) == EventsIn(ms) + EventsOf(SamplesOf(m))
  {
    assert (ms + [m])[..|ms|] == ms;
  }

  lemma {:induction false} ApplyConcat(values: Values, a: seq<Sample>, b: seq<Sample>)
    ensures Apply(values, a + b) == Apply(Apply(values, a), b)
    ensures EventsOf(a + b) == EventsOf(a) + EventsOf(b)
  {
    if b == [] {
      assert a + b == a;
    } else {
      assert (a + b)[..|a + b| - 1] == a + b[..|b| - 1];
      ApplyConcat(values, a, b[..|b| - 1]);
    }
  }

  /** Later samples on top of a map may be applied to either part. */
  lemma {:induction false} ApplyOver(base: Values, values: Values, samples: seq<Sample>)
    ensures base + Apply(values, samples) == Apply(base + values, samples)
  {
    if samples != [] {
      ApplyOver(base, values, samples[..|samples| - 1]);
    }
  }

  ghost predicate AllEvents(samples: seq<Sample>) { forall i :: 0 <= i < |samples| ==> IsEvent(samples[i]) }

  lemma {:induction false} EventsOnly(values: Values, samples: seq<Sample>)
    requires AllEvents(samples)
    ensures Apply(values, samples) == values && EventsOf(samples) == samples
  {
    if samples != [] {
      EventsOnly(values, samples[..|samples| - 1]);
    }
  }

  lemma {:induction false} EventsOfAreEvents(samples: seq<Sample>)
    ensures AllEvents(EventsOf(samples))
  {
    if samples != [] {
      EventsOfAreEvents(samples[..|samples| - 1]);
    }
  }

  lemma {:induction false} NoEventsAmong(samples: seq<Sample>)
    requires forall i :: 0 <= i < |samples| ==> !IsEvent(samples[i])
    ensures EventsOf(samples) == []
  {
    if samples != [] {
      NoEventsAmong(samples[..|samples| - 1]);
    }
  }

  lemma {:induction false} ApplyElsewhere(base: Values, list: seq<Sample>, k: Key)
    requires forall i :: 0 <= i < |list| ==> list[i].name.Key() != k
    ensures k in Apply(base, list) <==> k in base
    ensures k in base ==> Apply(base, list)[k] == base[k]
  {
    if list != [] {
      ApplyElsewhere(base, list[..|list| - 1], k);
    }
  }

  lemma {:induction false} ApplyAt(base: Values, list: seq<Sample>, at: nat)
    requires at < |list| && !IsEvent(list[at])
    requires forall i :: at < i < |list| ==> list[i].name.Key() != list[at].name.Key()
    ensures var k := list[at].name.Key(); k in Apply(base, list) && Apply(base, list)[k] == list[at]
  {
    if at < |list| - 1 {
      ApplyAt(base, list[..|list| - 1], at);
    }
  }

  lemma ApplyListAt(base: Values, values: Values, list: seq<Sample>, k: Key)
    requires Keyed(values) && Lists(list, values)
    ensures k in Apply(base, list) <==> k in base + values
    ensures k in base + values ==> Apply(base, list)[k] == (base + values)[k]
  {
    if k in values {
      var at :| 0 <= at < |list| && list[at].name.Key() == k;
      ApplyAt(base, list, at);
    } else {
      ApplyElsewhere(base, list, k);
    }
  }

  /** A listing of a hash, applied, puts the whole hash on top. */
  lemma ApplyList(base: Values, values: Values, list: seq<Sample>)
    requires Keyed(values) && Lists(list, values)
    ensures Apply(base, list) == base + values
    ensures EventsOf(list) == []
  {
    ListIsOverlay(base, values, list);
    NoEventsAmong(list);
  }

  lemma ListIsOverlay(base: Values, values: Values, list: seq<Sample>)
    requires Keyed(values) && Lists(list, values)
    ensures Apply(base, list) == base + values
  {
    var applied, overlay := Apply(base, list), base + values;
    forall k ensures k in applied <==> k in overlay {
      ApplyListAt(base, values, list, k);
    }
    forall k | k in overlay ensures applied[k] == overlay[k] {
      ApplyListAt(base, values, list, k);
    }
  }

  lemma ViewOfGreeting(definitions: Message, state: Message)
    requires SamplesOf(definitions) == []
    ensures View([definitions]) == map[] && EventsIn([definitions]) == []
    ensures View([definitions, state]) == Apply(map[], SamplesOf(state))
    ensures EventsIn([definitions, state]) == EventsOf(SamplesOf(state))
  {
    assert [] + [definitions] == [definitions] && [definitions] + [state] == [definitions, state];
    ViewAppend([], definitions);
    ViewAppend([definitions], state);
    assert [] + EventsOf(SamplesOf(state)) == EventsOf(SamplesOf(state));
  }

  /** What a client has after a snapshot and after a batch. */
  lemma AfterGreeting(s: Server, list: seq<Sample>)
    requires Keyed(s.latest) && Lists(list, s.latest)
    ensures View(Greeting(s, list)) == s.latest && EventsIn(Greeting(s, list)) == []
  {
    ViewOfGreeting(Definitions(s.definitions), Samples(list));
    if s.latest == map[] {
      assert Greeting(s, list) == [Definitions(s.definitions)];
    } else {
      assert Greeting(s, list) == [Definitions(s.definitions), Samples(list)];
      ApplyList(map[], s.latest, list);
      NothingBelow(s.latest);
    }
  }

  lemma NothingBelow(values: Values)
    ensures map[] + values == values
  {
  }

  lemma AfterBatch(ms: seq<Message>, s: Server, list: seq<Sample>)
    requires Keyed(s.pending) && Lists(list, s.pending) && AllEvents(s.events)
    ensures View(ms + [Batch(s, list)]) == View(ms) + s.pending
    ensures EventsIn(ms + [Batch(s, list)]) == EventsIn(ms) + s.events
  {
    ViewAppend(ms, Batch(s, list));
    ApplyConcat(View(ms), s.events, list);
    EventsOnly(View(ms), s.events);
    ApplyList(View(ms), s.pending, list);
    assert s.events + [] == s.events;
  }

  // ---- Runs ------------------------------------------------------------------

  datatype Step =
    | SetDefinitions(ds: seq<Definition>)
    | Publishing(samples: seq<Sample>)
    | Connect(client: nat, snapshot: seq<Sample>)
    | Disconnect(client: nat)
    | Flush(failed: set<nat>, order: seq<Sample>)
    | Stop

  /** The server, the messages each connection was sent, and the events each is due:
      those pending when it joined and all published since. */
  datatype World = World(server: Server, sent: map<nat, seq<Message>>, due: map<nat, seq<Sample>>)

  const START := World(EMPTY, map[], map[])

  ghost predicate Enabled(w: World, step: Step) {
    match step
    case Connect(client, snapshot) => client !in w.server.clients && Lists(snapshot, w.server.latest)
    case Flush(_, order) => Lists(order, w.server.pending)
    case _ => true
  }

  function ServerAfter(s: Server, step: Step): Server {
    match step
    case SetDefinitions(ds) => s.(definitions := ds)
    case Publishing(samples) => Publish(s, samples)
    case Connect(client, _) => Accept(s, client)
    case Disconnect(client) => Remove(s, client)
    case Flush(failed, _) => Flushed(s, failed)
    case Stop => Stopped(s)
  }

  /** What client `c` has been sent and is due after a step. */
  function SentAfter(w: World, step: Step, c: nat): seq<Message>
    requires c in w.sent || (step.Connect? && step.client == c)
  {
    match step
    case Connect(client, snapshot) => if client == c then Greeting(w.server, snapshot) else w.sent[c]
    case Flush(failed, order) =>
      if Sends(w.server) && c in w.server.clients && c !in failed then w.sent[c] + [Batch(w.server, order)]
      else w.sent[c]
    case _ => w.sent[c]
  }

  function DueAfter(w: World, step: Step, c: nat): seq<Sample>
    requires c in w.due || (step.Connect? && step.client == c)
  {
    match step
    case Connect(client, _) => if client == c then w.server.events else w.due[c]
    case Publishing(samples) => w.due[c] + EventsOf(samples)
    case _ => w.due[c]
  }

  function Joining(step: Step): set<nat> {
    match step
    case Connect(client, _) => {client}
    case _ => {}
  }

  function Next(w: World, step: Step): World {
    World(ServerAfter(w.server, step),
          map c | c in w.sent.Keys + Joining(step) :: SentAfter(w, step, c),
          map c | c in w.due.Keys + Joining(step) :: DueAfter(w, step, c))
  }

  ghost predicate Runs(w: World, steps: seq<Step>)
    decreases |steps|
  {
    steps == [] || (Enabled(w, steps[0]) && Runs(Next(w, steps[0]), steps[1..]))
  }

  function After(w: World, steps: seq<Step>): World
    decreases |steps|
  {
    if steps == [] then w else After(Next(w, steps[0]), steps[1..])
  }

  // ---- What every step keeps -------------------------------------------------

  /** The leftover of the pending hash does not contradict the state. */
  ghost predicate Agree(s: Server) {
    forall k :: k in s.pending ==> k in s.latest && s.latest[k] == s.pending[k]
  }

  ghost predicate Sound(w: World) {
    && Keyed(w.server.latest) && Keyed(w.server.pending)
    && w.server.pending.Keys <= w.server.latest.Keys
    && AllEvents(w.server.events)
    && forall c :: c in w.server.clients ==> c in w.sent && c in w.due
  }

  lemma {:induction false} ApplyGrows(values: Values, more: Values, samples: seq<Sample>)
    requires values.Keys <= more.Keys
    ensures Apply(values, samples).Keys <= Apply(more, samples).Keys && more.Keys <= Apply(more, samples).Keys
  {
    if samples != [] {
      ApplyGrows(values, more, samples[..|samples| - 1]);
    }
  }

  lemma PublishKeepsSound(w: World, samples: seq<Sample>)
    requires Sound(w)
    ensures Sound(Next(w, Publishing(samples)))
  {
    ApplyKeepsKeyed(w.server.latest, samples);
    ApplyKeepsKeyed(w.server.pending, samples);
    ApplyGrows(w.server.pending, w.server.latest, samples);
    EventsOfAreEvents(samples);
  }

  lemma StepKeepsSound(w: World, step: Step)
    requires Sound(w) && Enabled(w, step)
    ensures Sound(Next(w, step))
  {
    if step.Publishing? { PublishKeepsSound(w, step.samples); }
  }

  /** Every event is either sent or still queued, exactly once and in order. */
  ghost predicate EventsKept(w: World, c: nat)
    requires c in w.sent && c in w.due
  {
    EventsIn(w.sent[c]) + w.server.events == w.due[c]
  }

  /** What the client has seen with the pending values on top is the current state. */
  ghost predicate ViewCurrent(w: World, c: nat)
    requires c in w.sent
  {
    View(w.sent[c]) + w.server.pending == w.server.latest
  }

  lemma PublishKeepsEvents(w: World, samples: seq<Sample>, c: nat)
    requires Sound(w) && c in w.server.clients && EventsKept(w, c)
    ensures var n := Next(w, Publishing(samples)); c in n.sent && c in n.due && EventsKept(n, c)
  {
    assert (EventsIn(w.sent[c]) + w.server.events) + EventsOf(samples)
        == EventsIn(w.sent[c]) + (w.server.events + EventsOf(samples));
  }

  lemma ConnectKeepsEvents(w: World, client: nat, snapshot: seq<Sample>, c: nat)
    requires Sound(w) && Lists(snapshot, w.server.latest)
    requires c == client || (c in w.server.clients && EventsKept(w, c))
    ensures var n := Next(w, Connect(client, snapshot)); c in n.sent && c in n.due && EventsKept(n, c)
  {
    if c == client {
      AfterGreeting(w.server, snapshot);
      assert [] + w.server.events == w.server.events;
    }
  }

  /** The events of a client that is connected after the step. */
  lemma StepKeepsEvents(w: World, step: Step, c: nat)
    requires Sound(w) && Enabled(w, step) && c in ServerAfter(w.server, step).clients
    requires c in w.server.clients ==> EventsKept(w, c)
    ensures c in Next(w, step).sent && c in Next(w, step).due && EventsKept(Next(w, step), c)
  {
    match step {
      case Publishing(samples) => PublishKeepsEvents(w, samples, c);
      case Connect(client, snapshot) => ConnectKeepsEvents(w, client, snapshot, c);
      case Flush(failed, order) =>
        if Sends(w.server) { FlushKeepsEvents(w, failed, order, c); }
      case _ =>
    }
  }

  lemma FlushKeepsEvents(w: World, failed: set<nat>, order: seq<Sample>, c: nat)
    requires Sound(w) && Lists(order, w.server.pending) && Sends(w.server)
    requires c in w.server.clients && c !in failed && EventsKept(w, c)
    ensures var n := Next(w, Flush(failed, order)); c in n.sent && c in n.due && EventsKept(n, c)
  {
    FlushReaches(w, failed, order, c);
    AfterBatch(w.sent[c], w.server, order);
    assert w.due[c] + [] == w.due[c];
  }

  /** A connection is harmless when somebody is connected already, or when the
      leftover of an earlier connection agrees with the state. */
  ghost predicate Harmless(s: Server, step: Step) {
    step.Connect? && s.clients == [] ==> Agree(s)
  }

  lemma OverNothing(values: Values)
    ensures values + map[] == values
  {
  }

  lemma ConnectKeepsView(w: World, client: nat, snapshot: seq<Sample>, c: nat)
    requires Sound(w) && Enabled(w, Connect(client, snapshot)) && (c == client || c in w.server.clients)
    requires forall d :: d in w.server.clients ==> ViewCurrent(w, d)
    requires Harmless(w.server, Connect(client, snapshot))
    ensures var n := Next(w, Connect(client, snapshot)); c in n.sent && ViewCurrent(n, c)
  {
    if c == client {
      AfterGreeting(w.server, snapshot);
      if w.server.clients == [] {
        OverlayIsSame(w.server.latest, w.server.pending);
      } else {
        assert ViewCurrent(w, w.server.clients[0]);
        OverlayTwice(View(w.sent[w.server.clients[0]]), w.server.pending);
      }
    }
  }

  lemma OverlayTwice(base: Values, values: Values)
    ensures (base + values) + values == base + values
  {
  }

  /** What a flush does to a client that takes the frame. */
  lemma FlushReaches(w: World, failed: set<nat>, order: seq<Sample>, c: nat)
    requires Sends(w.server) && c in w.server.clients && c !in failed && c in w.sent && c in w.due
    ensures var n := Next(w, Flush(failed, order));
      && c in n.sent && c in n.due && c in n.server.clients
      && n.sent[c] == w.sent[c] + [Batch(w.server, order)] && n.due[c] == w.due[c]
      && n.server.latest == w.server.latest && n.server.pending == map[] && n.server.events == []
  {
  }

  lemma FlushKeepsView(w: World, failed: set<nat>, order: seq<Sample>, c: nat)
    requires Sound(w) && Lists(order, w.server.pending)
    requires c in Flushed(w.server, failed).clients && ViewCurrent(w, c)
    ensures var n := Next(w, Flush(failed, order));
      c in n.sent && View(n.sent[c]) == n.server.latest && ViewCurrent(n, c)
  {
    if Sends(w.server) {
      FlushReaches(w, failed, order, c);
      AfterBatch(w.sent[c], w.server, order);
      OverNothing(w.server.latest);
    } else {
      OverNothing(View(w.sent[c]));
    }
  }

  lemma StepKeepsView(w: World, step: Step, c: nat)
    requires Sound(w) && Enabled(w, step) && Harmless(w.server, step) && c in ServerAfter(w.server, step).clients
    requires forall d :: d in w.server.clients ==> ViewCurrent(w, d)
    ensures c in Next(w, step).sent && ViewCurrent(Next(w, step), c)
  {
    match step {
      case Publishing(samples) => ApplyOver(View(w.sent[c]), w.server.pending, samples);
      case Connect(client, snapshot) => ConnectKeepsView(w, client, snapshot, c);
      case Flush(failed, order) => FlushKeepsView(w, failed, order, c);
      case _ =>
    }
  }

  // ---- Whole runs ------------------------------------------------------------

  ghost predicate AllEventsKept(w: World) {
    Sound(w) && forall c :: c in w.server.clients ==> EventsKept(w, c)
  }

  ghost predicate AllViewsCurrent(w: World) {
    Sound(w) && forall c :: c in w.server.clients ==> ViewCurrent(w, c)
  }

  /** No connection of the run is harmful. */
  ghost predicate AllHarmless(w: World, steps: seq<Step>)
    decreases |steps|
  {
    steps == [] || (Harmless(w.server, steps[0]) && AllHarmless(Next(w, steps[0]), steps[1..]))
  }

  lemma {:induction false} EventsAreLossless(w: World, steps: seq<Step>)
    requires AllEventsKept(w) && Runs(w, steps)
    ensures AllEventsKept(After(w, steps))
    decreases |steps|
  {
    if steps != [] {
      var n := Next(w, steps[0]);
      StepKeepsSound(w, steps[0]);
      forall c | c in n.server.clients ensures EventsKept(n, c) {
        StepKeepsEvents(w, steps[0], c);
      }
      EventsAreLossless(n, steps[1..]);
    }
  }

  lemma {:induction false} ViewsStayCurrent(w: World, steps: seq<Step>)
    requires AllViewsCurrent(w) && Runs(w, steps) && AllHarmless(w, steps)
    ensures AllViewsCurrent(After(w, steps))
    decreases |steps|
  {
    if steps != [] {
      var n := Next(w, steps[0]);
      StepKeepsSound(w, steps[0]);
      forall c | c in n.server.clients ensures ViewCurrent(n, c) {
        StepKeepsView(w, steps[0], c);
      }
      ViewsStayCurrent(n, steps[1..]);
    }
  }

  /** Every sample published in a run, call after call. */
  function PublishedBy(step: Step): seq<Sample> { if step.Publishing? then step.samples else [] }

  function Published(steps: seq<Step>): seq<Sample> {
    if steps == [] then []
    else PublishedBy(steps[0]) + Published(steps[1..])
  }

  /** The state is what somebody who got every sample uncoalesced would have. */
  lemma {:induction false} StateIsUncoalesced(w: World, steps: seq<Step>)
    ensures After(w, steps).server.latest == Apply(w.server.latest, Published(steps))
    decreases |steps|
  {
    if steps != [] {
      var n := Next(w, steps[0]);
      StateIsUncoalesced(n, steps[1..]);
      PublishedIsState(w, steps[0]);
      ApplyConcat(w.server.latest, PublishedBy(steps[0]), Published(steps[1..]));
    }
  }

  lemma PublishedIsState(w: World, step: Step)
    ensures Next(w, step).server.latest == Apply(w.server.latest, PublishedBy(step))
  {
  }

  lemma {:induction false} AfterConcat(w: World, a: seq<Step>, b: seq<Step>)
    ensures After(w, a + b) == After(After(w, a), b)
    decreases |a|
  {
    if a == [] {
      assert a + b == b;
    } else {
      assert (a + b)[1..] == a[1..] + b;
      AfterConcat(Next(w, a[0]), a[1..], b);
    }
  }

  /** Right after a flush every connected client agrees with one that received every
      ordinary sample, and has received every event it is due, once and in order. */
  lemma FlushedClientIsUpToDate(steps: seq<Step>, failed: set<nat>, order: seq<Sample>, c: nat)
    requires Runs(START, steps) && AllHarmless(START, steps)
    requires Enabled(After(START, steps), Flush(failed, order))
    requires c in Next(After(START, steps), Flush(failed, order)).server.clients
    ensures var n := Next(After(START, steps), Flush(failed, order));
      && c in n.sent && c in n.due
      && View(n.sent[c]) == Apply(map[], Published(steps))
      && EventsIn(n.sent[c]) == n.due[c]
  {
    var w := After(START, steps);
    ViewsStayCurrent(START, steps);
    EventsAreLossless(START, steps);
    StateIsUncoalesced(START, steps);
    FlushKeepsView(w, failed, order, c);
    StepKeepsEvents(w, Flush(failed, order), c);
    var n := Next(w, Flush(failed, order));
    assert n.server.events == [];
    assert EventsIn(n.sent[c]) + [] == EventsIn(n.sent[c]);
  }

  // ---- What is not sent ------------------------------------------------------

  /** A new connection gets the definitions, and the state only if there is one. */
  lemma GreetingIs(s: Server, list: seq<Sample>)
    ensures Greeting(s, list)[0] == Definitions(s.definitions)
    ensures s.latest.Keys == {} ==> |Greeting(s, list)| == 1
    ensures s.latest.Keys != {} ==> Greeting(s, list)[1..] == [Samples(list)]
  {
  }

  /** The definitions set last, `before` being known. */
  function LastSet(steps: seq<Step>, before: seq<Definition>): seq<Definition> {
    if steps == [] then before
    else LastSet(steps[1..], if steps[0].SetDefinitions? then steps[0].ds else before)
  }

  /** In every run a new connection is greeted with the definitions set last. */
  lemma {:induction false} DefinitionsAreLastSet(w: World, steps: seq<Step>, list: seq<Sample>)
    ensures Greeting(After(w, steps).server, list)[0] == Definitions(LastSet(steps, w.server.definitions))
    decreases |steps|
  {
    if steps != [] {
      assert Next(w, steps[0]).server == ServerAfter(w.server, steps[0]);
      StepSets(w.server, steps[0]);
      DefinitionsAreLastSet(Next(w, steps[0]), steps[1..], list);
    }
  }

  lemma StepSets(s: Server, step: Step)
    ensures ServerAfter(s, step).definitions == if step.SetDefinitions? then step.ds else s.definitions
  {
  }

  /** A flush with nothing waiting sends nothing. */
  lemma QuietFlush(w: World, failed: set<nat>, order: seq<Sample>)
    requires w.server.pending == map[] && w.server.events == []
    ensures var n := Next(w, Flush(failed, order));
      n.server == w.server && n.sent == w.sent
  {
  }

  /** What waits when a flush finds nobody connected, or when the server stops, is
      forgotten: a client that joins next is sent and due no event of before. */
  lemma ForgottenWhenAlone(w: World, step: Step, client: nat, snapshot: seq<Sample>)
    requires Sound(w) && Enabled(w, step) && ((step.Flush? && w.server.clients == []) || step.Stop?)
    requires Lists(snapshot, w.server.latest)
    ensures var n := Next(w, step);
      && n.server.clients == [] && n.server.events == [] && n.server.pending == map[]
      && n.server.latest == w.server.latest
    ensures var joined := Next(Next(w, step), Connect(client, snapshot));
      && client in joined.due && joined.due[client] == []
      && client in joined.sent && EventsIn(joined.sent[client]) == []
  {
    AfterGreeting(w.server, snapshot);
    AfterGreeting(Next(w, step).server, snapshot);
  }

  // ---- One publish call stays in one batch -----------------------------------

  /** Between two flushes, while somebody is connected. */
  ghost predicate WithinWindow(w: World, steps: seq<Step>)
    decreases |steps|
  {
    steps != [] ==>
      && !steps[0].Flush? && !steps[0].Stop?
      && (steps[0].Publishing? ==> w.server.clients != [])
      && WithinWindow(Next(w, steps[0]), steps[1..])
  }

  /** Everything published between two flushes waits for the second one: the events
      of all calls in order, and the last values of all calls.  So the samples of one
      call are never split across two batches. */
  lemma {:induction false} WindowIsOneBatch(w: World, steps: seq<Step>)
    requires WithinWindow(w, steps)
    ensures var s := After(w, steps).server;
      && s.events == w.server.events + EventsOf(Published(steps))
      && s.pending == Apply(w.server.pending, Published(steps))
    decreases |steps|
  {
    if steps == [] {
      assert w.server.events + [] == w.server.events;
    } else {
      var n := Next(w, steps[0]);
      WindowIsOneBatch(n, steps[1..]);
      WaitsInWindow(w, steps[0]);
      WaitingAddsUp(w.server, PublishedBy(steps[0]), Published(steps[1..]));
    }
  }

  lemma WaitsInWindow(w: World, step: Step)
    requires !step.Flush? && !step.Stop? && (step.Publishing? ==> w.server.clients != [])
    ensures var s := Next(w, step).server;
      && s.events == w.server.events + EventsOf(PublishedBy(step))
      && s.pending == Apply(w.server.pending, PublishedBy(step))
  {
    assert w.server.events + [] == w.server.events;
  }

  lemma WaitingAddsUp(s: Server, own: seq<Sample>, later: seq<Sample>)
    ensures (s.events + EventsOf(own)) + EventsOf(later) == s.events + EventsOf(own + later)
    ensures Apply(Apply(s.pending, own), later) == Apply(s.pending, own + later)
  {
    ApplyConcat(s.pending, own, later);
    Regroup(s.events, EventsOf(own), EventsOf(later));
  }

  lemma Regroup<T>(a: seq<T>, b: seq<T>, c: seq<T>)
    ensures (a + b) + c == a + (b + c)
  {
  }

  // ---- When a client joins an emptied server ---------------------------------

  /** Exactly when a joining client is up to date after the next flush: when the
      leftover of the pending hash agrees with the state it was sent. */
  lemma JoinIsCurrentIff(w: World, client: nat, snapshot: seq<Sample>, order: seq<Sample>)
    requires Sound(w) && Enabled(w, Connect(client, snapshot)) && Lists(order, w.server.pending)
    ensures var n := Next(Next(w, Connect(client, snapshot)), Flush({}, order));
      client in n.sent && (View(n.sent[client]) == n.server.latest <==> Agree(w.server))
  {
    GreetedThenFlushed(w, client, snapshot, order);
    OverlayIsSame(w.server.latest, w.server.pending);
  }

  lemma GreetedThenFlushed(w: World, client: nat, snapshot: seq<Sample>, order: seq<Sample>)
    requires Sound(w) && Enabled(w, Connect(client, snapshot)) && Lists(order, w.server.pending)
    ensures var n := Next(Next(w, Connect(client, snapshot)), Flush({}, order));
      && client in n.sent && n.server.latest == w.server.latest
      && View(n.sent[client]) == w.server.latest + w.server.pending
  {
    Joined(w, client, snapshot);
    JoinedIsFlushed(Next(w, Connect(client, snapshot)), client, order);
  }

  lemma Joined(w: World, client: nat, snapshot: seq<Sample>)
    requires Sound(w) && Enabled(w, Connect(client, snapshot))
    ensures var joined := Next(w, Connect(client, snapshot));
      && client in joined.sent && client in joined.due && View(joined.sent[client]) == w.server.latest
      && joined.server == Accept(w.server, client)
  {
    AfterGreeting(w.server, snapshot);
  }

  lemma JoinedIsFlushed(joined: World, client: nat, order: seq<Sample>)
    requires Keyed(joined.server.pending) && AllEvents(joined.server.events) && Lists(order, joined.server.pending)
    requires client in joined.server.clients && client in joined.sent && client in joined.due
    ensures var n := Next(joined, Flush({}, order));
      && client in n.sent && n.server.latest == joined.server.latest
      && View(n.sent[client]) == View(joined.sent[client]) + joined.server.pending
  {
    if Sends(joined.server) {
      FlushReaches(joined, {}, order, client);
      AfterBatch(joined.sent[client], joined.server, order);
    } else {
      OverNothing(View(joined.sent[client]));
    }
  }

  lemma OverlayIsSame(base: Values, values: Values)
    ensures base + values == base <==> forall k :: k in values ==> k in base && base[k] == values[k]
  {
    if base + values == base {
      forall k | k in values ensures k in base && base[k] == values[k] {
        assert (base + values)[k] == values[k];
      }
    }
  }

  /** The last client leaves between two samples of one signal, and another joins
      before the flush. */
  function Refill(was: Sample, now: Sample, leaving: nat): seq<Step> {
    [Publishing([was]), Disconnect(leaving), Publishing([now])]
  }

  lemma ApplyOne(values: Values, s: Sample)
    requires !IsEvent(s)
    ensures Apply(values, [s]) == values[s.name.Key() := s] && EventsOf([s]) == []
  {
    assert [s][..0] == [];
  }

  lemma PublishOne(w: World, s: Sample)
    requires !IsEvent(s)
    ensures Next(w, Publishing([s])).server == if w.server.clients == []
      then w.server.(latest := w.server.latest[s.name.Key() := s])
      else w.server.(latest := w.server.latest[s.name.Key() := s], pending := w.server.pending[s.name.Key() := s])
  {
    ApplyOne(w.server.latest, s);
    ApplyOne(w.server.pending, s);
    assert w.server.events + [] == w.server.events;
  }

  lemma RefillLeaves(w: World, was: Sample, now: Sample, leaving: nat)
    requires Sound(w) && w.server.clients == [leaving] && w.server.pending == map[]
    requires !IsEvent(was) && !IsEvent(now) && was.name == now.name
    ensures Runs(w, Refill(was, now, leaving))
    ensures var n := After(w, Refill(was, now, leaving));
      && Sound(n) && n.server.clients == [] && n.server.pending == map[was.name.Key() := was]
      && n.server.latest == w.server.latest[was.name.Key() := now]
  {
    var a := Next(w, Publishing([was]));
    var b := Next(a, Disconnect(leaving));
    StepKeepsSound(w, Publishing([was]));
    StepKeepsSound(a, Disconnect(leaving));
    StepKeepsSound(b, Publishing([now]));
    PublishOne(w, was);
    assert [leaving][..0] == [];
    assert Without([leaving], {leaving}) == [];
    PublishOne(b, now);
    ThreeSteps(w, Publishing([was]), Disconnect(leaving), Publishing([now]));
  }

  lemma OneStep(w: World, a: Step)
    ensures After(w, [a]) == Next(w, a)
    ensures Runs(w, [a]) <==> Enabled(w, a)
  {
    assert [a][1..] == [];
    assert After(Next(w, a), []) == Next(w, a) && Runs(Next(w, a), []);
  }

  lemma TwoSteps(w: World, a: Step, b: Step)
    ensures After(w, [a, b]) == Next(Next(w, a), b)
    ensures Runs(w, [a, b]) <==> Enabled(w, a) && Enabled(Next(w, a), b)
  {
    assert [a, b][1..] == [b];
    OneStep(Next(w, a), b);
  }

  lemma ThreeSteps(w: World, a: Step, b: Step, c: Step)
    ensures After(w, [a, b, c]) == Next(Next(Next(w, a), b), c)
    ensures Runs(w, [a, b, c]) <==> Enabled(w, a) && Enabled(Next(w, a), b) && Enabled(Next(Next(w, a), b), c)
  {
    assert [a, b, c][1..] == [b, c];
    TwoSteps(Next(w, a), b, c);
  }

  /** The hypothesis that no connection is harmful is needed: after such a refill the
      new client is up to date only if the two samples were the same.  Otherwise it
      is sent the current value first and the older one after it. */
  lemma RefillIsCurrentIff(w: World, was: Sample, now: Sample, leaving: nat, joining: nat, snapshot: seq<Sample>)
    requires Sound(w) && w.server.clients == [leaving] && w.server.pending == map[]
    requires !IsEvent(was) && !IsEvent(now) && was.name == now.name
    requires Lists(snapshot, After(w, Refill(was, now, leaving)).server.latest)
    ensures var n := Next(Next(After(w, Refill(was, now, leaving)), Connect(joining, snapshot)), Flush({}, [was]));
      joining in n.sent && (View(n.sent[joining]) == n.server.latest <==> was == now)
  {
    RefillLeaves(w, was, now, leaving);
    var n := After(w, Refill(was, now, leaving));
    OnlyLeftover(n.server, was, now, w.server.latest);
    JoinIsCurrentIff(n, joining, snapshot, [was]);
  }

  lemma OnlyLeftover(s: Server, was: Sample, now: Sample, before: Values)
    requires s.pending == map[was.name.Key() := was] && s.latest == before[was.name.Key() := now] && !IsEvent(was)
    ensures Lists([was], s.pending) && (Agree(s) <==> was == now)
  {
    var k := was.name.Key();
    assert [was][0].name.Key() == k;
    assert k in s.pending && s.latest[k] == now;
  }

  /** A whole run that goes stale. */
  function StaleSteps(was: Sample, now: Sample): seq<Step> {
    [Connect(1, [])] + Refill(was, now, 1) + [Connect(2, [now]), Flush({}, [was])]
  }

  lemma FirstConnection()
    ensures var first := Next(START, Connect(1, []));
      && Enabled(START, Connect(1, [])) && Sound(first)
      && first.server == Server([], [1], map[], map[], [])
  {
    StepKeepsSound(START, Connect(1, []));
  }

  lemma RefillGoesStale(was: Sample, now: Sample)
    requires !IsEvent(was) && !IsEvent(now) && was.name == now.name && was != now
    ensures Runs(START, StaleSteps(was, now))
    ensures var w := After(START, StaleSteps(was, now));
      w.server.clients == [2] && 2 in w.sent && View(w.sent[2]) != w.server.latest
  {
    FirstConnection();
    var first := Next(START, Connect(1, []));
    RefillLeaves(first, was, now, 1);
    StaleAfterRefill(first, was, now, 1, 2);
    StaleRun(Connect(1, []), Refill(was, now, 1), Connect(2, [now]), Flush({}, [was]));
  }

  /** Concretely: signal "A" is false, the client leaves, "A" turns true, another joins. */
  lemma RefillCanBeStale()
    ensures var was, now :=
      Sample(Text([65]), Boolean(false), Null, 1, Can), Sample(Text([65]), Boolean(true), Null, 2, Can);
      var w := After(START, StaleSteps(was, now));
      Runs(START, StaleSteps(was, now)) && 2 in w.sent && View(w.sent[2]) != w.server.latest
  {
    var was, now := Sample(Text([65]), Boolean(false), Null, 1, Can), Sample(Text([65]), Boolean(true), Null, 2, Can);
    assert was.name.Key()[0] != EVENT_PREFIX[0];
    RefillGoesStale(was, now);
  }

  lemma ListsOne(s: Sample, values: Values)
    ensures values == map[] ==> Lists([s], values[s.name.Key() := s])
  {
    assert [s][0].name.Key() == s.name.Key();
  }

  lemma StaleAfterRefill(first: World, was: Sample, now: Sample, leaving: nat, joining: nat)
    requires Sound(first) && first.server.clients == [leaving]
    requires first.server.pending == map[] && first.server.latest == map[]
    requires !IsEvent(was) && !IsEvent(now) && was.name == now.name && was != now
    ensures var left := After(first, Refill(was, now, leaving));
      var joined := Next(left, Connect(joining, [now]));
      var n := Next(joined, Flush({}, [was]));
      && Enabled(left, Connect(joining, [now])) && Enabled(joined, Flush({}, [was]))
      && n.server.clients == [joining] && joining in n.sent && View(n.sent[joining]) != n.server.latest
  {
    RefillLeaves(first, was, now, leaving);
    ListsOne(was, map[]);
    ListsOne(now, map[]);
    RefillIsCurrentIff(first, was, now, leaving, joining, [now]);
    OneIsLeft(Next(After(first, Refill(was, now, leaving)), Connect(joining, [now])), joining, [was]);
  }

  lemma OneIsLeft(w: World, client: nat, order: seq<Sample>)
    requires w.server.clients == [client]
    ensures Next(w, Flush({}, order)).server.clients == [client]
  {
    assert [client][..0] == [];
    WithoutNone([client], {});
  }

  lemma StaleRun(first: Step, middle: seq<Step>, third: Step, last: Step)
    requires Enabled(START, first) && Runs(Next(START, first), middle)
    requires var left := After(Next(START, first), middle); Enabled(left, third) && Enabled(Next(left, third), last)
    ensures var steps := [first] + middle + [third, last];
      && Runs(START, steps) && After(START, steps) == Next(Next(After(Next(START, first), middle), third), last)
  {
    var steps := [first] + middle + [third, last];
    assert steps[1..] == middle + [third, last];
    var x := Next(START, first);
    TwoSteps(After(x, middle), third, last);
    AfterConcat(x, middle, [third, last]);
    RunsConcat(x, middle, [third, last]);
  }

  lemma {:induction false} RunsConcat(w: World, a: seq<Step>, b: seq<Step>)
    requires Runs(w, a) && Runs(After(w, a), b)
    ensures Runs(w, a + b)
    decreases |a|
  {
    if a == [] {
      assert a + b == b;
    } else {
      assert (a + b)[1..] == a[1..] + b;
      RunsConcat(Next(w, a[0]), a[1..], b);
    }
  }

  // ---- The documented hypothesis, and the snapshot ---------------------------

  /** Somebody was connected at some time since the last flush. */
  predicate TouchedAfter(s: Server, step: Step, touched: bool) {
    ServerAfter(s, step).clients != [] || (touched && !step.Flush? && !step.Stop?)
  }

  /** The client list never empties and refills between two flushes. */
  ghost predicate NoRefill(w: World, steps: seq<Step>, touched: bool)
    decreases |steps|
  {
    steps != [] ==>
      && (steps[0].Connect? && w.server.clients == [] ==> !touched)
      && NoRefill(Next(w, steps[0]), steps[1..], TouchedAfter(w.server, steps[0], touched))
  }

  lemma {:induction false} NoRefillIsHarmless(w: World, steps: seq<Step>, touched: bool)
    requires NoRefill(w, steps, touched)
    requires w.server.clients != [] ==> touched
    requires !touched ==> w.server.pending == map[]
    ensures AllHarmless(w, steps)
    decreases |steps|
  {
    if steps != [] {
      NoRefillIsHarmless(Next(w, steps[0]), steps[1..], TouchedAfter(w.server, steps[0], touched));
    }
  }

  /** In every run whose client list does not empty and refill between two flushes,
      a client agrees with an uncoalesced one right after each flush. */
  lemma CoalescingRefinesEverySample(steps: seq<Step>, failed: set<nat>, order: seq<Sample>, c: nat)
    requires Runs(START, steps) && NoRefill(START, steps, false)
    requires Enabled(After(START, steps), Flush(failed, order))
    requires c in Next(After(START, steps), Flush(failed, order)).server.clients
    ensures var n := Next(After(START, steps), Flush(failed, order));
      c in n.sent && View(n.sent[c]) == Apply(map[], Published(steps))
  {
    NoRefillIsHarmless(START, steps, false);
    FlushedClientIsUpToDate(steps, failed, order, c);
  }

  /** What a new connection is sent never contains an event, in any run. */
  lemma SnapshotsHoldNoEvents(steps: seq<Step>, client: nat, snapshot: seq<Sample>)
    requires Runs(START, steps) && Enabled(After(START, steps), Connect(client, snapshot))
    ensures var greeting := Greeting(After(START, steps).server, snapshot);
      && greeting[0].Definitions? && EventsIn(greeting) == []
      && forall i :: 0 <= i < |snapshot| ==> !IsEvent(snapshot[i])
  {
    EventsAreLossless(START, steps);
    AfterGreeting(After(START, steps).server, snapshot);
  }

  // ---- Through the wire to the dash ------------------------------------------

  function ReceivedValues(values: Values): Values {
    map k | k in values :: Received(values[k])
  }

  lemma MapConcat<T, U>(f: T -> U, a: seq<T>, b: seq<T>)
    ensures Map(f, a + b) == Map(f, a) + Map(f, b)
  {
  }

  lemma MapLast<T, U>(f: T -> U, items: seq<T>)
    requires items != []
    ensures Map(f, items) == Map(f, items[..|items| - 1]) + [f(items[|items| - 1])]
    ensures Map(f, items)[..|items| - 1] == Map(f, items[..|items| - 1])
  {
    SplitLast(items);
    MapAppend(f, items[..|items| - 1], items[|items| - 1]);
  }

  lemma SplitLast<T>(items: seq<T>)
    requires items != []
    ensures items[..|items| - 1] + [items[|items| - 1]] == items
  {
  }

  lemma MapAppend<T, U>(f: T -> U, front: seq<T>, last: T)
    ensures Map(f, front + [last]) == Map(f, front) + [f(last)]
    ensures Map(f, front + [last])[..|front|] == Map(f, front)
  {
    MapConcat(f, front, [last]);
    MapOne(f, last);
    FrontOf(Map(f, front), f(last));
  }

  lemma MapOne<T, U>(f: T -> U, item: T)
    ensures Map(f, [item]) == [f(item)]
  {
  }

  lemma FrontOf<T>(front: seq<T>, last: T)
    ensures (front + [last])[..|front|] == front
  {
  }

  lemma ApplyAppend(values: Values, samples: seq<Sample>, last: Sample)
    ensures Apply(values, samples + [last])
      == if IsEvent(last) then Apply(values, samples) else Apply(values, samples)[last.name.Key() := last]
    ensures EventsOf(samples + [last]) == EventsOf(samples) + if IsEvent(last) then [last] else []
  {
    assert (samples + [last])[..|samples|] == samples;
  }

  lemma ReceivedPut(values: Values, s: Sample)
    ensures IsEvent(Received(s)) == IsEvent(s)
    ensures ReceivedValues(values[s.name.Key() := s]) == ReceivedValues(values)[s.name.Key() := Received(s)]
  {
  }

  lemma {:induction false} ApplyReceived(values: Values, samples: seq<Sample>)
    ensures Apply(ReceivedValues(values), Map(Received, samples)) == ReceivedValues(Apply(values, samples))
    ensures EventsOf(Map(Received, samples)) == Map(Received, EventsOf(samples))
  {
    if samples != [] {
      var front, last := samples[..|samples| - 1], samples[|samples| - 1];
      ApplyReceived(values, front);
      MapLast(Received, samples);
      ApplyAppend(ReceivedValues(values), Map(Received, front), Received(last));
      ReceivedPut(Apply(values, front), last);
      if IsEvent(last) { MapLast(Received, EventsOf(samples)); }
    }
  }

  lemma {:induction false} ViewReceived(ms: seq<Message>)
    ensures View(Map(ReceivedMessage, ms)) == ReceivedValues(View(ms))
    ensures EventsIn(Map(ReceivedMessage, ms)) == Map(Received, EventsIn(ms))
  {
    if ms != [] {
      var front, last := ms[..|ms| - 1], ms[|ms| - 1];
      ViewReceived(front);
      MapLast(ReceivedMessage, ms);
      ViewAppend(Map(ReceivedMessage, front), ReceivedMessage(last));
      SamplesReceived(last);
      ApplyReceived(View(front), SamplesOf(last));
      MapConcat(Received, EventsIn(front), EventsOf(SamplesOf(last)));
    }
  }

  lemma SamplesReceived(m: Message)
    ensures SamplesOf(ReceivedMessage(m)) == Map(Received, SamplesOf(m))
  {
  }

  /** From the server's messages through frames, arbitrary cuts and the decoder: the
      dash ends up with the same last values and the same events, as received. */
  lemma DashSeesWhatWasSent(ms: seq<Message>, chunks: seq<Octets>)
    requires AllEncodable(ms) && Join(chunks) == Join(Wires(ms))
    ensures var t := ScanChunks(Front, [], chunks);
      && t.rest == []
      && View(t.segments) == ReceivedValues(View(ms))
      && EventsIn(t.segments) == Map(Received, EventsIn(ms))
  {
    FrontIsSteady();
    assert Join(Wires(ms)) + [] == Join(Wires(ms));
    FramesAreTaken(ms, []);
    FromNothing(Front, Map(ReceivedMessage, ms), [], chunks);
    ViewReceived(ms);
  }
}
