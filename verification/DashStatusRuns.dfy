/** What a status frame does to the dash: the first one, and one that is not the latest
    word on a button. */
module DashStatusRuns {
  import opened ButtonOctets
  import opened DashInput
  import opened DashInputRuns
  import opened Options

  // ---- One status ------------------------------------------------------------

  lemma StatusOfBatch(s: Controller, samples: seq<Sample>, mask: Table, b: nat)
    requires b < DASH_BUTTONS && LastStatus(samples).Some? && mask == Mask(LastStatus(samples).value)
    requires var e := ProcessEntries(s, Collect(samples)).state; !e.statusInitialized || e.known[b]
    ensures var events := ProcessEntries(s, Collect(samples));
      var o := ProcessSamples(s, samples);
      && o.state.statusInitialized && o.state.known[b] && o.state.pressed[b] == mask[b]
      && Count(o.effects, b) == Count(events.effects, b)
           + if events.state.known[b] && !events.state.pressed[b] && mask[b] then 1 else 0
  {
    var events := ProcessEntries(s, Collect(samples));
    var t := events.state;
    StatusActs(t.(statusInitialized := true), !t.statusInitialized, mask, 0, b);
    CountConcat(events.effects, ProcessStatus(t, mask).effects, b);
  }

  lemma {:induction false} EventsAreNoStatus(s: Controller, entries: seq<Entry>)
    ensures ProcessEntries(s, entries).state.statusInitialized == s.statusInitialized
    decreases |entries|
  {
    if entries != [] { EventsAreNoStatus(ProcessEntry(s, entries[0]).state, entries[1..]); }
  }

  /** The first status, with events in its batch or without: it adds an action for
      exactly the buttons that events have made known as released and that it shows as
      pressed.  The other buttons are only recorded. */
  lemma FirstStatusActsIff(s: Controller, samples: seq<Sample>, b: nat)
    requires b < DASH_BUTTONS && !s.statusInitialized && LastStatus(samples).Some?
    ensures var events := ProcessEntries(s, Collect(samples));
      var mask := Mask(LastStatus(samples).value);
      Count(ProcessSamples(s, samples).effects, b) == Count(events.effects, b)
        + if events.state.known[b] && !events.state.pressed[b] && mask[b] then 1 else 0
  {
    EventsAreNoStatus(s, Collect(samples));
    StatusOfBatch(s, samples, Mask(LastStatus(samples).value), b);
  }

  /** A first status before any event does not act. */
  lemma FirstStatusDoesNotAct(samples: seq<Sample>, b: nat)
    requires b < DASH_BUTTONS && EventSamples(samples) == [] && LastStatus(samples).Some?
    ensures Count(ProcessSamples(INITIAL, samples).effects, b) == 0
  {
    CollectIgnoresOthers(samples);
    FirstStatusActsIff(INITIAL, samples, b);
  }

  /** A delivery of a status and nothing else. */
  function Alone(table: Table): seq<Sample> { [Sample(Inputs, Value(table), 0)] }

  // ---- When no press can act twice from here on ------------------------------

  /** However the run goes on in order, from edge number `n` on, the dash never acts
      more often than the button is pressed. */
  ghost predicate SafeFromHere(s: Controller, b: nat, states: seq<Table>, edges: seq<Edge>, n: nat, count: nat)
    requires |states| == |edges| + 1
  {
    forall deliveries, batches :: Delivers(deliveries, batches, states, edges, n) && End(batches, n) <= |edges| ==>
      count + Count(Run(s, deliveries).effects, b) <= Presses(edges, b, End(batches, n))
  }

  /** The presses that the dash will take a status for although it was told of them:
      one if it believes a held button released. */
  function Owed(s: Controller, b: nat, held: bool): nat
    requires b < DASH_BUTTONS
  {
    if !s.pressed[b] && held then 1 else 0
  }

  /** Exactly when it is safe to go on: when the actions so far and the one the next
      truthful status would bring are no more than the presses. */
  lemma SafeFromHereIff(s: Controller, b: nat, states: seq<Table>, edges: seq<Edge>, n: nat, count: nat)
    requires b < DASH_BUTTONS && s.statusInitialized && s.known[b]
    requires Wheel(states, edges) && Ordered(edges) && n <= |edges|
    ensures SafeFromHere(s, b, states, edges, n, count)
      <==> count + Owed(s, b, states[n][b]) <= Presses(edges, b, n)
  {
    if count + Owed(s, b, states[n][b]) <= Presses(edges, b, n) {
      forall deliveries, batches | Delivers(deliveries, batches, states, edges, n) && End(batches, n) <= |edges|
        ensures count + Count(Run(s, deliveries).effects, b) <= Presses(edges, b, End(batches, n))
      {
        RunFrom(s, deliveries, batches, b, states, edges, n, count, false);
      }
    } else {
      var status, batch := Alone(states[n]), Batch([], Some(n), n);
      StatusIsDelivery(states, edges, n, status, batch);
      TruthIsCounted(s, b, states[n]);
      assert count + Count(Run(s, [status]).effects, b) > Presses(edges, b, End([batch], n));
    }
  }

  /** A truthful status brings the owed action. */
  lemma TruthIsCounted(s: Controller, b: nat, held: Table)
    requires b < DASH_BUTTONS && s.statusInitialized && s.known[b]
    ensures Count(Run(s, [Alone(held)]).effects, b) == Owed(s, b, held[b])
  {
    MaskBack(held);
    StatusAlone(s, Value(held), 0, b);
    RunOfOne(s, Alone(held), b);
  }

  lemma StatusIsDelivery(states: seq<Table>, edges: seq<Edge>, n: nat, status: seq<Sample>, batch: Batch)
    requires |states| == |edges| + 1 && n <= |edges|
    requires status == Alone(states[n]) && batch == Batch([], Some(n), n)
    ensures Delivers([status], [batch], states, edges, n) && End([batch], n) == n
  {
    MaskBack(states[n]);
    assert status[..0] == [] && [status][1..] == [] && [batch][1..] == [];
    assert EventSamples(status) == [];
  }

  lemma RunOfOne(s: Controller, samples: seq<Sample>, b: nat)
    ensures Count(Run(s, [samples]).effects, b) == Count(ProcessSamples(s, samples).effects, b)
  {
    var one := ProcessSamples(s, samples);
    assert [samples][1..] == [];
    assert one.effects + [] == one.effects;
  }

  // ---- Runs without a lost event, and with any statuses ----------------------

  function Upward(from: nat, upto: nat): (ks: seq<nat>)
    requires from <= upto
    ensures |ks| == upto - from && forall i :: 0 <= i < |ks| ==> ks[i] == from + i
  {
    seq(upto - from, i => from + i)
  }

  /** The dash knows the button, has acted on all its presses, and sees what is new as new. */
  ghost predicate UpToDate(s: Controller, b: nat, states: seq<Table>, edges: seq<Edge>, n: nat, count: nat)
    requires b < DASH_BUTTONS && |states| == |edges| + 1 && n <= |edges|
  {
    && s.statusInitialized && s.known[b]
    && OkAt(s, b, states, edges, n, count, true) && Recent(s, edges, n)
  }

  lemma AllEventsAreTaken(samples: seq<Sample>, edges: seq<Edge>, from: nat, upto: nat)
    requires Ordered(edges) && DistinctTimes(edges) && from <= upto <= |edges|
    requires EventSamples(samples) == Triples(edges, Upward(from, upto))
    ensures Collect(samples) == Entries(edges, Upward(from, upto))
  {
    CollectIgnoresOthers(samples);
    CollectTriples(edges, Upward(from, upto), from, upto);
    AllSurvive(edges, Upward(from, upto), from, upto);
  }

  lemma TakeAllEvents(s: Controller, b: nat, states: seq<Table>, edges: seq<Edge>, from: nat, upto: nat, count: nat)
    requires b < DASH_BUTTONS && Wheel(states, edges) && DistinctTimes(edges) && from <= upto <= |edges|
    requires UpToDate(s, b, states, edges, from, count)
    ensures var events := ProcessEntries(s, Entries(edges, Upward(from, upto)));
      UpToDate(events.state, b, states, edges, upto, count + Count(events.effects, b))
  {
    var ks := Upward(from, upto);
    TakeEdges(s, b, states, edges, ks, from, upto, count, true);
    EdgesKeepRecent(s, edges, ks, from, upto);
    EventsAreNoStatus(s, Entries(edges, ks));
  }

  lemma AgreeingStatus(s: Controller, mask: Table, b: nat, states: seq<Table>, edges: seq<Edge>, n: nat, count: nat)
    requires b < DASH_BUTTONS && |states| == |edges| + 1 && n <= |edges|
    requires UpToDate(s, b, states, edges, n, count) && mask[b] == states[n][b]
    ensures var o := ProcessStatus(s, mask); UpToDate(o.state, b, states, edges, n, count + Count(o.effects, b))
  {
    TakeStatus(s, mask, b, Presses(edges, b, n), count, true);
    StatusActs(s, false, mask, 0, b);
  }

  lemma OtherStatusOwes(s: Controller, mask: Table, b: nat, held: bool)
    requires b < DASH_BUTTONS && s.statusInitialized && s.known[b] && s.pressed[b] == held && mask[b] != held
    ensures var o := ProcessStatus(s, mask);
      && o.state.statusInitialized && o.state.known[b]
      && Count(o.effects, b) + Owed(o.state, b, held) == 1
  {
    StatusActs(s, false, mask, 0, b);
  }

  lemma OneTooMany(s: Controller, b: nat, states: seq<Table>, edges: seq<Edge>, n: nat, count: nat)
    requires b < DASH_BUTTONS && s.statusInitialized && s.known[b]
    requires Wheel(states, edges) && Ordered(edges) && n <= |edges|
    requires count + Owed(s, b, states[n][b]) > Presses(edges, b, n)
    ensures !SafeFromHere(s, b, states, edges, n, count)
  {
    SafeFromHereIff(s, b, states, edges, n, count);
  }

  /** What a status leaves when everything before it was taken. */
  ghost predicate LeftBy(o: Outcome, mask: Table, b: nat, states: seq<Table>, edges: seq<Edge>, n: nat, count: nat)
    requires b < DASH_BUTTONS && |states| == |edges| + 1 && n <= |edges|
  {
    if mask[b] == states[n][b] then UpToDate(o.state, b, states, edges, n, count)
    else !SafeFromHere(o.state, b, states, edges, n, count)
  }

  lemma LeftByOther(o: Outcome, mask: Table, b: nat, states: seq<Table>, edges: seq<Edge>, n: nat, count: nat)
    requires b < DASH_BUTTONS && Wheel(states, edges) && Ordered(edges) && n <= |edges|
    requires count == Presses(edges, b, n) && mask[b] != states[n][b]
    requires o.state.statusInitialized && o.state.known[b] && Count(o.effects, b) + Owed(o.state, b, states[n][b]) == 1
    ensures LeftBy(o, mask, b, states, edges, n, count + Count(o.effects, b))
  {
    OneTooMany(o.state, b, states, edges, n, count + Count(o.effects, b));
  }

  lemma TakeAnyStatus(s: Controller, mask: Table, b: nat, states: seq<Table>, edges: seq<Edge>, n: nat, count: nat)
    requires b < DASH_BUTTONS && Wheel(states, edges) && Ordered(edges) && n <= |edges|
    requires UpToDate(s, b, states, edges, n, count)
    ensures var o := ProcessStatus(s, mask); LeftBy(o, mask, b, states, edges, n, count + Count(o.effects, b))
  {
    if mask[b] == states[n][b] {
      AgreeingStatus(s, mask, b, states, edges, n, count);
    } else {
      OtherStatusOwes(s, mask, b, states[n][b]);
      LeftByOther(ProcessStatus(s, mask), mask, b, states, edges, n, count);
    }
  }

  lemma WithStatus(s: Controller, samples: seq<Sample>, mask: Table, b: nat)
    requires LastStatus(samples).Some? && mask == Mask(LastStatus(samples).value)
    ensures var events := ProcessEntries(s, Collect(samples));
      var p := ProcessStatus(events.state, mask);
      var o := ProcessSamples(s, samples);
      o.state == p.state && Count(o.effects, b) == Count(events.effects, b) + Count(p.effects, b)
  {
    var events := ProcessEntries(s, Collect(samples));
    CountConcat(events.effects, ProcessStatus(events.state, mask).effects, b);
  }

  lemma LeftBySame(o: Outcome, p: Outcome, mask: Table, b: nat, states: seq<Table>, edges: seq<Edge>, n: nat,
    count: nat, other: nat)
    requires b < DASH_BUTTONS && |states| == |edges| + 1 && n <= |edges|
    requires o.state == p.state && other == count && LeftBy(p, mask, b, states, edges, n, count)
    ensures LeftBy(o, mask, b, states, edges, n, other)
  {
  }

  lemma TakeStatusAfter(s: Controller, samples: seq<Sample>, events: Outcome, mask: Table, b: nat, states: seq<Table>,
    edges: seq<Edge>, n: nat, count: nat)
    requires b < DASH_BUTTONS && Wheel(states, edges) && Ordered(edges) && n <= |edges|
    requires LastStatus(samples).Some? && mask == Mask(LastStatus(samples).value)
    requires events == ProcessEntries(s, Collect(samples))
    requires UpToDate(events.state, b, states, edges, n, count + Count(events.effects, b))
    ensures var o := ProcessSamples(s, samples); LeftBy(o, mask, b, states, edges, n, count + Count(o.effects, b))
  {
    var c := count + Count(events.effects, b);
    TakeAnyStatus(events.state, mask, b, states, edges, n, c);
    WithStatus(s, samples, mask, b);
    var o, p := ProcessSamples(s, samples), ProcessStatus(events.state, mask);
    LeftBySame(o, p, mask, b, states, edges, n, c + Count(p.effects, b), count + Count(o.effects, b));
  }

  /** A delivery with all its events leaves the dash up to date if its status agrees,
      and open to acting twice otherwise. */
  lemma TakeDelivery(s: Controller, samples: seq<Sample>, mask: Table, b: nat, states: seq<Table>, edges: seq<Edge>,
    from: nat, upto: nat, count: nat)
    requires b < DASH_BUTTONS && Wheel(states, edges) && Ordered(edges) && DistinctTimes(edges)
    requires from <= upto <= |edges| && EventSamples(samples) == Triples(edges, Upward(from, upto))
    requires LastStatus(samples).Some? && mask == Mask(LastStatus(samples).value)
    requires UpToDate(s, b, states, edges, from, count)
    ensures var o := ProcessSamples(s, samples); LeftBy(o, mask, b, states, edges, upto, count + Count(o.effects, b))
  {
    AllEventsAreTaken(samples, edges, from, upto);
    TakeAllEvents(s, b, states, edges, from, upto, count);
    var events := ProcessEntries(s, Collect(samples));
    TakeStatusAfter(s, samples, events, mask, b, states, edges, upto, count);
  }

  lemma TakeDeliveryOfEvents(s: Controller, samples: seq<Sample>, b: nat, states: seq<Table>, edges: seq<Edge>,
    from: nat, upto: nat, count: nat)
    requires b < DASH_BUTTONS && Wheel(states, edges) && Ordered(edges) && DistinctTimes(edges)
    requires from <= upto <= |edges| && EventSamples(samples) == Triples(edges, Upward(from, upto))
    requires LastStatus(samples).None? && UpToDate(s, b, states, edges, from, count)
    ensures var o := ProcessSamples(s, samples); UpToDate(o.state, b, states, edges, upto, count + Count(o.effects, b))
  {
    AllEventsAreTaken(samples, edges, from, upto);
    TakeAllEvents(s, b, states, edges, from, upto, count);
  }

  lemma UpToDateIsSafe(s: Controller, b: nat, states: seq<Table>, edges: seq<Edge>, n: nat, count: nat)
    requires b < DASH_BUTTONS && Wheel(states, edges) && Ordered(edges) && n <= |edges|
    requires UpToDate(s, b, states, edges, n, count)
    ensures SafeFromHere(s, b, states, edges, n, count)
  {
    SafeFromHereIff(s, b, states, edges, n, count);
  }

  /** A moment between two deliveries: the controller, how many edges have been
      delivered, and how often the button has acted. */
  datatype Moment = Moment(state: Controller, cut: nat, count: nat)

  function StatusOf(samples: seq<Sample>): Option<Table> {
    if LastStatus(samples).None? then None else Some(Mask(LastStatus(samples).value))
  }

  /** A delivery that brings all events up to the next cut, and perhaps a status of
      which nothing is known. */
  ghost predicate StepOf(m: Moment, samples: seq<Sample>, status: Option<Table>, n: Moment, b: nat, edges: seq<Edge>) {
    var o := ProcessSamples(m.state, samples);
    && m.cut <= n.cut <= |edges|
    && EventSamples(samples) == Triples(edges, Upward(m.cut, n.cut)) && StatusOf(samples) == status
    && n.state == o.state && n.count == m.count + Count(o.effects, b)
  }

  ghost predicate Trace(moments: seq<Moment>, deliveries: seq<seq<Sample>>, statuses: seq<Option<Table>>, b: nat,
    edges: seq<Edge>)
  {
    && |moments| == |deliveries| + 1 == |statuses| + 1
    && (forall i :: 0 <= i < |moments| ==> moments[i].cut <= |edges|)
    && forall i :: 0 <= i < |deliveries| ==> StepOf(moments[i], deliveries[i], statuses[i], moments[i + 1], b, edges)
  }

  ghost predicate SafeAt(m: Moment, b: nat, states: seq<Table>, edges: seq<Edge>)
    requires |states| == |edges| + 1
  {
    SafeFromHere(m.state, b, states, edges, m.cut, m.count)
  }

  ghost predicate UpToDateAt(m: Moment, b: nat, states: seq<Table>, edges: seq<Edge>)
    requires b < DASH_BUTTONS && |states| == |edges| + 1 && m.cut <= |edges|
  {
    UpToDate(m.state, b, states, edges, m.cut, m.count)
  }

  /** The status, if there is one, shows the button as it is. */
  predicate AgreesAt(status: Option<Table>, m: Moment, b: nat, states: seq<Table>)
    requires b < DASH_BUTTONS && m.cut < |states|
  {
    status.Some? ==> status.value[b] == states[m.cut][b]
  }

  lemma StepLeaves(m: Moment, samples: seq<Sample>, status: Option<Table>, n: Moment, b: nat, states: seq<Table>,
    edges: seq<Edge>)
    requires b < DASH_BUTTONS && Wheel(states, edges) && Ordered(edges) && DistinctTimes(edges)
    requires StepOf(m, samples, status, n, b, edges) && UpToDateAt(m, b, states, edges)
    ensures if AgreesAt(status, n, b, states) then UpToDateAt(n, b, states, edges) else !SafeAt(n, b, states, edges)
  {
    match status {
      case None => TakeDeliveryOfEvents(m.state, samples, b, states, edges, m.cut, n.cut, m.count);
      case Some(mask) => TakeDelivery(m.state, samples, mask, b, states, edges, m.cut, n.cut, m.count);
    }
  }

  lemma {:induction false} UpToDateUntil(moments: seq<Moment>, deliveries: seq<seq<Sample>>,
    statuses: seq<Option<Table>>, b: nat, states: seq<Table>, edges: seq<Edge>, k: nat)
    requires b < DASH_BUTTONS && Wheel(states, edges) && Ordered(edges) && DistinctTimes(edges)
    requires Trace(moments, deliveries, statuses, b, edges) && UpToDateAt(moments[0], b, states, edges)
    requires k < |moments| && forall i :: 0 <= i < k ==> AgreesAt(statuses[i], moments[i + 1], b, states)
    ensures UpToDateAt(moments[k], b, states, edges)
    decreases k
  {
    if k > 0 {
      UpToDateUntil(moments, deliveries, statuses, b, states, edges, k - 1);
      assert StepOf(moments[k - 1], deliveries[k - 1], statuses[k - 1], moments[k - 1 + 1], b, edges);
      assert AgreesAt(statuses[k - 1], moments[k - 1 + 1], b, states);
      StepLeaves(moments[k - 1], deliveries[k - 1], statuses[k - 1], moments[k], b, states, edges);
    }
  }

  lemma {:induction false} FirstOther(moments: seq<Moment>, statuses: seq<Option<Table>>, b: nat, states: seq<Table>,
    n: nat) returns (k: nat)
    requires b < DASH_BUTTONS && n < |statuses| < |moments|
    requires forall i :: 0 <= i < |moments| ==> moments[i].cut < |states|
    requires !AgreesAt(statuses[n], moments[n + 1], b, states)
    ensures k <= n && !AgreesAt(statuses[k], moments[k + 1], b, states)
    ensures forall i :: 0 <= i < k ==> AgreesAt(statuses[i], moments[i + 1], b, states)
    decreases n
  {
    if i :| 0 <= i < n && !AgreesAt(statuses[i], moments[i + 1], b, states) {
      k := FirstOther(moments, statuses, b, states, i);
    } else {
      k := n;
    }
  }

  /** In a run that loses no event, whatever its statuses say: no press can ever act
      twice, at any moment and however the run goes on, exactly when each status shows
      the button as it is after the events of its delivery.  A status that is older
      than those events, or than earlier ones, and shows the button otherwise makes a
      press act twice, at once or as soon as the next status tells the truth. */
  lemma NeverTwiceIff(moments: seq<Moment>, deliveries: seq<seq<Sample>>, statuses: seq<Option<Table>>, b: nat,
    states: seq<Table>, edges: seq<Edge>)
    requires b < DASH_BUTTONS && Wheel(states, edges) && Ordered(edges) && DistinctTimes(edges)
    requires Trace(moments, deliveries, statuses, b, edges) && UpToDateAt(moments[0], b, states, edges)
    ensures (forall i :: 0 <= i < |moments| ==> SafeAt(moments[i], b, states, edges))
      <==> (forall i :: 0 <= i < |statuses| ==> AgreesAt(statuses[i], moments[i + 1], b, states))
  {
    if forall i :: 0 <= i < |statuses| ==> AgreesAt(statuses[i], moments[i + 1], b, states) {
      forall i | 0 <= i < |moments| ensures SafeAt(moments[i], b, states, edges) {
        UpToDateUntil(moments, deliveries, statuses, b, states, edges, i);
        UpToDateIsSafe(moments[i].state, b, states, edges, moments[i].cut, moments[i].count);
      }
    } else {
      var n :| 0 <= n < |statuses| && !AgreesAt(statuses[n], moments[n + 1], b, states);
      var k := FirstOther(moments, statuses, b, states, n);
      UpToDateUntil(moments, deliveries, statuses, b, states, edges, k);
      StepLeaves(moments[k], deliveries[k], statuses[k], moments[k + 1], b, states, edges);
      assert !SafeAt(moments[k + 1], b, states, edges);
    }
  }

  // ---- The shortest run in which a press acts twice --------------------------

  /** A press event and a status in one batch, and then a status that still shows the
      button held: the button acts once if and only if the first status already showed
      the press. */
  lemma HeldPressActsOnceIff(s: Controller, press: Edge, status: int, later: int, at: int, laterAt: int)
    requires press.button < DASH_BUTTONS && press.pressed && press.timestampNs > s.lastEventTimestampNs
    requires s.statusInitialized && s.known[press.button] && !s.pressed[press.button]
    requires Mask(later)[press.button]
    ensures var first := Triple(press) + [Sample(Inputs, status, at)];
      var second := [Sample(Inputs, later, laterAt)];
      var count := Count(Run(s, [first, second]).effects, press.button);
      count == if Mask(status)[press.button] then 1 else 2
  {
    var first := Triple(press) + [Sample(Inputs, status, at)];
    var second := [Sample(Inputs, later, laterAt)];
    var one := ProcessSamples(s, first);
    PressThenStatus(s, press, status, at);
    StatusAlone(one.state, later, laterAt, press.button);
    RunOfTwo(s, first, second, press.button);
  }

  lemma StatusAlone(s: Controller, value: int, at: int, b: nat)
    requires b < DASH_BUTTONS && s.statusInitialized && s.known[b]
    ensures Count(ProcessSamples(s, [Sample(Inputs, value, at)]).effects, b)
      == if !s.pressed[b] && Mask(value)[b] then 1 else 0
  {
    var samples := [Sample(Inputs, value, at)];
    assert samples[..0] == [];
    var mask := Mask(value);
    StatusActs(s, false, mask, 0, b);
    assert ProcessEntries(s, Collect(samples)) == Outcome(s, []);
    assert [] + ProcessStatus(s, mask).effects == ProcessStatus(s, mask).effects;
  }

  lemma RunOfTwo(s: Controller, first: seq<Sample>, second: seq<Sample>, b: nat)
    ensures var one := ProcessSamples(s, first);
      Count(Run(s, [first, second]).effects, b)
        == Count(one.effects, b) + Count(ProcessSamples(one.state, second).effects, b)
  {
    var one := ProcessSamples(s, first);
    var two := ProcessSamples(one.state, second);
    assert [first, second][1..] == [second];
    assert [second][1..] == [];
    assert Run(one.state, [second]) == Run(two.state, []).After(two.effects);
    CountConcat(two.effects, [], b);
    CountConcat(one.effects, two.effects + [], b);
  }

  lemma PressIsTaken(s: Controller, press: Edge, status: int, at: int)
    requires press.button < DASH_BUTTONS && press.pressed && press.timestampNs > s.lastEventTimestampNs
    requires s.statusInitialized && s.known[press.button] && !s.pressed[press.button]
    ensures var samples := Triple(press) + [Sample(Inputs, status, at)];
      var events := ProcessEntries(s, Collect(samples));
      && LastStatus(samples) == Some(status)
      && events.state.statusInitialized && events.state.known[press.button] && events.state.pressed[press.button]
      && Count(events.effects, press.button) == 1
  {
    var samples := Triple(press) + [Sample(Inputs, status, at)];
    assert samples[..3] == Triple(press);
    CollectTriple([], press, []);
    assert [] + Triple(press) == Triple(press) && [] + [EntryOf(press)] == [EntryOf(press)];
    var entries := [EntryOf(press)];
    var event := ProcessEntry(s, entries[0]);
    assert entries[1..] == [];
    assert ProcessEntries(s, entries) == Outcome(event.state, event.effects + []);
    CountConcat(event.effects, [], press.button);
  }

  lemma PressThenStatus(s: Controller, press: Edge, status: int, at: int)
    requires press.button < DASH_BUTTONS && press.pressed && press.timestampNs > s.lastEventTimestampNs
    requires s.statusInitialized && s.known[press.button] && !s.pressed[press.button]
    ensures var o := ProcessSamples(s, Triple(press) + [Sample(Inputs, status, at)]);
      && o.state.statusInitialized && o.state.known[press.button]
      && o.state.pressed[press.button] == Mask(status)[press.button]
      && Count(o.effects, press.button) == 1
  {
    PressIsTaken(s, press, status, at);
    StatusOfBatch(s, Triple(press) + [Sample(Inputs, status, at)], Mask(status), press.button);
  }

  /** All batches are possible and truthful; whether they are in order is left open. */
  ghost predicate Truthful(deliveries: seq<seq<Sample>>, batches: seq<Batch>, states: seq<Table>, edges: seq<Edge>,
    from: nat)
    requires |states| == |edges| + 1
    decreases |batches|
  {
    && |deliveries| == |batches|
    && (batches != [] ==>
          && Possible(batches[0], from, edges)
          && Carries(deliveries[0], batches[0], states, edges, from)
          && Truthful(deliveries[1..], batches[1..], states, edges, batches[0].upto))
  }

  /** The event of a press together with a status. */
  function Together(press: Edge, table: Table): seq<Sample> {
    Triple(press) + [Sample(Inputs, Value(table), press.timestampNs)]
  }

  /** The button is released before the press and held after it. */
  ghost predicate Pressing(press: Edge, released: Table, held: Table) {
    && press.button < DASH_BUTTONS && press.pressed && press.timestampNs >= 0
    && !released[press.button] && held == released[press.button := true]
  }

  /** The run of a press whose event shares a batch with a status read before it. */
  function LateRun(press: Edge, released: Table, held: Table): seq<seq<Sample>> {
    [Alone(released)] + ([Together(press, released)] + ([Alone(held)] + []))
  }

  function LateBatches(): seq<Batch> {
    [Batch([], Some(0), 0)] + ([Batch([0], Some(0), 1)] + ([Batch([], Some(1), 1)] + []))
  }

  /** A run from the start in which one press acts twice.  Everything is truthful and
      delivered; only the status that shares a batch with the event is not the latest
      word. */
  lemma OnePressActsTwice(press: Edge, released: Table, held: Table)
    requires Pressing(press, released, held)
    ensures Wheel([released, held], [press]) && Ordered([press])
    ensures Truthful(LateRun(press, released, held), LateBatches(), [released, held], [press], 0)
    ensures Presses([press], press.button, 1) == 1
    ensures Count(Run(INITIAL, LateRun(press, released, held)).effects, press.button) == 2
  {
    OnePress(press, released, held);
    LateRunIsTruthful(press, released, held);
    LateRunActsTwice(press, released, held);
  }

  lemma OnePress(press: Edge, released: Table, held: Table)
    requires Pressing(press, released, held)
    ensures Wheel([released, held], [press]) && Ordered([press]) && Presses([press], press.button, 1) == 1
  {
    assert Presses([press], press.button, 0) == 0;
  }

  /** Only the second batch is not in order. */
  lemma OnlyOneIsLate(press: Edge)
    ensures var late := LateBatches();
      && |late| == 3 && End(late, 0) == 1
      && InOrder(late[0], 0, [press]) && !StatusIsLatest(late[1], 0) && InOrder(late[2], 1, [press])
  {
    var late := LateBatches();
    assert late[1].delivered[0] == 0;
    EndFirst(Batch([], Some(1), 1), [], 1);
    EndFirst(Batch([0], Some(0), 1), [Batch([], Some(1), 1)] + [], 0);
    EndFirst(Batch([], Some(0), 0), [Batch([0], Some(0), 1)] + ([Batch([], Some(1), 1)] + []), 0);
  }

  lemma EndFirst(b: Batch, batches: seq<Batch>, from: nat)
    ensures End([b] + batches, from) == End(batches, b.upto)
  {
    assert ([b] + batches)[1..] == batches;
  }

  lemma StatusIsCarried(states: seq<Table>, edges: seq<Edge>, n: nat, from: nat)
    requires |states| == |edges| + 1 && from <= n <= |edges|
    ensures Carries(Alone(states[n]), Batch([], Some(n), n), states, edges, from)
  {
    MaskBack(states[n]);
    assert Alone(states[n])[..0] == [];
    assert EventSamples(Alone(states[n])) == [];
  }

  lemma TogetherIsCarried(press: Edge, states: seq<Table>)
    requires |states| == 2
    ensures Carries(Together(press, states[0]), Batch([0], Some(0), 1), states, [press], 0)
  {
    MaskBack(states[0]);
    EventsOfTriple(press);
    var samples := Together(press, states[0]);
    assert samples[..3] == Triple(press);
    assert EventSamples(samples) == Triple(press);
    assert [0][..0] == [] && Triples([press], [0]) == [] + Triple(press);
  }

  lemma TruthfulFirst(deliveries: seq<seq<Sample>>, batches: seq<Batch>, states: seq<Table>, edges: seq<Edge>,
    from: nat, samples: seq<Sample>, b: Batch)
    requires |states| == |edges| + 1 && Possible(b, from, edges) && Carries(samples, b, states, edges, from)
    requires Truthful(deliveries, batches, states, edges, b.upto)
    ensures Truthful([samples] + deliveries, [b] + batches, states, edges, from)
  {
    assert ([samples] + deliveries)[1..] == deliveries && ([b] + batches)[1..] == batches;
  }

  lemma LateRunIsTruthful(press: Edge, released: Table, held: Table)
    ensures Truthful(LateRun(press, released, held), LateBatches(), [released, held], [press], 0)
  {
    var states, edges := [released, held], [press];
    var b0, b1, b2 := Batch([], Some(0), 0), Batch([0], Some(0), 1), Batch([], Some(1), 1);
    StatusIsCarried(states, edges, 0, 0);
    StatusIsCarried(states, edges, 1, 1);
    TogetherIsCarried(press, states);
    TruthfulFirst([], [], states, edges, 1, Alone(held), b2);
    TruthfulFirst([Alone(held)] + [], [b2] + [], states, edges, 0, Together(press, released), b1);
    TruthfulFirst([Together(press, released)] + ([Alone(held)] + []), [b1] + ([b2] + []), states, edges, 0,
                  Alone(released), b0);
  }

  lemma EventsOfTriple(e: Edge)
    ensures EventSamples(Triple(e)) == Triple(e)
  {
    var t := Triple(e);
    assert t[..2] == [t[0], t[1]] && t[..2][..1] == [t[0]] && t[..1][..0] == [];
    assert EventSamples([t[0]]) == [] + [t[0]];
    assert EventSamples([t[0], t[1]]) == [t[0]] + [t[1]];
    assert EventSamples(t) == [t[0], t[1]] + [t[2]];
  }

  lemma RunFirst(s: Controller, samples: seq<Sample>, rest: seq<seq<Sample>>, b: nat)
    ensures var one := ProcessSamples(s, samples);
      Count(Run(s, [samples] + rest).effects, b) == Count(one.effects, b) + Count(Run(one.state, rest).effects, b)
  {
    var one := ProcessSamples(s, samples);
    assert ([samples] + rest)[1..] == rest;
    CountConcat(one.effects, Run(one.state, rest).effects, b);
  }

  lemma RestActsTwice(s: Controller, press: Edge, released: Table, held: Table)
    requires Pressing(press, released, held)
    requires s.statusInitialized && s.known[press.button] && !s.pressed[press.button] && s.lastEventTimestampNs == -1
    ensures Count(Run(s, [Together(press, released)] + ([Alone(held)] + [])).effects, press.button) == 2
  {
    MaskBack(released);
    MaskBack(held);
    HeldPressActsOnceIff(s, press, Value(released), Value(held), press.timestampNs, 0);
    assert [Together(press, released)] + ([Alone(held)] + []) == [Together(press, released), Alone(held)];
  }

  lemma LateRunActsTwice(press: Edge, released: Table, held: Table)
    requires Pressing(press, released, held)
    ensures Count(Run(INITIAL, LateRun(press, released, held)).effects, press.button) == 2
  {
    FirstOfTheRun(released, press.button);
    RestActsTwice(ProcessSamples(INITIAL, Alone(released)).state, press, released, held);
    RunFirst(INITIAL, Alone(released), [Together(press, released)] + ([Alone(held)] + []), press.button);
  }

  lemma FirstOfTheRun(released: Table, b: nat)
    requires b < DASH_BUTTONS && !released[b]
    ensures var one := ProcessSamples(INITIAL, Alone(released));
      && one.state.statusInitialized && one.state.known[b] && !one.state.pressed[b]
      && one.state.lastEventTimestampNs == -1 && Count(one.effects, b) == 0
  {
    MaskBack(released);
    var samples := Alone(released);
    assert samples[..0] == [];
    assert Collect(samples) == [] && LastStatus(samples) == Some(Value(released));
    StatusOfBatch(INITIAL, samples, released, b);
    StatusKeepsTime(INITIAL.(statusInitialized := true), true, released, 0);
  }
}
