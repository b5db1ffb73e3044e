/** What the events of a run do besides acting: releases are announced once each, and an
    event that is delivered again does nothing. */
module DashEventRuns {
  import opened DashInput
  import opened DashInputRuns
  import opened DashStatusRuns
  import opened Options

  // ---- Delivered twice -------------------------------------------------------

  /** The event is whole and says something about one of the eight buttons. */
  predicate Usable(e: Entry) {
    && e.id.Some? && e.kind.Some? && e.lengthMs.Some?
    && 0 <= e.id.value <= 7 && (e.kind.value == 0 || e.kind.value == 1)
  }

  /** An event counts exactly when it is usable and newer than the last that counted. */
  lemma AcceptedIff(s: Controller, e: Entry)
    ensures Accepted(s, e) <==> Usable(e) && e.timestampNs > s.lastEventTimestampNs
    ensures ProcessEntry(s, e).state.lastEventTimestampNs
      == if Usable(e) && e.timestampNs > s.lastEventTimestampNs then e.timestampNs else s.lastEventTimestampNs
  {
  }

  ghost predicate InTime(entries: seq<Entry>) {
    forall i, j :: 0 <= i < j < |entries| ==> entries[i].timestampNs < entries[j].timestampNs
  }

  lemma {:induction false} PutKeepsInTime(entries: seq<Entry>, sample: Sample)
    requires InTime(entries)
    ensures InTime(Put(entries, sample))
  {
    if entries != [] && entries[0].timestampNs < sample.timestampNs {
      PutKeepsInTime(entries[1..], sample);
      PutIsLater(entries[1..], sample, entries[0].timestampNs);
    }
  }

  lemma {:induction false} PutIsLater(entries: seq<Entry>, sample: Sample, time: int)
    requires time < sample.timestampNs && forall i :: 0 <= i < |entries| ==> time < entries[i].timestampNs
    ensures forall i :: 0 <= i < |Put(entries, sample)| ==> time < Put(entries, sample)[i].timestampNs
  {
    if entries != [] { PutIsLater(entries[1..], sample, time); }
  }

  lemma {:induction false} CollectIsInTime(samples: seq<Sample>)
    ensures InTime(Collect(samples))
  {
    if samples != [] {
      CollectIsInTime(samples[..|samples| - 1]);
      PutKeepsInTime(Collect(samples[..|samples| - 1]), samples[|samples| - 1]);
    }
  }

  /** Nothing in the batch would count any more. */
  ghost predicate UsedUp(s: Controller, entries: seq<Entry>) {
    forall i :: 0 <= i < |entries| && Usable(entries[i]) ==> entries[i].timestampNs <= s.lastEventTimestampNs
  }

  lemma {:induction false} ProcessedAreUsedUp(s: Controller, entries: seq<Entry>)
    requires InTime(entries)
    ensures var t := ProcessEntries(s, entries).state;
      UsedUp(t, entries) && s.lastEventTimestampNs <= t.lastEventTimestampNs
    decreases |entries|
  {
    if entries != [] {
      AcceptedIff(s, entries[0]);
      ProcessedAreUsedUp(ProcessEntry(s, entries[0]).state, entries[1..]);
      assert entries == [entries[0]] + entries[1..];
    }
  }

  lemma {:induction false} UsedUpDoNothing(s: Controller, entries: seq<Entry>)
    requires UsedUp(s, entries)
    ensures ProcessEntries(s, entries) == Outcome(s, [])
    decreases |entries|
  {
    if entries != [] {
      AcceptedIff(s, entries[0]);
      UsedUpDoNothing(s, entries[1..]);
    }
  }

  /** The same events delivered once more, whatever they are, change nothing. */
  lemma TwiceIsOnce(s: Controller, samples: seq<Sample>)
    requires LastStatus(samples).None?
    ensures ProcessSamples(ProcessSamples(s, samples).state, samples) == Outcome(ProcessSamples(s, samples).state, [])
  {
    CollectIsInTime(samples);
    ProcessedAreUsedUp(s, Collect(samples));
    UsedUpDoNothing(ProcessSamples(s, samples).state, Collect(samples));
  }

  // ---- Releases --------------------------------------------------------------

  function Releases(effects: seq<Effect>): seq<Effect> {
    if effects == [] then []
    else (if effects[0].Released? then [effects[0]] else []) + Releases(effects[1..])
  }

  lemma {:induction false} ReleasesConcat(x: seq<Effect>, y: seq<Effect>)
    ensures Releases(x + y) == Releases(x) + Releases(y)
  {
    if x == [] {
      assert x + y == y;
    } else {
      assert (x + y)[1..] == x[1..] + y;
      ReleasesConcat(x[1..], y);
      var own := if x[0].Released? then [x[0]] else [];
      assert own + (Releases(x[1..]) + Releases(y)) == (own + Releases(x[1..])) + Releases(y);
    }
  }

  /** The announcements the edges from `from` to `upto` call for. */
  function ReleaseEdges(edges: seq<Edge>, from: nat, upto: nat): seq<Effect>
    requires from <= upto <= |edges|
    decreases upto - from
  {
    if from == upto then []
    else (if edges[from].pressed then [] else [Released(edges[from].button, edges[from].lengthMs)])
         + ReleaseEdges(edges, from + 1, upto)
  }

  lemma {:induction false} ReleaseEdgesConcat(edges: seq<Edge>, from: nat, mid: nat, upto: nat)
    requires from <= mid <= upto <= |edges|
    ensures ReleaseEdges(edges, from, upto) == ReleaseEdges(edges, from, mid) + ReleaseEdges(edges, mid, upto)
    decreases mid - from
  {
    if from < mid {
      ReleaseEdgesConcat(edges, from + 1, mid, upto);
      var own := if edges[from].pressed then [] else [Released(edges[from].button, edges[from].lengthMs)];
      assert own + (ReleaseEdges(edges, from + 1, mid) + ReleaseEdges(edges, mid, upto))
        == (own + ReleaseEdges(edges, from + 1, mid)) + ReleaseEdges(edges, mid, upto);
    }
  }

  lemma {:induction false} StatusReleasesNothing(s: Controller, first: bool, mask: Table, button: nat)
    requires button <= BUTTONS
    ensures Releases(StatusFrom(s, first, mask, button).effects) == []
    decreases BUTTONS - button
  {
    if button < BUTTONS {
      var one := StatusButton(s, first, button, mask[button]);
      StatusReleasesNothing(one.state, first, mask, button + 1);
      ReleasesConcat(one.effects, StatusFrom(one.state, first, mask, button + 1).effects);
    }
  }

  /** A new event of the wheel announces a release and nothing else. */
  lemma EdgeReleases(s: Controller, e: Edge)
    requires e.button < BUTTONS && s.lastEventTimestampNs < e.timestampNs
    ensures var o := ProcessEntry(s, EntryOf(e));
      && Releases(o.effects) == (if e.pressed then [] else [Released(e.button, e.lengthMs)])
      && o.state.lastEventTimestampNs == e.timestampNs
  {
    var one := UpdateButton(s.(lastEventTimestampNs := e.timestampNs), e.button, e.pressed);
    ReleasesConcat(one.effects, if e.pressed then [] else [Released(e.button, e.lengthMs)]);
  }

  ghost predicate OfButtons(edges: seq<Edge>) {
    forall k :: 0 <= k < |edges| ==> edges[k].button < BUTTONS
  }

  lemma {:induction false} EdgesRelease(s: Controller, edges: seq<Edge>, from: nat, upto: nat, entries: seq<Entry>)
    requires OfButtons(edges) && DistinctTimes(edges) && from <= upto <= |edges| && Recent(s, edges, from)
    requires entries == Entries(edges, Upward(from, upto))
    ensures var o := ProcessEntries(s, entries);
      Releases(o.effects) == ReleaseEdges(edges, from, upto) && Recent(o.state, edges, upto)
    decreases upto - from
  {
    if from == upto {
      NothingReleases(s, edges, upto);
      assert entries == [];
    } else {
      var others := Entries(edges, Upward(from + 1, upto));
      var t := FirstEdge(s, edges, from, others);
      EdgesRelease(t, edges, from + 1, upto, others);
      EntriesFrom(edges, from, upto);
    }
  }

  lemma NothingReleases(s: Controller, edges: seq<Edge>, upto: nat)
    requires upto <= |edges|
    ensures ProcessEntries(s, []).state == s
    ensures Releases(ProcessEntries(s, []).effects) == [] == ReleaseEdges(edges, upto, upto)
  {
  }

  /** The first of some events that are new, and the state it leaves to the others. */
  lemma FirstEdge(s: Controller, edges: seq<Edge>, from: nat, others: seq<Entry>) returns (t: Controller)
    requires OfButtons(edges) && DistinctTimes(edges) && from < |edges| && Recent(s, edges, from)
    ensures Recent(t, edges, from + 1)
    ensures var e := edges[from];
      var more, all := ProcessEntries(t, others), ProcessEntries(s, [EntryOf(e)] + others);
      && all.state == more.state
      && Releases(all.effects)
        == (if e.pressed then [] else [Released(e.button, e.lengthMs)]) + Releases(more.effects)
  {
    t := ProcessEntry(s, EntryOf(edges[from])).state;
    EdgeReleases(s, edges[from]);
    AcceptedKeepsRecent(s, edges, from);
    FirstReleases(s, EntryOf(edges[from]), others);
  }

  lemma EntriesFrom(edges: seq<Edge>, from: nat, upto: nat)
    requires from < upto <= |edges|
    ensures Entries(edges, Upward(from, upto)) == [EntryOf(edges[from])] + Entries(edges, Upward(from + 1, upto))
  {
  }

  lemma FirstReleases(s: Controller, first: Entry, others: seq<Entry>)
    ensures var one := ProcessEntry(s, first);
      var more, all := ProcessEntries(one.state, others), ProcessEntries(s, [first] + others);
      && all.state == more.state
      && Releases(all.effects) == Releases(one.effects) + Releases(more.effects)
  {
    var one := ProcessEntry(s, first);
    assert ([first] + others)[1..] == others;
    ReleasesConcat(one.effects, ProcessEntries(one.state, others).effects);
  }

  lemma BatchReleases(s: Controller, samples: seq<Sample>, states: seq<Table>, edges: seq<Edge>, from: nat, upto: nat)
    requires Wheel(states, edges) && Ordered(edges) && DistinctTimes(edges) && from <= upto <= |edges|
    requires Recent(s, edges, from) && EventSamples(samples) == Triples(edges, Upward(from, upto))
    ensures var o := ProcessSamples(s, samples);
      Releases(o.effects) == ReleaseEdges(edges, from, upto) && Recent(o.state, edges, upto)
  {
    AllEventsAreTaken(samples, edges, from, upto);
    assert OfButtons(edges);
    EdgesRelease(s, edges, from, upto, Entries(edges, Upward(from, upto)));
    if LastStatus(samples).Some? {
      AfterStatusReleases(ProcessEntries(s, Collect(samples)), Mask(LastStatus(samples).value));
    }
  }

  lemma AfterStatusReleases(events: Outcome, mask: Table)
    ensures var o := ProcessStatus(events.state, mask).After(events.effects);
      && Releases(o.effects) == Releases(events.effects)
      && o.state.lastEventTimestampNs == events.state.lastEventTimestampNs
  {
    var t := events.state.(statusInitialized := true);
    StatusReleasesNothing(t, !events.state.statusInitialized, mask, 0);
    StatusKeepsTime(t, !events.state.statusInitialized, mask, 0);
    ReleasesConcat(events.effects, ProcessStatus(events.state, mask).effects);
    assert Releases(events.effects) + [] == Releases(events.effects);
  }

  /** Each delivery brings all events up to the next cut; statuses may say anything. */
  ghost predicate Announced(deliveries: seq<seq<Sample>>, cuts: seq<nat>, edges: seq<Edge>, from: nat)
    decreases |cuts|
  {
    && |deliveries| == |cuts|
    && (cuts != [] ==>
          && from <= cuts[0] <= |edges|
          && EventSamples(deliveries[0]) == Triples(edges, Upward(from, cuts[0]))
          && Announced(deliveries[1..], cuts[1..], edges, cuts[0]))
  }

  function LastCut(cuts: seq<nat>, from: nat): nat { if cuts == [] then from else cuts[|cuts| - 1] }

  lemma {:induction false} RunReleases(s: Controller, deliveries: seq<seq<Sample>>, cuts: seq<nat>, states: seq<Table>,
    edges: seq<Edge>, from: nat)
    requires Wheel(states, edges) && Ordered(edges) && DistinctTimes(edges) && from <= |edges|
    requires Announced(deliveries, cuts, edges, from) && Recent(s, edges, from)
    ensures from <= LastCut(cuts, from) <= |edges|
    ensures Releases(Run(s, deliveries).effects) == ReleaseEdges(edges, from, LastCut(cuts, from))
    decreases |cuts|
  {
    if cuts != [] {
      var one := ProcessSamples(s, deliveries[0]);
      BatchReleases(s, deliveries[0], states, edges, from, cuts[0]);
      RunReleases(one.state, deliveries[1..], cuts[1..], states, edges, cuts[0]);
      ReleasesConcat(one.effects, Run(one.state, deliveries[1..]).effects);
      ReleaseEdgesConcat(edges, from, cuts[0], LastCut(cuts, from));
    }
  }

  /** In every run that loses no event each release is announced once, in order, with
      its button and the length of its press, whatever the statuses say. */
  lemma EveryReleaseIsAnnounced(deliveries: seq<seq<Sample>>, cuts: seq<nat>, states: seq<Table>, edges: seq<Edge>)
    requires Wheel(states, edges) && Ordered(edges) && DistinctTimes(edges) && Announced(deliveries, cuts, edges, 0)
    ensures LastCut(cuts, 0) <= |edges|
    ensures Releases(Run(INITIAL, deliveries).effects) == ReleaseEdges(edges, 0, LastCut(cuts, 0))
  {
    RunReleases(INITIAL, deliveries, cuts, states, edges, 0);
  }
}
