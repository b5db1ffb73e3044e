/** The simulator and the dash together: however the frames of a run are batched, as long
    as no batch ends in an event that its status does not know yet, a press acts at most
    once; and exactly once when no event is dropped. */
module WcmBatches {
  import opened ButtonOctets
  import opened Options
  import opened DashInput
  import opened DashInputRuns
  import opened WcmSimulator
  import opened WcmRuns

  // ---- Frames as samples -----------------------------------------------------

  function StatusSamples(f: Frame): seq<Sample>
    requires f.StatusFrame?
  {
    [Sample(Inputs, Value(f.inputs), f.at), Sample(Unrelated, f.boostEncoder, f.at), Sample(Unrelated, f.counter, f.at)]
  }

  function SamplesOf(f: Frame): seq<Sample> {
    if f.EventFrame? then Triple(f.edge) else StatusSamples(f)
  }

  function Delivery(frames: seq<Frame>): seq<Sample> {
    if frames == [] then [] else Delivery(frames[..|frames| - 1]) + SamplesOf(frames[|frames| - 1])
  }

  lemma AppendOne(samples: seq<Sample>, s: Sample)
    ensures EventSamples(samples + [s]) == EventSamples(samples) + if IsEvent(s) then [s] else []
    ensures LastStatus(samples + [s]) == if s.name.Inputs? then Some(s.value) else LastStatus(samples)
  {
    assert (samples + [s])[..|samples|] == samples;
  }

  lemma AppendThree(samples: seq<Sample>, a: Sample, b: Sample, c: Sample)
    ensures samples + [a, b, c] == ((samples + [a]) + [b]) + [c]
  {
  }

  lemma AppendEvent(samples: seq<Sample>, e: Edge)
    ensures EventSamples(samples + Triple(e)) == EventSamples(samples) + Triple(e)
    ensures LastStatus(samples + Triple(e)) == LastStatus(samples)
  {
    var t := Triple(e);
    AppendThree(samples, t[0], t[1], t[2]);
    AppendOne(samples, t[0]);
    AppendOne(samples + [t[0]], t[1]);
    AppendOne((samples + [t[0]]) + [t[1]], t[2]);
    AppendThree(EventSamples(samples), t[0], t[1], t[2]);
  }

  lemma AppendStatus(samples: seq<Sample>, f: Frame)
    requires f.StatusFrame?
    ensures EventSamples(samples + StatusSamples(f)) == EventSamples(samples)
    ensures LastStatus(samples + StatusSamples(f)) == Some(Value(f.inputs))
  {
    var t := StatusSamples(f);
    AppendThree(samples, t[0], t[1], t[2]);
    AppendOne(samples, t[0]);
    AppendOne(samples + [t[0]], t[1]);
    AppendOne((samples + [t[0]]) + [t[1]], t[2]);
    assert EventSamples(samples) + [] == EventSamples(samples);
  }

  // ---- Batches of a run ------------------------------------------------------

  /** The number of edges when frame `i - 1` was sent. */
  function Known(h: History, i: nat): nat
    requires i <= |h.after|
  {
    if i == 0 then 0 else h.after[i - 1]
  }

  /** The edges announced by the frames from `i` up to `j`. */
  function Announced(h: History, i: nat, j: nat): seq<nat>
    requires i <= j <= |h.frames| && |h.after| == |h.frames|
  {
    if i == j then []
    else if h.frames[j - 1].EventFrame? && h.after[j - 1] > 0 then Announced(h, i, j - 1) + [h.after[j - 1] - 1]
    else Announced(h, i, j - 1)
  }

  ghost predicate Below(ks: seq<nat>, n: nat) {
    forall k {:trigger ks[k]} :: 0 <= k < |ks| ==> ks[k] < n
  }

  /** What the last status frame among them knows. */
  function Confirmed(h: History, i: nat, j: nat): Option<nat>
    requires i <= j <= |h.frames| && |h.after| == |h.frames|
  {
    if i == j then None
    else if h.frames[j - 1].StatusFrame? then Some(h.after[j - 1])
    else Confirmed(h, i, j - 1)
  }

  /** No event follows the last status of the batch. */
  ghost predicate StatusKnowsAll(h: History, i: nat, j: nat)
    requires i <= j <= |h.frames| && |h.after| == |h.frames|
  {
    j > i && h.frames[j - 1].EventFrame? ==> Confirmed(h, i, j).None?
  }

  function BatchOf(h: History, i: nat, j: nat): Batch
    requires i <= j <= |h.frames| && |h.after| == |h.frames|
  {
    Batch(Announced(h, i, j), Confirmed(h, i, j), Known(h, j))
  }

  lemma {:induction false} KnownGrows(h: History, i: nat, j: nat)
    requires Truthful(h) && i <= j <= |h.frames|
    ensures Known(h, i) <= Known(h, j) <= |h.edges|
  {
    if j > 0 {
      assert Tells(h, j - 1);
      if 0 < i < j { assert InSequence(h, i - 1, j - 1); }
    }
  }

  lemma {:induction false} AnnouncedRise(h: History, i: nat, j: nat)
    requires Truthful(h) && i <= j <= |h.frames|
    ensures Rising(Announced(h, i, j), Known(h, i), Known(h, j))
    decreases j
  {
    KnownGrows(h, i, j);
    if i < j {
      AnnouncedRise(h, i, j - 1);
      KnownGrows(h, i, j - 1);
      KnownGrows(h, j - 1, j);
      assert Tells(h, j - 1);
      if h.frames[j - 1].EventFrame? && j > 1 { assert InSequence(h, j - 2, j - 1); }
    }
  }

  lemma {:induction false} ConfirmedIsBetween(h: History, i: nat, j: nat)
    requires Truthful(h) && i <= j <= |h.frames| && Confirmed(h, i, j).Some?
    ensures Known(h, i) <= Confirmed(h, i, j).value <= Known(h, j)
    decreases j
  {
    KnownGrows(h, i, j);
    KnownGrows(h, j - 1, j);
    if h.frames[j - 1].EventFrame? { ConfirmedIsBetween(h, i, j - 1); }
  }

  /** The status of a delivery, if any, is what the last status frame knew. */
  ghost predicate StatusTells(h: History, status: Option<int>, known: Option<nat>)
    requires |h.states| == |h.edges| + 1
  {
    match status
    case None => known.None?
    case Some(value) => known.Some? && known.value <= |h.edges| && Mask(value) == h.states[known.value]
  }

  ghost predicate DeliveryTells(h: History, samples: seq<Sample>, i: nat, j: nat)
    requires |h.states| == |h.edges| + 1 && i <= j <= |h.frames| && |h.after| == |h.frames|
  {
    && Below(Announced(h, i, j), |h.edges|)
    && EventSamples(samples) == Triples(h.edges, Announced(h, i, j))
    && StatusTells(h, LastStatus(samples), Confirmed(h, i, j))
  }

  lemma NothingTells(h: History, i: nat)
    requires Truthful(h) && i <= |h.frames|
    ensures DeliveryTells(h, [], i, i)
  {
  }

  lemma DeliveryStep(frames: seq<Frame>, i: nat, j: nat)
    requires i < j <= |frames|
    ensures Delivery(frames[i..j]) == Delivery(frames[i..j - 1]) + SamplesOf(frames[j - 1])
  {
    var stretch := frames[i..j];
    assert stretch[..|stretch| - 1] == frames[i..j - 1] && stretch[|stretch| - 1] == frames[j - 1];
  }

  lemma {:induction false} StretchTells(h: History, i: nat, j: nat)
    requires Truthful(h) && i <= j <= |h.frames|
    ensures DeliveryTells(h, Delivery(h.frames[i..j]), i, j)
    decreases j
  {
    if i == j {
      assert h.frames[i..j] == [];
      NothingTells(h, i);
    } else {
      var before := Delivery(h.frames[i..j - 1]);
      StretchTells(h, i, j - 1);
      OneMoreFrame(h, i, j, before);
      DeliveryStep(h.frames, i, j);
    }
  }

  lemma OneMoreFrame(h: History, i: nat, j: nat, before: seq<Sample>)
    requires Truthful(h) && i < j <= |h.frames| && DeliveryTells(h, before, i, j - 1)
    ensures DeliveryTells(h, before + SamplesOf(h.frames[j - 1]), i, j)
  {
    var f := h.frames[j - 1];
    assert Tells(h, j - 1);
    if f.EventFrame? {
      AppendEvent(before, f.edge);
      var ks, k := Announced(h, i, j - 1), h.after[j - 1] - 1;
      assert (ks + [k])[..|ks|] == ks;
    } else {
      AppendStatus(before, f);
      MaskBack(f.inputs);
    }
  }

  /** A stretch of frames is a batch as the input controller expects it. */
  lemma StretchIsABatch(h: History, i: nat, j: nat)
    requires Truthful(h) && i <= j <= |h.frames| && StatusKnowsAll(h, i, j)
    ensures InOrder(BatchOf(h, i, j), Known(h, i), h.edges)
    ensures Carries(Delivery(h.frames[i..j]), BatchOf(h, i, j), h.states, h.edges, Known(h, i))
  {
    KnownGrows(h, i, j);
    AnnouncedRise(h, i, j);
    StretchTells(h, i, j);
    if Confirmed(h, i, j).Some? {
      ConfirmedIsBetween(h, i, j);
      assert h.frames[j - 1].StatusFrame?;
    }
  }

  // ---- Whole runs ------------------------------------------------------------

  /** The frames cut at the given places, from frame `i` on. */
  ghost predicate Cuts(h: History, i: nat, cuts: seq<nat>)
    requires |h.after| == |h.frames|
    decreases |cuts|
  {
    && i <= |h.frames|
    && (cuts != [] ==> i <= cuts[0] <= |h.frames| && StatusKnowsAll(h, i, cuts[0]) && Cuts(h, cuts[0], cuts[1..]))
  }

  ghost function Deliveries(h: History, i: nat, cuts: seq<nat>): seq<seq<Sample>>
    requires |h.after| == |h.frames| && Cuts(h, i, cuts)
    decreases |cuts|
  {
    if cuts == [] then [] else [Delivery(h.frames[i..cuts[0]])] + Deliveries(h, cuts[0], cuts[1..])
  }

  ghost function Batches(h: History, i: nat, cuts: seq<nat>): seq<Batch>
    requires |h.after| == |h.frames| && Cuts(h, i, cuts)
    decreases |cuts|
  {
    if cuts == [] then [] else [BatchOf(h, i, cuts[0])] + Batches(h, cuts[0], cuts[1..])
  }

  lemma {:induction false} RunDelivers(h: History, i: nat, cuts: seq<nat>)
    requires Truthful(h) && Cuts(h, i, cuts)
    ensures Delivers(Deliveries(h, i, cuts), Batches(h, i, cuts), h.states, h.edges, Known(h, i))
    decreases |cuts|
  {
    if cuts != [] {
      StretchIsABatch(h, i, cuts[0]);
      RunDelivers(h, cuts[0], cuts[1..]);
      var ds, bs := Deliveries(h, i, cuts), Batches(h, i, cuts);
      assert ds[1..] == Deliveries(h, cuts[0], cuts[1..]) && bs[1..] == Batches(h, cuts[0], cuts[1..]);
    }
  }

  lemma {:induction false} PressesGrow(edges: seq<Edge>, b: nat, m: nat, n: nat)
    requires m <= n <= |edges|
    ensures Presses(edges, b, m) <= Presses(edges, b, n)
    decreases n
  {
    if m < n { PressesGrow(edges, b, m, n - 1); }
  }

  /** For every run of the simulator, with any frames dropped, and every cutting of what
      it sent into batches whose status knows all of the batch's events: a dash button
      acts at most as often as it was pressed. */
  lemma SimulatedPressesActAtMostOnce(run: seq<Timed>, cuts: seq<nat>, b: nat)
    requires ClockRuns(run) && b < DASH_BUTTONS
    requires Cuts(After(run), 0, cuts)
    ensures var h := After(run);
      Count(Run(INITIAL, Deliveries(h, 0, cuts)).effects, b) <= Presses(h.edges, b, |h.edges|)
  {
    var h := After(run);
    RunIsTruthful(run);
    EdgesAreOrdered(run);
    RunDelivers(h, 0, cuts);
    var batches := Batches(h, 0, cuts);
    NoDuplicateActions(Deliveries(h, 0, cuts), batches, b, h.states, h.edges);
    PressesGrow(h.edges, b, End(batches, 0), |h.edges|);
  }

  // ---- No event dropped ------------------------------------------------------

  /** Exactly the event frames know of one edge more than the frame before them. */
  ghost predicate Counted(h: History, i: nat)
    requires i < |h.frames| && |h.after| == |h.frames|
  {
    h.after[i] == Known(h, i) + if h.frames[i].EventFrame? then 1 else 0
  }

  /** Every edge has its event frame. */
  ghost predicate AllAnnounced(h: History) {
    && |h.after| == |h.frames|
    && Known(h, |h.after|) == |h.edges|
    && forall i :: 0 <= i < |h.frames| ==> Counted(h, i)
  }

  ghost predicate NoEventFault(run: seq<Timed>) {
    forall i :: 0 <= i < |run| ==> run[i].command != SetPaused(true) && run[i].command != SetDropEvents(true)
  }

  lemma StatusKeepsAnnounced(h: History, s: Simulator, now: int)
    requires AllAnnounced(h)
    ensures AllAnnounced(Log(h, Status(s, now)))
  {
    var n := Log(h, Status(s, now));
    forall i | 0 <= i < |n.frames| ensures Counted(n, i) {
      if i < |h.frames| { assert Counted(h, i); }
    }
  }

  lemma TurnKeepsAnnounced(h: History, button: nat, pressed: bool, now: int)
    requires AllAnnounced(h) && |h.simulator.pressStartedNs| == BUTTONS && button < BUTTONS
    requires !h.simulator.paused && !h.simulator.dropEvents
    ensures AllAnnounced(Turn(h, button, pressed, now))
  {
    var s := h.simulator;
    var edge := EdgeOf(s, button, pressed, now);
    var turned := h.(edges := h.edges + [edge], states := h.states + [s.inputs[button := pressed]]);
    var event := Log(turned, Event(Turned(s, button, pressed, now), edge));
    forall i | 0 <= i < |event.frames| ensures Counted(event, i) {
      if i < |h.frames| { assert Counted(h, i); }
    }
    StatusKeepsAnnounced(event, event.simulator, now);
  }

  lemma {:induction false} EverythingIsAnnounced(run: seq<Timed>)
    requires NoEventFault(run)
    ensures AllAnnounced(After(run)) && !After(run).simulator.paused && !After(run).simulator.dropEvents
  {
    if run != [] {
      var last := run[|run| - 1];
      var before := run[..|run| - 1];
      EverythingIsAnnounced(before);
      NextAnnounces(After(before), last.command, last.now);
    }
  }

  lemma NextAnnounces(h: History, command: Command, now: int)
    requires AllAnnounced(h) && |h.simulator.pressStartedNs| == BUTTONS
    requires !h.simulator.paused && !h.simulator.dropEvents
    requires command != SetPaused(true) && command != SetDropEvents(true)
    ensures var n := Next(h, command, now); AllAnnounced(n) && !n.simulator.paused && !n.simulator.dropEvents
  {
    var s := h.simulator;
    match command {
      case Button(button, pressed) => if Turns(s, button, pressed) { TurnKeepsAnnounced(h, button, pressed, now); }
      case SendStatus => StatusKeepsAnnounced(h, s, now);
      case SetPaused(on) =>
      case SetDropStatus(on) =>
        StatusKeepsAnnounced(h, s.(dropStatus := on), now);
        QuietKeepsAnnounced(h, s.(dropStatus := on));
      case SetDropEvents(on) => QuietKeepsAnnounced(h, s.(dropEvents := on));
      case SetFreezeCounter(on) => QuietKeepsAnnounced(h, s.(freezeCounter := on));
      case SetCounterStep(step) => QuietKeepsAnnounced(h, s.(counterStep := Clamp(step, 1, 255)));
      case SetCounter(value) => QuietKeepsAnnounced(h, s.(counter := Clamp(value, 0, 255)));
      case SetBoostEncoder(value) => StatusKeepsAnnounced(h, s.(boostEncoder := Clamp(value, 0, 255)), now);
    }
  }

  lemma QuietKeepsAnnounced(h: History, s: Simulator)
    requires AllAnnounced(h)
    ensures AllAnnounced(h.(simulator := s))
  {
    var n := h.(simulator := s);
    forall i | 0 <= i < |n.frames| ensures Counted(n, i) {
      assert Counted(h, i);
    }
  }

  lemma {:induction false} AnnouncedAreAll(h: History, i: nat, j: nat)
    requires AllAnnounced(h) && i <= j <= |h.frames|
    ensures Known(h, i) <= Known(h, j) && |Announced(h, i, j)| == Known(h, j) - Known(h, i)
    decreases j
  {
    if i < j {
      AnnouncedAreAll(h, i, j - 1);
      assert Counted(h, j - 1);
    }
  }

  /** Where the last batch ends. */
  ghost function LastCut(h: History, i: nat, cuts: seq<nat>): (r: nat)
    requires |h.after| == |h.frames| && Cuts(h, i, cuts)
    ensures r <= |h.frames|
    decreases |cuts|
  {
    if cuts == [] then i else LastCut(h, cuts[0], cuts[1..])
  }

  lemma StretchIsComplete(h: History, i: nat, j: nat)
    requires AllAnnounced(h) && i <= j <= |h.frames| && DistinctTimes(h.edges)
    ensures Known(h, i) <= Known(h, j) && Complete(BatchOf(h, i, j), Known(h, i), h.edges)
  {
    AnnouncedAreAll(h, i, j);
  }

  lemma {:induction false} RunIsLossless(h: History, i: nat, cuts: seq<nat>)
    requires AllAnnounced(h) && Cuts(h, i, cuts) && DistinctTimes(h.edges)
    ensures Lossless(Batches(h, i, cuts), h.edges, Known(h, i))
    ensures End(Batches(h, i, cuts), Known(h, i)) == Known(h, LastCut(h, i, cuts))
    decreases |cuts|
  {
    if cuts != [] {
      StretchIsComplete(h, i, cuts[0]);
      RunIsLossless(h, cuts[0], cuts[1..]);
      var later := Batches(h, cuts[0], cuts[1..]);
      assert Batches(h, i, cuts)[1..] == later;
    }
  }

  /** When no event frame is dropped, all frames are delivered and no two edges share a
      timestamp, every press acts exactly once, whatever status frames are dropped. */
  lemma SimulatedPressesActOnce(run: seq<Timed>, cuts: seq<nat>, b: nat)
    requires ClockRuns(run) && NoEventFault(run) && DistinctTimes(After(run).edges) && b < DASH_BUTTONS
    requires Cuts(After(run), 0, cuts)
    requires LastCut(After(run), 0, cuts) == |After(run).frames|
    ensures var h := After(run);
      Count(Run(INITIAL, Deliveries(h, 0, cuts)).effects, b) == Presses(h.edges, b, |h.edges|)
  {
    var h := After(run);
    RunIsTruthful(run);
    EdgesAreOrdered(run);
    EverythingIsAnnounced(run);
    RunDelivers(h, 0, cuts);
    RunIsLossless(h, 0, cuts);
    EveryPressActsOnce(Deliveries(h, 0, cuts), Batches(h, 0, cuts), b, h.states, h.edges);
  }
}
