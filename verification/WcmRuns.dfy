/** Whole runs of the wheel simulator: what its frames tell of the physical edges, in
    any order of commands and faults. */
module WcmRuns {
  import opened DashInput
  import opened DashInputRuns
  import opened WcmSimulator

  /** A run so far: the physical edges with the button tables between them, the frames
      sent, and how many edges there had been when each was sent. */
  datatype History = History(
    simulator: Simulator, states: seq<Table>, edges: seq<Edge>, frames: seq<Frame>, after: seq<nat>)

  const START := History(IDLE, [IDLE.inputs], [], [], [])

  /** Frames sent after the edges so far. */
  function Log(h: History, sent: Sent): (n: History)
    ensures |n.after| - |h.after| == |n.frames| - |h.frames|
  {
    h.(simulator := sent.simulator, frames := h.frames + sent.frames,
       after := h.after + seq(|sent.frames|, _ => |h.edges|))
  }

  function Turn(h: History, button: nat, pressed: bool, now: int): (n: History)
    requires button < BUTTONS && |h.simulator.pressStartedNs| == BUTTONS
    ensures |n.simulator.pressStartedNs| == BUTTONS && |n.after| - |h.after| == |n.frames| - |h.frames|
  {
    var s := h.simulator;
    var edge := EdgeOf(s, button, pressed, now);
    var turned := h.(edges := h.edges + [edge], states := h.states + [s.inputs[button := pressed]]);
    var event := Log(turned, Event(Turned(s, button, pressed, now), edge));
    Log(event, Status(event.simulator, now))
  }

  function Next(h: History, command: Command, now: int): (n: History)
    requires |h.simulator.pressStartedNs| == BUTTONS
    ensures |n.simulator.pressStartedNs| == BUTTONS && |n.after| - |h.after| == |n.frames| - |h.frames|
  {
    var s := h.simulator;
    match command
    case Button(button, pressed) => if Turns(s, button, pressed) then Turn(h, button, pressed, now) else h
    case SendStatus => Log(h, Status(s, now))
    case SetPaused(on) =>
      if on == s.paused then h
      else if on then h.(simulator := s.(paused := on))
      else Log(h, Status(s.(paused := on), now))
    case SetDropStatus(on) =>
      if on == s.dropStatus then h
      else if on then h.(simulator := s.(dropStatus := on))
      else Log(h, Status(s.(dropStatus := on), now))
    case SetDropEvents(on) => h.(simulator := s.(dropEvents := on))
    case SetFreezeCounter(on) => h.(simulator := s.(freezeCounter := on))
    case SetCounterStep(step) => h.(simulator := s.(counterStep := Clamp(step, 1, 255)))
    case SetCounter(value) => h.(simulator := s.(counter := Clamp(value, 0, 255)))
    case SetBoostEncoder(value) =>
      if Clamp(value, 0, 255) == s.boostEncoder then h
      else Log(h, Status(s.(boostEncoder := Clamp(value, 0, 255)), now))
  }

  /** The frames a button command adds are those the simulator sends for it. */
  lemma TurnSends(h: History, button: nat, pressed: bool, now: int)
    requires |h.simulator.pressStartedNs| == BUTTONS && Turns(h.simulator, button, pressed)
    ensures var n := Turn(h, button, pressed, now);
      var sent := SetButton(h.simulator, button, pressed, now);
      n.simulator == sent.simulator && n.frames == h.frames + sent.frames
  {
    var event := Event(Turned(h.simulator, button, pressed, now), EdgeOf(h.simulator, button, pressed, now));
    var status := Status(event.simulator, now);
    assert (h.frames + event.frames) + status.frames == h.frames + (event.frames + status.frames);
  }

  /** Every command adds the frames that the simulator sends for it. */
  lemma NextSends(h: History, command: Command, now: int)
    requires |h.simulator.pressStartedNs| == BUTTONS
    ensures var n, sent := Next(h, command, now), Obey(h.simulator, command, now);
      n.simulator == sent.simulator && n.frames == h.frames + sent.frames
  {
    assert h.frames + [] == h.frames;
    if command.Button? && Turns(h.simulator, command.button, command.pressed) {
      TurnSends(h, command.button, command.pressed, now);
    }
  }

  // ---- What the frames of a run tell -----------------------------------------

  /** An event frame announces the latest edge; a status frame tells the current table. */
  ghost predicate Tells(h: History, i: nat)
    requires i < |h.frames| && |h.after| == |h.frames| && |h.states| == |h.edges| + 1
  {
    && h.after[i] <= |h.edges|
    && match h.frames[i]
       case EventFrame(edge) => h.after[i] > 0 && edge == h.edges[h.after[i] - 1]
       case StatusFrame(inputs, _, _, _) => inputs == h.states[h.after[i]]
  }

  /** Frames are sent in the order of the edges, and an event before anything else that
      knows of its edge. */
  ghost predicate InSequence(h: History, i: nat, j: nat)
    requires i < j < |h.frames| && |h.after| == |h.frames|
  {
    if h.frames[j].EventFrame? then h.after[i] < h.after[j] else h.after[i] <= h.after[j]
  }

  ghost predicate Truthful(h: History) {
    && DashInputRuns.Wheel(h.states, h.edges)
    && |h.simulator.pressStartedNs| == BUTTONS
    && h.simulator.inputs == h.states[|h.edges|]
    && |h.after| == |h.frames|
    && (forall i :: 0 <= i < |h.frames| ==> Tells(h, i))
    && (forall i, j :: 0 <= i < j < |h.frames| ==> InSequence(h, i, j))
  }

  lemma StatusKeepsTruthful(h: History, s: Simulator, now: int)
    requires Truthful(h) && s.inputs == h.simulator.inputs && s.pressStartedNs == h.simulator.pressStartedNs
    ensures Truthful(Log(h, Status(s, now)))
  {
    var n := Log(h, Status(s, now));
    forall i | 0 <= i < |n.frames| ensures Tells(n, i) {
      if i < |h.frames| { assert Tells(h, i); }
    }
    forall i, j | 0 <= i < j < |n.frames| ensures InSequence(n, i, j) {
      assert Tells(h, i);
      if j < |h.frames| { assert InSequence(h, i, j); }
    }
  }

  lemma EventKeepsTruthful(h: History, s: Simulator, edge: Edge)
    requires DashInputRuns.Wheel(h.states, h.edges) && |h.after| == |h.frames| && |h.edges| > 0
    requires edge == h.edges[|h.edges| - 1]
    requires s.inputs == h.states[|h.edges|] && |s.pressStartedNs| == BUTTONS
    requires forall i :: 0 <= i < |h.frames| ==> Tells(h, i) && h.after[i] < |h.edges|
    requires forall i, j :: 0 <= i < j < |h.frames| ==> InSequence(h, i, j)
    ensures Truthful(Log(h, Event(s, edge)))
  {
    var n := Log(h, Event(s, edge));
    forall i | 0 <= i < |n.frames| ensures Tells(n, i) {
      if i < |h.frames| { assert Tells(h, i); }
    }
    forall i, j | 0 <= i < j < |n.frames| ensures InSequence(n, i, j) {
      assert Tells(h, i);
      if j < |h.frames| { assert InSequence(h, i, j); }
    }
  }

  lemma WheelTurns(states: seq<Table>, edges: seq<Edge>, edge: Edge)
    requires DashInputRuns.Wheel(states, edges) && edge.button < BUTTONS
    requires states[|edges|][edge.button] != edge.pressed
    ensures DashInputRuns.Wheel(states + [states[|edges|][edge.button := edge.pressed]], edges + [edge])
  {
  }

  lemma TurnKeepsTruthful(h: History, button: nat, pressed: bool, now: int)
    requires Truthful(h) && Turns(h.simulator, button, pressed)
    ensures Truthful(Turn(h, button, pressed, now))
  {
    var s := h.simulator;
    var edge := EdgeOf(s, button, pressed, now);
    WheelTurns(h.states, h.edges, edge);
    var turned := h.(edges := h.edges + [edge], states := h.states + [s.inputs[button := pressed]]);
    forall i | 0 <= i < |turned.frames| ensures Tells(turned, i) && turned.after[i] < |turned.edges| {
      assert Tells(h, i);
    }
    forall i, j | 0 <= i < j < |turned.frames| ensures InSequence(turned, i, j) {
      assert InSequence(h, i, j);
    }
    var t := Turned(s, button, pressed, now);
    EventKeepsTruthful(turned, t, edge);
    var event := Log(turned, Event(t, edge));
    StatusKeepsTruthful(event, event.simulator, now);
  }

  lemma NextKeepsTruthful(h: History, command: Command, now: int)
    requires Truthful(h)
    ensures Truthful(Next(h, command, now))
  {
    var s := h.simulator;
    match command {
      case Button(button, pressed) => if Turns(s, button, pressed) { TurnKeepsTruthful(h, button, pressed, now); }
      case SendStatus => StatusKeepsTruthful(h, s, now);
      case SetPaused(on) => StatusKeepsTruthful(h, s.(paused := on), now); QuietKeepsTruthful(h, s.(paused := on));
      case SetDropStatus(on) =>
        StatusKeepsTruthful(h, s.(dropStatus := on), now);
        QuietKeepsTruthful(h, s.(dropStatus := on));
      case SetDropEvents(on) => QuietKeepsTruthful(h, s.(dropEvents := on));
      case SetFreezeCounter(on) => QuietKeepsTruthful(h, s.(freezeCounter := on));
      case SetCounterStep(step) => QuietKeepsTruthful(h, s.(counterStep := Clamp(step, 1, 255)));
      case SetCounter(value) => QuietKeepsTruthful(h, s.(counter := Clamp(value, 0, 255)));
      case SetBoostEncoder(value) => StatusKeepsTruthful(h, s.(boostEncoder := Clamp(value, 0, 255)), now);
    }
  }

  lemma QuietKeepsTruthful(h: History, s: Simulator)
    requires Truthful(h) && s.inputs == h.simulator.inputs && s.pressStartedNs == h.simulator.pressStartedNs
    ensures Truthful(h.(simulator := s))
  {
    var n := h.(simulator := s);
    forall i | 0 <= i < |n.frames| ensures Tells(n, i) { assert Tells(h, i); }
    forall i, j | 0 <= i < j < |n.frames| ensures InSequence(n, i, j) { assert InSequence(h, i, j); }
  }

  // ---- Runs ------------------------------------------------------------------

  datatype Timed = Timed(command: Command, now: int)

  function After(run: seq<Timed>): (h: History)
    ensures |h.simulator.pressStartedNs| == BUTTONS && |h.after| == |h.frames|
  {
    if run == [] then START else Next(After(run[..|run| - 1]), run[|run| - 1].command, run[|run| - 1].now)
  }

  /** What the simulator object has sent when it has been given the commands one by one. */
  function Outputs(run: seq<Timed>): (sent: Sent)
    ensures |sent.simulator.pressStartedNs| == BUTTONS
  {
    if run == [] then Sent(IDLE, [])
    else
      var before, last := Outputs(run[..|run| - 1]), run[|run| - 1];
      var sent := Obey(before.simulator, last.command, last.now);
      Sent(sent.simulator, before.frames + sent.frames)
  }

  /** The history of a run is that of the object. */
  lemma {:induction false} RunIsSent(run: seq<Timed>)
    ensures Sent(After(run).simulator, After(run).frames) == Outputs(run)
  {
    if run != [] {
      var last := run[|run| - 1];
      RunIsSent(run[..|run| - 1]);
      NextSends(After(run[..|run| - 1]), last.command, last.now);
    }
  }

  /** The clock starts at zero and never runs back. */
  ghost predicate ClockRuns(run: seq<Timed>) {
    && (forall i :: 0 <= i < |run| ==> run[i].now >= 0)
    && (forall i, j :: 0 <= i < j < |run| ==> run[i].now <= run[j].now)
  }

  lemma {:induction false} RunIsTruthful(run: seq<Timed>)
    ensures Truthful(After(run))
  {
    if run != [] {
      RunIsTruthful(run[..|run| - 1]);
      NextKeepsTruthful(After(run[..|run| - 1]), run[|run| - 1].command, run[|run| - 1].now);
    }
  }

  lemma NextEdges(h: History, command: Command, now: int)
    requires |h.simulator.pressStartedNs| == BUTTONS
    ensures var n := Next(h, command, now);
      n.edges == h.edges
        || (|n.edges| == |h.edges| + 1 && n.edges[..|h.edges|] == h.edges && n.edges[|h.edges|].timestampNs == now)
  {
  }

  lemma {:induction false} EdgesAreOrdered(run: seq<Timed>)
    requires ClockRuns(run)
    ensures Ordered(After(run).edges)
    ensures forall k :: 0 <= k < |After(run).edges| ==>
      run != [] && After(run).edges[k].timestampNs <= run[|run| - 1].now
  {
    if run != [] {
      var before := run[..|run| - 1];
      EdgesAreOrdered(before);
      NextEdges(After(before), run[|run| - 1].command, run[|run| - 1].now);
      var was, now := After(before).edges, After(run).edges;
      forall k | 0 <= k < |was| ensures now[k] == was[k] {
        assert now[..|was|][k] == now[k];
      }
    }
  }
}
