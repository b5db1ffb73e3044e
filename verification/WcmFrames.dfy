/** What the frames of a simulator run say and when they are sent, told from the commands. */
module WcmFrames {
  import opened Options
  import opened DashInput
  import opened DashInputRuns
  import opened WcmSimulator
  import opened WcmRuns

  // ---- The settings of a run -------------------------------------------------

  /** A setting after a command that may make one. */
  function Made<T>(made: Option<T>, was: T): T { if made.Some? then made.value else was }

  /** The setting that the latest command to make one has made. */
  function Last<T>(run: seq<Timed>, made: Command -> Option<T>, start: T): T {
    if run == [] then start
    else Made(made(run[|run| - 1].command), Last(run[..|run| - 1], made, start))
  }

  function PauseIn(c: Command): Option<bool> { if c.SetPaused? then Some(c.on) else None }
  function DropStatusIn(c: Command): Option<bool> { if c.SetDropStatus? then Some(c.on) else None }
  function DropEventsIn(c: Command): Option<bool> { if c.SetDropEvents? then Some(c.on) else None }
  function FreezeIn(c: Command): Option<bool> { if c.SetFreezeCounter? then Some(c.on) else None }
  function PressIn(c: Command, b: nat): Option<bool> {
    if c.Button? && c.button == b then Some(c.pressed) else None
  }

  /** A value outside the bounds is set to the nearer of them. */
  ghost predicate Bounded(x: int, low: int, high: int, r: int) {
    low <= r <= high && (low <= x <= high ==> r == x) && (x < low ==> r == low) && (x > high ==> r == high)
  }

  /** The faults are those last switched, and each button is as last commanded, whatever
      came between and whatever other buttons there were commands for. */
  lemma {:induction false} SettingsAreTheLastMade(run: seq<Timed>)
    ensures var s := After(run).simulator;
      && s.paused == Last(run, PauseIn, false)
      && s.dropStatus == Last(run, DropStatusIn, false)
      && s.dropEvents == Last(run, DropEventsIn, false)
      && s.freezeCounter == Last(run, FreezeIn, false)
      && (forall b: nat :: b < BUTTONS ==> s.inputs[b] == Last(run, c => PressIn(c, b), false))
  {
    if run != [] {
      var before, last := After(run[..|run| - 1]), run[|run| - 1];
      SettingsAreTheLastMade(run[..|run| - 1]);
      NextSends(before, last.command, last.now);
      SettingsMade(before.simulator, last.command, last.now);
      forall b: nat | b < BUTTONS
        ensures After(run).simulator.inputs[b] == Made(PressIn(last.command, b), before.simulator.inputs[b])
      {
        ButtonMade(before.simulator, last.command, last.now, b);
      }
    }
  }

  lemma SettingsMade(s: Simulator, command: Command, now: int)
    requires |s.pressStartedNs| == BUTTONS
    ensures var n := Obey(s, command, now).simulator;
      && n.paused == Made(PauseIn(command), s.paused)
      && n.dropStatus == Made(DropStatusIn(command), s.dropStatus)
      && n.dropEvents == Made(DropEventsIn(command), s.dropEvents)
      && n.freezeCounter == Made(FreezeIn(command), s.freezeCounter)
  {
    if command.Button? { OnlyTheTable(s, command.button, command.pressed, now); }
  }

  /** A button command turns its button in the table and leaves the settings alone. */
  lemma OnlyTheTable(s: Simulator, button: int, pressed: bool, now: int)
    requires |s.pressStartedNs| == BUTTONS
    ensures var n := SetButton(s, button, pressed, now).simulator;
      && n.paused == s.paused && n.dropStatus == s.dropStatus && n.dropEvents == s.dropEvents
      && n.freezeCounter == s.freezeCounter && n.counterStep == s.counterStep && n.boostEncoder == s.boostEncoder
      && n.inputs == if Turns(s, button, pressed) then s.inputs[button := pressed] else s.inputs
  {
  }

  lemma ButtonMade(s: Simulator, command: Command, now: int, b: nat)
    requires |s.pressStartedNs| == BUTTONS && b < BUTTONS
    ensures Obey(s, command, now).simulator.inputs[b] == Made(PressIn(command, b), s.inputs[b])
  {
    if command.Button? {
      OnlyTheTable(s, command.button, command.pressed, now);
    } else {
      assert Obey(s, command, now).simulator.inputs == s.inputs;
    }
  }

  /** The step and the encoder hold what they were last set to, within their bounds. */
  lemma ValuesAreSet(s: Simulator, command: Command, now: int)
    requires |s.pressStartedNs| == BUTTONS
    ensures var n := Obey(s, command, now).simulator;
      && (if command.SetCounterStep? then Bounded(command.step, 1, 255, n.counterStep)
          else n.counterStep == s.counterStep)
      && (if command.SetBoostEncoder? then Bounded(command.value, 0, 255, n.boostEncoder)
          else n.boostEncoder == s.boostEncoder)
  {
  }

  // ---- Which frames a command sends ------------------------------------------

  ghost predicate SendsStatus(s: Simulator, command: Command) {
    match command
    case Button(button, pressed) => 0 <= button < 8 && s.inputs[button] != pressed && !s.paused && !s.dropStatus
    case SendStatus => !s.paused && !s.dropStatus
    case SetPaused(on) => s.paused && !on && !s.dropStatus
    case SetDropStatus(on) => s.dropStatus && !on && !s.paused
    case SetBoostEncoder(value) =>
      !s.paused && !s.dropStatus && !Bounded(value, 0, 255, s.boostEncoder)
    case _ => false
  }

  ghost predicate SendsEvent(s: Simulator, command: Command) {
    command.Button? && 0 <= command.button < 8 && s.inputs[command.button] != command.pressed
      && !s.paused && !s.dropEvents
  }

  ghost predicate Announces(edge: Edge, command: Command, now: int)
    requires command.Button?
  {
    edge.button == command.button && edge.pressed == command.pressed && edge.timestampNs == now
  }

  lemma BoundedIsClamped(x: int, low: int, high: int)
    requires low <= high
    ensures forall r :: Bounded(x, low, high, r) <==> r == Clamp(x, low, high)
  {
  }

  /** A setting differs from the one before exactly if the simulators do. */
  lemma ChangedIff(s: Simulator, command: Command)
    ensures command.SetPaused? ==> (s == s.(paused := command.on) <==> s.paused == command.on)
    ensures command.SetDropStatus? ==> (s == s.(dropStatus := command.on) <==> s.dropStatus == command.on)
    ensures command.SetBoostEncoder? ==>
      var r := Clamp(command.value, 0, 255);
      && Bounded(command.value, 0, 255, r)
      && (s == s.(boostEncoder := r) <==> Bounded(command.value, 0, 255, s.boostEncoder))
  {
    if command.SetBoostEncoder? { BoundedIsClamped(command.value, 0, 255); }
  }

  function StatusNow(s: Simulator, counter: nat, now: int): Frame {
    StatusFrame(s.inputs, s.boostEncoder, counter, now)
  }

  /** An edge is announced unless the simulator is paused or drops events; a status follows
      it, and is sent on request, when a fault that held statuses back ends and when the
      encoder changes, unless paused or dropped.  The event comes first. */
  lemma WhatIsSent(s: Simulator, command: Command, now: int)
    requires |s.pressStartedNs| == BUTTONS
    ensures var sent := Obey(s, command, now);
      var event, status := SendsEvent(s, command), SendsStatus(s, command);
      && |sent.frames| == (if event then 1 else 0) + (if status then 1 else 0)
      && (event ==> sent.frames[0].EventFrame? && Announces(sent.frames[0].edge, command, now))
      && (status ==> sent.frames[|sent.frames| - 1] == StatusNow(sent.simulator, s.counter, now))
  {
    ChangedIff(s, command);
  }

  /** The counter goes on by the step, modulo 256, with each status that is sent, unless
      it is frozen; otherwise only a command to set it moves it. */
  lemma CounterMoves(s: Simulator, command: Command, now: int)
    requires |s.pressStartedNs| == BUTTONS
    ensures var n := Obey(s, command, now).simulator;
      if command.SetCounter? then Bounded(command.value, 0, 255, n.counter)
      else if !SendsStatus(s, command) || s.freezeCounter then n.counter == s.counter
      else 0 <= n.counter < 256 && exists k: int :: s.counter + s.counterStep == n.counter + 256 * k
  {
    ChangedIff(s, command);
    var k := (s.counter + s.counterStep) / 256;
    assert s.counter + s.counterStep == (s.counter + s.counterStep) % 256 + 256 * k;
  }

  function Statuses(frames: seq<Frame>): nat {
    if frames == [] then 0
    else Statuses(frames[..|frames| - 1]) + if frames[|frames| - 1].StatusFrame? then 1 else 0
  }

  /** The simulator counts the frames it has sent. */
  lemma {:induction false} FramesAreCounted(run: seq<Timed>)
    ensures var h := After(run);
      h.simulator.statusFrames == Statuses(h.frames) && h.simulator.eventFrames == |h.frames| - Statuses(h.frames)
  {
    if run != [] {
      var before, last := After(run[..|run| - 1]), run[|run| - 1];
      FramesAreCounted(run[..|run| - 1]);
      NextSends(before, last.command, last.now);
      WhatIsSent(before.simulator, last.command, last.now);
      var sent := Obey(before.simulator, last.command, last.now);
      CountOfMore(before.frames, sent.frames);
      CountersMove(before.simulator, last.command, last.now);
    }
  }

  lemma ButtonCounts(s: Simulator, button: int, pressed: bool, now: int)
    requires |s.pressStartedNs| == BUTTONS
    ensures var n, turns := SetButton(s, button, pressed, now).simulator, Turns(s, button, pressed);
      && n.statusFrames == s.statusFrames + (if turns && !s.paused && !s.dropStatus then 1 else 0)
      && n.eventFrames == s.eventFrames + (if turns && !s.paused && !s.dropEvents then 1 else 0)
  {
  }

  lemma CountersMove(s: Simulator, command: Command, now: int)
    requires |s.pressStartedNs| == BUTTONS
    ensures var n := Obey(s, command, now).simulator;
      && n.statusFrames == s.statusFrames + (if SendsStatus(s, command) then 1 else 0)
      && n.eventFrames == s.eventFrames + (if SendsEvent(s, command) then 1 else 0)
  {
    ChangedIff(s, command);
    if command.Button? { ButtonCounts(s, command.button, command.pressed, now); }
  }

  lemma {:induction false} CountOfMore(frames: seq<Frame>, more: seq<Frame>)
    ensures Statuses(frames + more) == Statuses(frames) + Statuses(more)
    decreases |more|
  {
    if more == [] {
      assert frames + more == frames;
    } else {
      CountOfMore(frames, more[..|more| - 1]);
      assert (frames + more)[..|frames + more| - 1] == frames + more[..|more| - 1];
    }
  }

  // ---- How long a press was --------------------------------------------------

  /** Since when a button is held: -1 if it is not. */
  function HeldSince(edges: seq<Edge>, b: nat): int {
    if edges == [] then -1
    else
      var last := edges[|edges| - 1];
      if last.button != b then HeldSince(edges[..|edges| - 1], b) else if last.pressed then last.timestampNs else -1
  }

  /** The length that edge number `k` announces, told from the edges before it. */
  ghost predicate AnnouncesLength(edges: seq<Edge>, k: nat)
    requires k < |edges|
  {
    var e, since := edges[k], HeldSince(edges[..k], edges[k].button);
    if e.pressed || since < 0 then e.lengthMs == 0
    else Bounded((e.timestampNs - since) / 1_000_000, 0, 65535, e.lengthMs)
  }

  ghost predicate KnowsLengths(h: History) {
    && |h.simulator.pressStartedNs| == BUTTONS
    && (forall b: nat :: b < BUTTONS ==> h.simulator.pressStartedNs[b] == HeldSince(h.edges, b))
    && (forall k :: 0 <= k < |h.edges| ==> AnnouncesLength(h.edges, k))
  }

  lemma {:induction false} LengthsAreKnown(run: seq<Timed>)
    ensures KnowsLengths(After(run))
  {
    if run != [] {
      LengthsAreKnown(run[..|run| - 1]);
      var before, last := After(run[..|run| - 1]), run[|run| - 1];
      if last.command.Button? && Turns(before.simulator, last.command.button, last.command.pressed) {
        TurnKnowsLengths(before, last.command.button, last.command.pressed, last.now);
      } else {
        OthersTurnNothing(before, last.command, last.now);
      }
    }
  }

  lemma OthersTurnNothing(h: History, command: Command, now: int)
    requires |h.simulator.pressStartedNs| == BUTTONS
    requires !(command.Button? && Turns(h.simulator, command.button, command.pressed))
    ensures var n := Next(h, command, now);
      n.edges == h.edges && n.simulator.pressStartedNs == h.simulator.pressStartedNs
  {
  }

  lemma TurnKnowsLengths(h: History, button: nat, pressed: bool, now: int)
    requires KnowsLengths(h) && Turns(h.simulator, button, pressed)
    ensures KnowsLengths(Turn(h, button, pressed, now))
  {
    var n := Turn(h, button, pressed, now);
    assert n.edges == h.edges + [EdgeOf(h.simulator, button, pressed, now)];
    assert n.edges[..|h.edges|] == h.edges;
    forall k | 0 <= k < |n.edges| ensures AnnouncesLength(n.edges, k) {
      if k < |h.edges| {
        assert AnnouncesLength(h.edges, k);
        assert n.edges[..k] == h.edges[..k];
      }
    }
  }

  /** The press that a release ends. */
  ghost predicate Ends(edges: seq<Edge>, j: nat, k: nat) {
    && j < k < |edges| && edges[j].button == edges[k].button && edges[j].pressed && !edges[k].pressed
    && forall i :: j < i < k ==> edges[i].button != edges[k].button
  }

  lemma {:induction false} HeldSincePress(edges: seq<Edge>, j: nat, k: nat, b: nat)
    requires j < k <= |edges| && edges[j].button == b && edges[j].pressed
    requires forall i :: j < i < k ==> edges[i].button != b
    ensures HeldSince(edges[..k], b) == edges[j].timestampNs
    decreases k
  {
    assert edges[..k][..k - 1] == edges[..k - 1];
    if j < k - 1 { HeldSincePress(edges, j, k - 1, b); }
  }

  /** Every release announces for how many whole milliseconds the button was held, at most
      65535, and every press announces no length, whatever faults there are. */
  lemma EdgesTellHowLong(run: seq<Timed>, k: nat)
    requires ClockRuns(run) && k < |After(run).edges|
    ensures var edges := After(run).edges;
      && (edges[k].pressed ==> edges[k].lengthMs == 0)
      && (forall j: nat :: Ends(edges, j, k) ==>
            var held := (edges[k].timestampNs - edges[j].timestampNs) / 1_000_000;
            edges[k].lengthMs == if held <= 65535 then held else 65535)
  {
    var edges := After(run).edges;
    LengthsAreKnown(run);
    EdgesAreOrdered(run);
    assert AnnouncesLength(edges, k);
    forall j: nat | Ends(edges, j, k)
      ensures HeldSince(edges[..k], edges[k].button) == edges[j].timestampNs
    {
      HeldSincePress(edges, j, k, edges[k].button);
    }
  }

  lemma {:induction false} StartsIdle(run: seq<Timed>)
    ensures After(run).states != [] && After(run).states[0] == IDLE.inputs
  {
    if run != [] { StartsIdle(run[..|run| - 1]); }
  }

  /** Every release ends a press. */
  lemma ReleasesEndPresses(run: seq<Timed>, k: nat)
    requires k < |After(run).edges| && !After(run).edges[k].pressed
    ensures exists j: nat :: Ends(After(run).edges, j, k)
  {
    RunIsTruthful(run);
    StartsIdle(run);
    var h := After(run);
    assert h.states[k][h.edges[k].button];
    var j := LastPress(h.states, h.edges, h.edges[k].button, k);
    assert Ends(h.edges, j, k);
  }

  lemma {:induction false} LastPress(states: seq<Table>, edges: seq<Edge>, b: nat, n: nat) returns (j: nat)
    requires DashInputRuns.Wheel(states, edges) && states[0] == IDLE.inputs
    requires n <= |edges| && b < BUTTONS && states[n][b]
    ensures j < n && edges[j].button == b && edges[j].pressed
    ensures forall i :: j < i < n ==> edges[i].button != b
  {
    if edges[n - 1].button == b { j := n - 1; } else { j := LastPress(states, edges, b, n - 1); }
  }
}
