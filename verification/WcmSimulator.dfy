/** The wheel module simulator: button edges become event frames and, with the periodic
    status, the truth about all buttons; faults drop frames of either kind. */
module WcmSimulator {
  import opened DashInput
  import opened DashInputRuns

  /** A frame as decoded; `at` is the clock when it was sent. */
  datatype Frame =
    | EventFrame(edge: Edge)
    | StatusFrame(inputs: Table, boostEncoder: nat, counter: nat, at: int)

  datatype Simulator = Simulator(
    inputs: Table, pressStartedNs: seq<int>, counter: nat, boostEncoder: nat, counterStep: nat,
    paused: bool, dropStatus: bool, dropEvents: bool, freezeCounter: bool, statusFrames: nat, eventFrames: nat)

  const IDLE := Simulator(
    [false, false, false, false, false, false, false, false], [-1, -1, -1, -1, -1, -1, -1, -1],
    0, 0, 1, false, false, false, false, 0, 0)

  datatype Sent = Sent(simulator: Simulator, frames: seq<Frame>)

  function Clamp(x: int, low: int, high: int): int { if x < low then low else if x > high then high else x }

  /** The reported length of a press; nothing for a press that begins. */
  function PressLength(s: Simulator, button: nat, pressed: bool, now: int): int
    requires button < |s.pressStartedNs|
  {
    if pressed || s.pressStartedNs[button] < 0 then 0
    else Clamp((now - s.pressStartedNs[button]) / 1_000_000, 0, 65535)
  }

  function EdgeOf(s: Simulator, button: nat, pressed: bool, now: int): Edge
    requires button < |s.pressStartedNs|
  {
    Edge(button, pressed, now, PressLength(s, button, pressed, now))
  }

  function Status(s: Simulator, now: int): Sent {
    if s.paused || s.dropStatus then Sent(s, [])
    else
      Sent(s.(counter := if s.freezeCounter then s.counter else (s.counter + s.counterStep) % 256,
              statusFrames := s.statusFrames + 1),
           [StatusFrame(s.inputs, s.boostEncoder, s.counter, now)])
  }

  function Event(s: Simulator, edge: Edge): Sent {
    if s.paused || s.dropEvents then Sent(s, [])
    else Sent(s.(eventFrames := s.eventFrames + 1), [EventFrame(edge)])
  }

  predicate Turns(s: Simulator, button: int, pressed: bool) { 0 <= button < BUTTONS && s.inputs[button] != pressed }

  /** The button table and the start of the press after an edge. */
  function Turned(s: Simulator, button: nat, pressed: bool, now: int): Simulator
    requires button < BUTTONS && |s.pressStartedNs| == BUTTONS
  {
    s.(inputs := s.inputs[button := pressed], pressStartedNs := s.pressStartedNs[button := if pressed then now else -1])
  }

  function SetButton(s: Simulator, button: int, pressed: bool, now: int): Sent
    requires |s.pressStartedNs| == BUTTONS
  {
    if !Turns(s, button, pressed) then Sent(s, [])
    else
      var event := Event(Turned(s, button, pressed, now), EdgeOf(s, button, pressed, now));
      var status := Status(event.simulator, now);
      Sent(status.simulator, event.frames + status.frames)
  }

  /** What the user of the simulator can do, and the timer's request for a status. */
  datatype Command =
    | Button(button: int, pressed: bool)
    | SendStatus
    | SetPaused(on: bool)
    | SetDropStatus(on: bool)
    | SetDropEvents(on: bool)
    | SetFreezeCounter(on: bool)
    | SetCounterStep(step: int)
    | SetCounter(value: int)
    | SetBoostEncoder(value: int)

  /** A setting that has changed; some are announced by a status. */
  function Changed(s: Simulator, t: Simulator, announced: bool, now: int): Sent {
    if s != t && announced then Status(t, now) else Sent(t, [])
  }

  function Obey(s: Simulator, command: Command, now: int): Sent
    requires |s.pressStartedNs| == BUTTONS
  {
    match command
    case Button(button, pressed) => SetButton(s, button, pressed, now)
    case SendStatus => Status(s, now)
    case SetPaused(on) => Changed(s, s.(paused := on), !on, now)
    case SetDropStatus(on) => Changed(s, s.(dropStatus := on), !on, now)
    case SetDropEvents(on) => Changed(s, s.(dropEvents := on), false, now)
    case SetFreezeCounter(on) => Changed(s, s.(freezeCounter := on), false, now)
    case SetCounterStep(step) => Changed(s, s.(counterStep := Clamp(step, 1, 255)), false, now)
    case SetCounter(value) => Changed(s, s.(counter := Clamp(value, 0, 255)), false, now)
    case SetBoostEncoder(value) => Changed(s, s.(boostEncoder := Clamp(value, 0, 255)), true, now)
  }

  // ---- The simulator object --------------------------------------------------

  class Wheel {
    var inputs: Table
    const pressStartedNs: array<int>
    var counter: nat
    var boostEncoder: nat
    var counterStep: nat
    var paused: bool
    var dropStatus: bool
    var dropEvents: bool
    var freezeCounter: bool
    var statusFrames: nat
    var eventFrames: nat

    ghost predicate Valid()
      reads this
    {
      pressStartedNs.Length == BUTTONS
    }

    function State(): Simulator
      reads this, pressStartedNs
    {
      Simulator(inputs, pressStartedNs[..], counter, boostEncoder, counterStep, paused, dropStatus, dropEvents,
                freezeCounter,
                statusFrames, eventFrames)
    }

    constructor ()
      ensures Valid() && fresh(pressStartedNs) && State() == IDLE
    {
      inputs := [false, false, false, false, false, false, false, false];
      pressStartedNs := new int[BUTTONS](_ => -1);
      counter, boostEncoder, counterStep, statusFrames, eventFrames := 0, 0, 1, 0, 0;
      paused, dropStatus, dropEvents, freezeCounter := false, false, false, false;
    }

    method GenerateStatus(now: int) returns (frames: seq<Frame>)
      requires Valid()
      modifies this
      ensures Valid() && Sent(State(), frames) == Status(old(State()), now)
    {
      if paused || dropStatus { return []; }
      frames := [StatusFrame(inputs, boostEncoder, counter, now)];
      if !freezeCounter { counter := (counter + counterStep) % 256; }
      statusFrames := statusFrames + 1;
    }

    method GenerateEvent(edge: Edge) returns (frames: seq<Frame>)
      requires Valid()
      modifies this
      ensures Valid() && Sent(State(), frames) == Event(old(State()), edge)
    {
      if paused || dropEvents { return []; }
      eventFrames := eventFrames + 1;
      frames := [EventFrame(edge)];
    }

    method SetButtonPressed(button: int, pressed: bool, now: int) returns (frames: seq<Frame>)
      requires Valid()
      modifies this, pressStartedNs
      ensures Valid() && Sent(State(), frames) == SetButton(old(State()), button, pressed, now)
    {
      if button < 0 || button >= BUTTONS || inputs[button] == pressed { return []; }
      var lengthMs := 0;
      if !pressed && pressStartedNs[button] >= 0 {
        lengthMs := Clamp((now - pressStartedNs[button]) / 1_000_000, 0, 65535);
      }
      inputs := inputs[button := pressed];
      pressStartedNs[button] := if pressed then now else -1;
      var event := GenerateEvent(Edge(button, pressed, now, lengthMs));
      var status := GenerateStatus(now);
      frames := event + status;
    }

    method SetPaused(on: bool, now: int) returns (frames: seq<Frame>)
      requires Valid()
      modifies this
      ensures Valid() && Sent(State(), frames) == Obey(old(State()), Command.SetPaused(on), now)
    {
      frames := [];
      if on == paused { return; }
      paused := on;
      if !on { frames := GenerateStatus(now); }
    }

    method SetDropStatus(on: bool, now: int) returns (frames: seq<Frame>)
      requires Valid()
      modifies this
      ensures Valid() && Sent(State(), frames) == Obey(old(State()), Command.SetDropStatus(on), now)
    {
      frames := [];
      if on == dropStatus { return; }
      dropStatus := on;
      if !on { frames := GenerateStatus(now); }
    }

    method SetDropEvents(on: bool)
      requires Valid()
      modifies this
      ensures Valid() && forall now :: Sent(State(), []) == Obey(old(State()), Command.SetDropEvents(on), now)
    {
      dropEvents := on;
    }

    method SetFreezeCounter(on: bool)
      requires Valid()
      modifies this
      ensures Valid() && forall now :: Sent(State(), []) == Obey(old(State()), Command.SetFreezeCounter(on), now)
    {
      freezeCounter := on;
    }

    method SetCounterStep(step: int)
      requires Valid()
      modifies this
      ensures Valid() && forall now :: Sent(State(), []) == Obey(old(State()), Command.SetCounterStep(step), now)
    {
      counterStep := Clamp(step, 1, 255);
    }

    method SetCounter(value: int)
      requires Valid()
      modifies this
      ensures Valid() && forall now :: Sent(State(), []) == Obey(old(State()), Command.SetCounter(value), now)
    {
      counter := Clamp(value, 0, 255);
    }

    method SetBoostEncoder(value: int, now: int) returns (frames: seq<Frame>)
      requires Valid()
      modifies this
      ensures Valid() && Sent(State(), frames) == Obey(old(State()), Command.SetBoostEncoder(value), now)
    {
      var bounded := Clamp(value, 0, 255);
      frames := [];
      if bounded == boostEncoder { return; }
      boostEncoder := bounded;
      frames := GenerateStatus(now);
    }
  }
}
