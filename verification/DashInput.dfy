/** The dash input controller: press and release events and periodic status
    frames of the wheel merged into one button table, so that a press acts once. */
module DashInput {
  import opened Options

  datatype SignalName = Inputs | EventId | EventType | EventLength | Unrelated

  datatype Sample = Sample(name: SignalName, value: int, timestampNs: int)

  const BUTTONS := 8
  /** Buttons from 4 on belong to the power module and never act on the dash. */
  const DASH_BUTTONS := 4

  datatype Effect = Action(button: nat) | Released(button: nat, lengthMs: int)

  type Table = t: seq<bool> | |t| == 8 witness [false, false, false, false, false, false, false, false]

  datatype Controller = Controller(known: Table, pressed: Table, statusInitialized: bool, lastEventTimestampNs: int)

  const INITIAL := Controller(
    [false, false, false, false, false, false, false, false],
    [false, false, false, false, false, false, false, false], false, -1)

  datatype Outcome = Outcome(state: Controller, effects: seq<Effect>)
  {
    function After(earlier: seq<Effect>): Outcome {
      Outcome(state, earlier + effects)
    }
  }

  function BitAt(v: nat, k: nat): bool {
    if k == 0 then v % 2 == 1 else BitAt(v / 2, k - 1)
  }

  /** The bits of `static_cast<quint8>(value)`, lowest first. */
  function Mask(value: int): Table {
    seq(8, k requires 0 <= k < 8 => BitAt(value % 256, k))
  }

  function UpdateButton(s: Controller, button: nat, pressed: bool): Outcome
    requires button < BUTTONS
  {
    var changed := !s.known[button] || s.pressed[button] != pressed;
    Outcome(s.(known := s.known[button := true], pressed := s.pressed[button := pressed]),
            if changed && pressed && button < DASH_BUTTONS then [Action(button)] else [])
  }

  /** One button of a status frame. */
  function StatusButton(s: Controller, first: bool, button: nat, pressed: bool): Outcome
    requires button < BUTTONS
  {
    if first && !s.known[button]
    then Outcome(s.(known := s.known[button := true], pressed := s.pressed[button := pressed]), [])
    else UpdateButton(s, button, pressed)
  }

  function StatusFrom(s: Controller, first: bool, mask: Table, button: nat): Outcome
    requires button <= BUTTONS
    decreases BUTTONS - button
  {
    if button == BUTTONS then Outcome(s, [])
    else
      var one := StatusButton(s, first, button, mask[button]);
      StatusFrom(one.state, first, mask, button + 1).After(one.effects)
  }

  function ProcessStatus(s: Controller, mask: Table): Outcome {
    StatusFrom(s.(statusInitialized := true), !s.statusInitialized, mask, 0)
  }

  /** What a batch says about one timestamp. */
  datatype Entry = Entry(timestampNs: int, id: Option<int>, kind: Option<int>, lengthMs: Option<int>)

  function SetField(e: Entry, sample: Sample): Entry {
    match sample.name
    case EventId => e.(id := Some(sample.value))
    case EventType => e.(kind := Some(sample.value))
    case EventLength => e.(lengthMs := Some(sample.value))
    case _ => e
  }

  /** Inserting a sample into the map ordered by timestamp. */
  function Put(entries: seq<Entry>, sample: Sample): seq<Entry> {
    if entries == [] || sample.timestampNs < entries[0].timestampNs
    then [SetField(Entry(sample.timestampNs, None, None, None), sample)] + entries
    else if entries[0].timestampNs == sample.timestampNs
    then [SetField(entries[0], sample)] + entries[1..]
    else [entries[0]] + Put(entries[1..], sample)
  }

  predicate IsEvent(sample: Sample) { sample.name.EventId? || sample.name.EventType? || sample.name.EventLength? }

  function Collect(samples: seq<Sample>): seq<Entry> {
    if samples == [] then []
    else
      var before := Collect(samples[..|samples| - 1]);
      var last := samples[|samples| - 1];
      if IsEvent(last) then Put(before, last) else before
  }

  function LastStatus(samples: seq<Sample>): Option<int> {
    if samples == [] then None
    else if samples[|samples| - 1].name.Inputs? then Some(samples[|samples| - 1].value)
    else LastStatus(samples[..|samples| - 1])
  }

  /** An entry acts when it is complete, newer than the last event and in range. */
  predicate Accepted(s: Controller, e: Entry) {
    && e.id.Some? && e.kind.Some? && e.lengthMs.Some?
    && e.timestampNs > s.lastEventTimestampNs
    && 0 <= e.id.value < BUTTONS && (e.kind.value == 0 || e.kind.value == 1)
  }

  function ProcessEntry(s: Controller, e: Entry): Outcome {
    if Accepted(s, e) then
      var pressed := e.kind.value == 1;
      var one := UpdateButton(s.(lastEventTimestampNs := e.timestampNs), e.id.value, pressed);
      Outcome(one.state, one.effects + if pressed then [] else [Released(e.id.value, e.lengthMs.value)])
    else Outcome(s, [])
  }

  function ProcessEntries(s: Controller, entries: seq<Entry>): Outcome
    decreases |entries|
  {
    if entries == [] then Outcome(s, [])
    else
      var one := ProcessEntry(s, entries[0]);
      ProcessEntries(one.state, entries[1..]).After(one.effects)
  }

  /** A batch: its events in timestamp order, then its last status. */
  function ProcessSamples(s: Controller, samples: seq<Sample>): Outcome {
    var events := ProcessEntries(s, Collect(samples));
    match LastStatus(samples)
    case None => events
    case Some(value) =>
      ProcessStatus(events.state, Mask(value)).After(events.effects)
  }

  // ---- The controller object -------------------------------------------------

  class DashInputController {
    const buttonKnown: array<bool>
    const buttonPressed: array<bool>
    var statusInitialized: bool
    var lastEventTimestampNs: int

    ghost predicate Valid()
      reads this
    {
      buttonKnown.Length == 8 && buttonPressed.Length == 8 && buttonKnown != buttonPressed
    }

    ghost function State(): Controller
      requires Valid()
      reads this, buttonKnown, buttonPressed
    {
      Controller(buttonKnown[..], buttonPressed[..], statusInitialized, lastEventTimestampNs)
    }

    constructor ()
      ensures Valid() && fresh(buttonKnown) && fresh(buttonPressed)
      ensures State() == INITIAL
    {
      buttonKnown := new bool[8](_ => false);
      buttonPressed := new bool[8](_ => false);
      statusInitialized := false;
      lastEventTimestampNs := -1;
    }

    method Update(button: nat, pressed: bool) returns (effects: seq<Effect>)
      requires Valid() && button < BUTTONS
      modifies buttonKnown, buttonPressed
      ensures Outcome(State(), effects) == UpdateButton(old(State()), button, pressed)
    {
      var changed := !buttonKnown[button] || buttonPressed[button] != pressed;
      buttonKnown[button] := true;
      buttonPressed[button] := pressed;
      effects := if changed && pressed && button < DASH_BUTTONS then [Action(button)] else [];
    }

    method StatusOne(first: bool, button: nat, pressed: bool) returns (effects: seq<Effect>)
      requires Valid() && button < BUTTONS
      modifies buttonKnown, buttonPressed
      ensures Outcome(State(), effects) == StatusButton(old(State()), first, button, pressed)
    {
      if first && !buttonKnown[button] {
        buttonKnown[button] := true;
        buttonPressed[button] := pressed;
        effects := [];
      } else {
        effects := Update(button, pressed);
      }
    }

    method Status(mask: Table) returns (effects: seq<Effect>)
      requires Valid()
      modifies this, buttonKnown, buttonPressed
      ensures Valid()
      ensures Outcome(State(), effects) == ProcessStatus(old(State()), mask)
    {
      var first := !statusInitialized;
      statusInitialized := true;
      effects := [];
      ghost var start := State();
      for button := 0 to BUTTONS
        invariant Valid()
        invariant StatusFrom(start, first, mask, 0) == StatusFrom(State(), first, mask, button).After(effects)
      {
        ghost var before := State();
        var more := StatusOne(first, button, mask[button]);
        AfterAfter(StatusFrom(State(), first, mask, button + 1), effects, more);
        assert StatusFrom(before, first, mask, button) == StatusFrom(State(), first, mask, button + 1).After(more);
        effects := effects + more;
      }
    }

    method Event(e: Entry) returns (effects: seq<Effect>)
      requires Valid()
      modifies this, buttonKnown, buttonPressed
      ensures Valid()
      ensures Outcome(State(), effects) == ProcessEntry(old(State()), e)
    {
      effects := [];
      if e.id.Some? && e.kind.Some? && e.lengthMs.Some? && e.timestampNs > lastEventTimestampNs
         && 0 <= e.id.value < BUTTONS && (e.kind.value == 0 || e.kind.value == 1)
      {
        lastEventTimestampNs := e.timestampNs;
        effects := Update(e.id.value, e.kind.value == 1);
        if e.kind.value != 1 {
          effects := effects + [Released(e.id.value, e.lengthMs.value)];
        }
      }
    }

    method Events(entries: seq<Entry>) returns (effects: seq<Effect>)
      requires Valid()
      modifies this, buttonKnown, buttonPressed
      ensures Valid()
      ensures Outcome(State(), effects) == ProcessEntries(old(State()), entries)
    {
      effects := [];
      ghost var start := State();
      var i := 0;
      assert entries[0..] == entries;
      while i < |entries|
        invariant Valid() && i <= |entries|
        invariant ProcessEntries(start, entries) == ProcessEntries(State(), entries[i..]).After(effects)
      {
        ghost var before := State();
        var more := Event(entries[i]);
        assert entries[i..][1..] == entries[i + 1..];
        AfterAfter(ProcessEntries(State(), entries[i + 1..]), effects, more);
        assert ProcessEntries(before, entries[i..]) == ProcessEntries(State(), entries[i + 1..]).After(more);
        effects := effects + more;
        i := i + 1;
      }
    }

    method Process(samples: seq<Sample>) returns (effects: seq<Effect>)
      requires Valid()
      modifies this, buttonKnown, buttonPressed
      ensures Valid()
      ensures Outcome(State(), effects) == ProcessSamples(old(State()), samples)
    {
      var eventsByTimestamp, inputs := ReadBatch(samples);
      effects := Events(eventsByTimestamp);
      if inputs.Some? {
        var mask := Mask(inputs.value);
        var more := Status(mask);
        effects := effects + more;
      }
    }
  }

  lemma AfterAfter(o: Outcome, a: seq<Effect>, b: seq<Effect>)
    ensures o.After(b).After(a) == o.After(a + b)
  {
    assert a + (b + o.effects) == (a + b) + o.effects;
  }

  method ReadBatch(samples: seq<Sample>) returns (eventsByTimestamp: seq<Entry>, inputs: Option<int>)
    ensures eventsByTimestamp == Collect(samples)
    ensures inputs == LastStatus(samples)
  {
    eventsByTimestamp, inputs := [], None;
    for i := 0 to |samples|
      invariant eventsByTimestamp == Collect(samples[..i])
      invariant inputs == LastStatus(samples[..i])
    {
      assert samples[..i + 1][..i] == samples[..i];
      if samples[i].name.Inputs? {
        inputs := Some(samples[i].value);
      } else if IsEvent(samples[i]) {
        eventsByTimestamp := Put(eventsByTimestamp, samples[i]);
      }
    }
    assert samples[..|samples|] == samples;
  }
}
