/** When a signal is in caution, in warning or stale, and what the warning list is told. */
module WarningEvaluator {
  import opened Options
  import opened WarningManager
  import opened Debounce

  datatype Level = Normal | Cautious | Warned

  datatype Kind = LowWarning | LowCaution | HighCaution | HighWarning

  /** A threshold as resolved at the moment of an evaluation. */
  datatype Rule = Rule(valid: bool, value: real, hysteresis: real, activationDelayMs: nat, clearDelayMs: nat)

  datatype FreshnessRule = FreshnessRule(configured: bool, staleAfterMs: nat, activationDelayMs: nat, clearDelayMs: nat,
    severity: Severity)

  datatype Presentation = Presentation(
    enabled: bool, lowWarning: Rule, lowCaution: Rule, highCaution: Rule, highWarning: Rule, freshness: FreshnessRule)

  function RuleOf(p: Presentation, kind: Kind): Rule {
    match kind
    case LowWarning => p.lowWarning
    case LowCaution => p.lowCaution
    case HighCaution => p.highCaution
    case HighWarning => p.highWarning
  }

  datatype Desired = Desired(level: Level, kind: Kind)

  const NORMAL := Desired(Normal, HighCaution)

  predicate Breached(kind: Kind, rule: Rule, value: real, withHysteresis: bool) {
    var hysteresis := if withHysteresis then rule.hysteresis else 0.0;
    if kind.LowWarning? || kind.LowCaution? then value <= rule.value + hysteresis else value >= rule.value - hysteresis
  }

  /** A resolved threshold that the value is beyond. */
  predicate Over(p: Presentation, kind: Kind, value: real) {
    RuleOf(p, kind).valid && Breached(kind, RuleOf(p, kind), value, false)
  }

  /** The value has not come back over the hysteresis of the threshold. */
  predicate InBand(p: Presentation, kind: Kind, value: real) {
    RuleOf(p, kind).valid && Breached(kind, RuleOf(p, kind), value, true)
  }

  function DesiredState(p: Presentation, current: Desired, value: real): Desired {
    if Over(p, LowWarning, value) then Desired(Warned, LowWarning)
    else if Over(p, HighWarning, value) then Desired(Warned, HighWarning)
    else if current.level != Normal && InBand(p, current.kind, value) then current
    else if Over(p, LowCaution, value) then Desired(Cautious, LowCaution)
    else if Over(p, HighCaution, value) then Desired(Cautious, HighCaution)
    else NORMAL
  }

  function LevelRank(level: Level): nat {
    match level
    case Normal => 0
    case Cautious => 1
    case Warned => 2
  }

  const NS_PER_MS := 1_000_000

  /** The delay in nanoseconds before the desired state is taken over. */
  function Delay(p: Presentation, current: Desired, desired: Desired): nat {
    if LevelRank(desired.level) > LevelRank(current.level) then RuleOf(p, desired.kind).activationDelayMs * NS_PER_MS
    else if current.level != Normal then RuleOf(p, current.kind).clearDelayMs * NS_PER_MS
    else 0
  }

  // ---- The state of the evaluator --------------------------------------------

  datatype Latest = Latest(value: real, valid: bool, receiptNs: int)

  type State = Debouncer<Desired>

  /** Freshness of a signal; `waiting` debounces its staleness. */
  datatype Fresh = Fresh(waiting: Debouncer<bool>, enabledLast: bool, enabledSinceNs: int)

  const NOT_STALE := Fresh(Debouncer(false, false, -1), false, -1)

  datatype World = World(
    latest: map<string, Latest>, states: map<string, State>, freshness: map<string, Fresh>, manager: Manager)

  const START := World(map[], map[], map[], NO_WARNINGS)

  function StateOf(w: World, signal: string): State {
    if signal in w.states then w.states[signal] else Initial(NORMAL)
  }

  function FreshOf(w: World, signal: string): Fresh {
    if signal in w.freshness then w.freshness[signal] else NOT_STALE
  }

  /** A sample as received; `number` is absent when it is not a finite number. */
  datatype Sample = Sample(name: string, number: Option<real>)

  function Receive(latest: map<string, Latest>, s: Sample, now: int): map<string, Latest> {
    var before := if s.name in latest then latest[s.name] else Latest(0.0, false, -1);
    latest[s.name := match s.number
                     case Some(x) => Latest(x, true, now)
                     case None => before.(valid := false, receiptNs := now)]
  }

  function ReceiveAll(latest: map<string, Latest>, samples: seq<Sample>, now: int): map<string, Latest> {
    if samples == [] then latest
    else Receive(ReceiveAll(latest, samples[..|samples| - 1], now), samples[|samples| - 1], now)
  }

  // ---- Freshness -------------------------------------------------------------

  function Stale(rule: FreshnessRule, receiptNs: int, enabledSinceNs: int, now: int): bool {
    var received := Max(receiptNs, enabledSinceNs);
    if received < 0 then now >= rule.staleAfterMs * NS_PER_MS else now - received > rule.staleAfterMs * NS_PER_MS
  }

  function FreshLook(w: World, signal: string, rule: FreshnessRule, enabledSinceNs: int, now: int): Look<bool> {
    if !rule.configured then Skip
    else
      var stale := Stale(rule, if signal in w.latest then w.latest[signal].receiptNs else -1, enabledSinceNs, now);
      Want(now, stale, (if stale then rule.activationDelayMs else rule.clearDelayMs) * NS_PER_MS)
  }

  function ToldFreshness(m: Manager, signal: string, rule: FreshnessRule, s: Debouncer<bool>,
    look: Look<bool>): Manager {
    if !Commits(s, look) then m
    else if look.desired then Raise(m, Freshness(signal), rule.severity)
    else Clear(m, Freshness(signal))
  }

  function Enable(f: Fresh, now: int): Fresh {
    if f.enabledLast then f else f.(enabledLast := true, enabledSinceNs := now)
  }

  function EvaluateFreshness(w: World, signal: string, rule: FreshnessRule, f: Fresh, now: int): World {
    var look := FreshLook(w, signal, rule, f.enabledSinceNs, now);
    w.(freshness := w.freshness[signal := f.(waiting := Feed(false, f.waiting, look))],
       manager := ToldFreshness(w.manager, signal, rule, f.waiting, look))
  }

  // ---- Thresholds ------------------------------------------------------------

  /** Whether the evaluation gets as far as comparing the value. */
  predicate Compares(w: World, signal: string, p: Presentation, enabledSinceNs: int) {
    && signal in w.latest && w.latest[signal].valid
    && !(p.freshness.configured && w.latest[signal].receiptNs < enabledSinceNs)
  }

  function ThresholdLook(w: World, signal: string, p: Presentation, enabledSinceNs: int, now: int): Look<Desired> {
    if !Compares(w, signal, p, enabledSinceNs) then Skip
    else
      var current := StateOf(w, signal).committed;
      var desired := DesiredState(p, current, w.latest[signal].value);
      Want(now, desired, Delay(p, current, desired))
  }

  function ToldThreshold(m: Manager, signal: string, s: State, look: Look<Desired>): Manager {
    if !Commits(s, look) then m
    else if look.desired.level.Normal? then Clear(m, Threshold(signal))
    else Raise(m, Threshold(signal), if look.desired.level.Warned? then Critical else Caution)
  }

  function EvaluateThreshold(w: World, signal: string, p: Presentation, enabledSinceNs: int, now: int): World {
    var look := ThresholdLook(w, signal, p, enabledSinceNs, now);
    if look.Skip? then w
    else
      w.(states := w.states[signal := Feed(NORMAL, StateOf(w, signal), look)],
         manager := ToldThreshold(w.manager, signal, StateOf(w, signal), look))
  }

  function Disable(w: World, signal: string): World {
    World(w.latest, w.states - {signal}, w.freshness[signal := NOT_STALE],
          Clear(Clear(w.manager, Threshold(signal)), Freshness(signal)))
  }

  function EvaluateSignal(w: World, signal: string, p: Presentation, now: int): World {
    if !p.enabled then Disable(w, signal)
    else
      var f := Enable(FreshOf(w, signal), now);
      EvaluateThreshold(EvaluateFreshness(w, signal, p.freshness, f, now), signal, p, f.enabledSinceNs, now)
  }

  /** The configured signals in their order, each with its presentation if there is one. */
  type Configuration = seq<(string, Option<Presentation>)>

  function EvaluateAll(w: World, signals: Configuration, now: int): World
    decreases |signals|
  {
    if signals == [] then w
    else
      var next := match signals[0].1 case None => w case Some(p) => EvaluateSignal(w, signals[0].0, p, now);
      EvaluateAll(next, signals[1..], now)
  }

  // ---- The evaluator object --------------------------------------------------

  class Evaluator {
    const warningManager: WarningList
    var latestValues: map<string, Latest>
    var states: map<string, State>
    var freshnessStates: map<string, Fresh>

    /** A state that is back to normal carries no kind of its own. */
    ghost predicate Valid()
      reads this
    {
      forall signal :: signal in states && states[signal].committed.level.Normal? ==> states[signal].committed == NORMAL
    }

    function State(): World
      reads this, warningManager
    {
      World(latestValues, states, freshnessStates, warningManager.State())
    }

    constructor (manager: WarningList)
      ensures Valid() && warningManager == manager
      ensures State() == START.(manager := manager.State())
    {
      warningManager := manager;
      latestValues, states, freshnessStates := map[], map[], map[];
    }

    method ProcessSamples(samples: seq<Sample>, now: int, later: int, signals: Configuration)
      requires Valid()
      modifies this, warningManager
      ensures Valid()
      ensures State()
        == EvaluateAll(old(State()).(latest := ReceiveAll(old(latestValues), samples, now)), signals, later)
    {
      for i := 0 to |samples|
        invariant Valid()
        invariant State() == old(State()).(latest := ReceiveAll(old(latestValues), samples[..i], now))
      {
        assert samples[..i + 1][..i] == samples[..i];
        var name := samples[i].name;
        var latest := if name in latestValues then latestValues[name] else Latest(0.0, false, -1);
        latest := latest.(receiptNs := now, valid := samples[i].number.Some?);
        if latest.valid { latest := latest.(value := samples[i].number.value); }
        latestValues := latestValues[name := latest];
      }
      assert samples[..|samples|] == samples;
      EvaluateAllSignals(signals, later);
    }

    method EvaluateAllSignals(signals: Configuration, now: int)
      requires Valid()
      modifies this, warningManager
      ensures Valid()
      ensures State() == EvaluateAll(old(State()), signals, now)
    {
      var i := 0;
      assert signals[0..] == signals;
      while i < |signals|
        invariant Valid() && i <= |signals|
        invariant EvaluateAll(old(State()), signals, now) == EvaluateAll(State(), signals[i..], now)
      {
        assert signals[i..][0] == signals[i] && signals[i..][1..] == signals[i + 1..];
        if signals[i].1.Some? { EvaluateOne(signals[i].0, signals[i].1.value, now); }
        i := i + 1;
      }
    }

    method EvaluateOne(signal: string, p: Presentation, now: int)
      requires Valid()
      modifies this, warningManager
      ensures Valid()
      ensures State() == EvaluateSignal(old(State()), signal, p, now)
    {
      if !p.enabled {
        warningManager.ClearWarning(Threshold(signal));
        warningManager.ClearWarning(Freshness(signal));
        states := states - {signal};
        freshnessStates := freshnessStates[signal := NOT_STALE];
        return;
      }
      var freshness := if signal in freshnessStates then freshnessStates[signal] else NOT_STALE;
      if !freshness.enabledLast { freshness := freshness.(enabledLast := true, enabledSinceNs := now); }
      CheckFreshness(signal, p.freshness, freshness, now);
      CheckThresholds(signal, p, freshness.enabledSinceNs, now);
    }

    method CheckFreshness(signal: string, rule: FreshnessRule, f: Fresh, now: int)
      modifies this`freshnessStates, warningManager
      ensures State() == EvaluateFreshness(old(State()), signal, rule, f, now)
    {
      freshnessStates := freshnessStates[signal := f];
      if !rule.configured { return; }
      var receiptNs := if signal in latestValues then latestValues[signal].receiptNs else -1;
      AdvanceFreshness(signal, rule, f, Stale(rule, receiptNs, f.enabledSinceNs, now), now);
    }

    method AdvanceFreshness(signal: string, rule: FreshnessRule, f: Fresh, stale: bool, now: int)
      modifies this`freshnessStates, warningManager
      ensures var look := Want(now, stale, (if stale then rule.activationDelayMs else rule.clearDelayMs) * NS_PER_MS);
        && freshnessStates == old(freshnessStates)[signal := f.(waiting := Feed(false, f.waiting, look))]
        && warningManager.State() == ToldFreshness(old(warningManager.State()), signal, rule, f.waiting, look)
    {
      var s := f.waiting;
      if stale == s.committed {
        freshnessStates := freshnessStates[signal := f.(waiting := s.(since := -1))];
        return;
      }
      if s.since < 0 || s.candidate != stale { s := s.(candidate := stale, since := now); }
      var delayMs := if stale then rule.activationDelayMs else rule.clearDelayMs;
      if now - s.since < delayMs * NS_PER_MS {
        freshnessStates := freshnessStates[signal := f.(waiting := s)];
        return;
      }
      freshnessStates := freshnessStates[signal := f.(waiting := Debouncer(stale, s.candidate, -1))];
      if stale {
        warningManager.RaiseWarning(Freshness(signal), rule.severity);
      } else {
        warningManager.ClearWarning(Freshness(signal));
      }
    }

    method CheckThresholds(signal: string, p: Presentation, enabledSinceNs: int, now: int)
      requires Valid()
      modifies this`states, warningManager
      ensures Valid()
      ensures State() == EvaluateThreshold(old(State()), signal, p, enabledSinceNs, now)
    {
      if signal !in latestValues || !latestValues[signal].valid { return; }
      if p.freshness.configured && latestValues[signal].receiptNs < enabledSinceNs { return; }
      var s := if signal in states then states[signal] else Initial(NORMAL);
      var desired := DesiredState(p, s.committed, latestValues[signal].value);
      AdvanceThreshold(signal, s, desired, Delay(p, s.committed, desired), now);
    }

    method AdvanceThreshold(signal: string, start: Debouncer<Desired>, desired: Desired, delay: nat, now: int)
      requires Valid()
      requires start.committed.level.Normal? ==> start.committed == NORMAL
      requires desired.level.Normal? ==> desired == NORMAL
      modifies this`states, warningManager
      ensures Valid()
      ensures states == old(states)[signal := Feed(NORMAL, start, Want(now, desired, delay))]
      ensures warningManager.State()
        == ToldThreshold(old(warningManager.State()), signal, start, Want(now, desired, delay))
    {
      var s := start;
      if desired.level == s.committed.level && (desired.level.Normal? || desired.kind == s.committed.kind) {
        states := states[signal := s.(since := -1)];
        return;
      }
      if s.since < 0 || desired.level != s.candidate.level || desired.kind != s.candidate.kind {
        s := s.(candidate := desired, since := now);
      }
      if now - s.since >= delay {
        Commit(signal, s, desired);
      } else {
        states := states[signal := s];
      }
    }

    method Commit(signal: string, s: Debouncer<Desired>, desired: Desired)
      modifies this`states, warningManager
      ensures states == old(states)[signal := Debouncer(desired, s.candidate, -1)]
      ensures warningManager.State()
        == if desired.level.Normal? then Clear(old(warningManager.State()), Threshold(signal))
        else Raise(old(warningManager.State()), Threshold(signal), if desired.level.Warned? then Critical else Caution)
    {
      states := states[signal := Debouncer(desired, s.candidate, -1)];
      if desired.level.Normal? {
        warningManager.ClearWarning(Threshold(signal));
      } else {
        warningManager.RaiseWarning(Threshold(signal), if desired.level.Warned? then Critical else Caution);
      }
    }
  }
}
