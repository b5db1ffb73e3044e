/** Whole runs of the warning engine: the list agrees with the evaluator in every
    reachable state, and every change was debounced and respects hysteresis. */
module WarningRuns {
  import opened Options
  import opened WarningManager
  import opened Debounce
  import opened WarningEvaluator
  import opened WarningRules

  datatype Step =
    | Samples(samples: seq<Sample>, now: int)
    | Evaluate(signal: string, p: Presentation, now: int)
    | Act(action: Action)
    | RaiseOther(name: string, severity: Severity)
    | ClearOther(name: string)

  function Next(w: World, step: Step): World {
    match step
    case Samples(samples, now) => w.(latest := ReceiveAll(w.latest, samples, now))
    case Evaluate(signal, p, now) => EvaluateSignal(w, signal, p, now)
    case Act(action) => w.(manager := Handle(w.manager, action))
    case RaiseOther(name, severity) => w.(manager := Raise(w.manager, Other(name), severity))
    case ClearOther(name) => w.(manager := Clear(w.manager, Other(name)))
  }

  function After(w: World, steps: seq<Step>): World
    decreases |steps|
  {
    if steps == [] then w else After(Next(w, steps[0]), steps[1..])
  }

  // ---- Agreement -------------------------------------------------------------

  predicate ThresholdAgrees(entry: Option<Warning>, level: Level) {
    && (entry.Some? <==> level != Normal)
    && (entry.Some? ==> entry.value.severity == if level.Warned? then Critical else Caution)
  }

  /** What is listed for a signal is what the evaluator holds of it. */
  ghost predicate Agrees(w: World, signal: string) {
    && ThresholdAgrees(Entry(w.manager, Threshold(signal)), StateOf(w, signal).committed.level)
    && (Entry(w.manager, Freshness(signal)).Some? <==> FreshOf(w, signal).waiting.committed)
  }

  ghost predicate Agreement(w: World) {
    Ok(w.manager) && forall signal :: Agrees(w, signal)
  }

  lemma FreshnessStep(w: World, signal: string, rule: FreshnessRule, f: Fresh, now: int, x: Id)
    requires Ok(w.manager)
    requires Entry(w.manager, Freshness(signal)).Some? <==> f.waiting.committed
    ensures var n := EvaluateFreshness(w, signal, rule, f, now);
      && Ok(n.manager) && n.latest == w.latest && n.states == w.states
      && (Entry(n.manager, Freshness(signal)).Some? <==> n.freshness[signal].waiting.committed)
      && (x != Freshness(signal) ==> Entry(n.manager, x) == Entry(w.manager, x))
  {
    var look := FreshLook(w, signal, rule, f.enabledSinceNs, now);
    if Commits(f.waiting, look) {
      var id := Freshness(signal);
      WarningManager.StepKeepsOk(w.manager, Raised(id, rule.severity));
      WarningManager.StepKeepsOk(w.manager, Cleared(id));
      RaiseEntry(w.manager, id, rule.severity, x);
      RaiseEntry(w.manager, id, rule.severity, id);
      ClearEntry(w.manager, id, x);
      ClearEntry(w.manager, id, id);
    }
  }

  lemma ToldThresholdAgrees(m: Manager, signal: string, s: State, look: Look<Desired>, x: Id)
    requires Ok(m) && ThresholdAgrees(Entry(m, Threshold(signal)), s.committed.level) && !look.Reset?
    ensures var n := ToldThreshold(m, signal, s, look);
      && Ok(n) && ThresholdAgrees(Entry(n, Threshold(signal)), Feed(NORMAL, s, look).committed.level)
      && (x != Threshold(signal) ==> Entry(n, x) == Entry(m, x))
  {
    var id := Threshold(signal);
    if Commits(s, look) && look.desired.level.Normal? {
      WarningManager.StepKeepsOk(m, Cleared(id));
      ClearEntry(m, id, x);
      ClearEntry(m, id, id);
    } else if Commits(s, look) {
      var severity := if look.desired.level.Warned? then Critical else Caution;
      WarningManager.StepKeepsOk(m, Raised(id, severity));
      RaiseEntry(m, id, severity, x);
      RaiseEntry(m, id, severity, id);
    }
  }

  lemma DisableAgrees(w: World, signal: string, x: string)
    requires Ok(w.manager) && Agrees(w, x)
    ensures Ok(Disable(w, signal).manager) && Agrees(Disable(w, signal), x)
  {
    var m := Clear(w.manager, Threshold(signal));
    WarningManager.StepKeepsOk(w.manager, Cleared(Threshold(signal)));
    WarningManager.StepKeepsOk(m, Cleared(Freshness(signal)));
    ClearEntry(w.manager, Threshold(signal), Threshold(x));
    ClearEntry(w.manager, Threshold(signal), Freshness(x));
    ClearEntry(m, Freshness(signal), Threshold(x));
    ClearEntry(m, Freshness(signal), Freshness(x));
  }

  lemma ThresholdStep(w: World, signal: string, p: Presentation, enabledSinceNs: int, now: int, x: string)
    requires Ok(w.manager) && Agrees(w, x)
    requires ThresholdAgrees(Entry(w.manager, Threshold(signal)), StateOf(w, signal).committed.level)
    ensures var n := EvaluateThreshold(w, signal, p, enabledSinceNs, now); Ok(n.manager) && Agrees(n, x)
  {
    var look := ThresholdLook(w, signal, p, enabledSinceNs, now);
    ToldThresholdAgrees(w.manager, signal, StateOf(w, signal), look, Threshold(x));
    ToldThresholdAgrees(w.manager, signal, StateOf(w, signal), look, Freshness(x));
  }

  lemma EvaluateAgrees(w: World, signal: string, p: Presentation, now: int, x: string)
    requires Ok(w.manager) && Agrees(w, signal) && Agrees(w, x)
    ensures Ok(EvaluateSignal(w, signal, p, now).manager) && Agrees(EvaluateSignal(w, signal, p, now), x)
  {
    if !p.enabled {
      DisableAgrees(w, signal, x);
    } else {
      var f := Enable(FreshOf(w, signal), now);
      FreshnessStep(w, signal, p.freshness, f, now, Threshold(x));
      FreshnessStep(w, signal, p.freshness, f, now, Threshold(signal));
      FreshnessStep(w, signal, p.freshness, f, now, Freshness(x));
      ThresholdStep(EvaluateFreshness(w, signal, p.freshness, f, now), signal, p, f.enabledSinceNs, now, x);
    }
  }

  lemma StepAgrees(w: World, step: Step, x: string)
    requires Agreement(w)
    ensures Ok(Next(w, step).manager) && Agrees(Next(w, step), x)
  {
    assert Agrees(w, x);
    match step {
      case Samples(_, _) =>
      case Evaluate(signal, p, now) =>
        assert Agrees(w, signal);
        EvaluateAgrees(w, signal, p, now, x);
      case Act(action) =>
        WarningManager.StepKeepsOk(w.manager, Acted(action));
        HandleEntry(w.manager, action, Threshold(x));
        HandleEntry(w.manager, action, Freshness(x));
        ShownIsEntry(w.manager);
      case RaiseOther(name, severity) =>
        WarningManager.StepKeepsOk(w.manager, Raised(Other(name), severity));
        if !Nameless(Other(name)) {
          RaiseEntry(w.manager, Other(name), severity, Threshold(x));
          RaiseEntry(w.manager, Other(name), severity, Freshness(x));
        }
      case ClearOther(name) =>
        WarningManager.StepKeepsOk(w.manager, Cleared(Other(name)));
        ClearEntry(w.manager, Other(name), Threshold(x));
        ClearEntry(w.manager, Other(name), Freshness(x));
    }
  }

  lemma ShownIsEntry(m: Manager)
    requires Ok(m)
    ensures Current(m).Some? ==> Entry(m, m.warnings[Current(m).value].id) == Some(m.warnings[Current(m).value])
  {
    if Current(m).Some? { EntryIs(m, Current(m).value); }
  }

  /** In every reachable state a threshold warning is listed exactly while its signal is
      not normal and is critical exactly at the warning level, a freshness warning is
      listed exactly while its signal is stale, ids are unique and the cursor is valid. */
  lemma {:induction false} ListAndEvaluatorAgree(w: World, steps: seq<Step>)
    requires Agreement(w)
    ensures Agreement(After(w, steps))
    decreases |steps|
  {
    if steps != [] {
      var n := Next(w, steps[0]);
      forall x ensures Agrees(n, x) { StepAgrees(w, steps[0], x); }
      StepAgrees(w, steps[0], "");
      ListAndEvaluatorAgree(n, steps[1..]);
    }
  }

  lemma StartAgrees()
    ensures Agreement(START)
  {
  }

  /** In every run from the start. */
  lemma AgreeFromTheStart(steps: seq<Step>)
    ensures Agreement(After(START, steps))
  {
    StartAgrees();
    ListAndEvaluatorAgree(START, steps);
  }

  // ---- Each signal is a debouncer --------------------------------------------

  /** The state before each step of a run, and after the last. */
  function Worlds(w: World, steps: seq<Step>): (r: seq<World>)
    ensures |r| == |steps| + 1 && r[0] == w
    decreases |steps|
  {
    if steps == [] then [w] else [w] + Worlds(Next(w, steps[0]), steps[1..])
  }

  lemma {:induction false} WorldsStep(w: World, steps: seq<Step>, i: nat)
    requires i < |steps|
    ensures Worlds(w, steps)[i + 1] == Next(Worlds(w, steps)[i], steps[i])
    decreases |steps|
  {
    if i > 0 { WorldsStep(Next(w, steps[0]), steps[1..], i - 1); }
  }

  function ThresholdLookOf(w: World, step: Step, x: string): Look<Desired> {
    if !step.Evaluate? || step.signal != x then Skip
    else if !step.p.enabled then Reset
    else ThresholdLook(w, x, step.p, Enable(FreshOf(w, x), step.now).enabledSinceNs, step.now)
  }

  function FreshLookOf(w: World, step: Step, x: string): Look<bool> {
    if !step.Evaluate? || step.signal != x then Skip
    else if !step.p.enabled then Reset
    else FreshLook(w, x, step.p.freshness, Enable(FreshOf(w, x), step.now).enabledSinceNs, step.now)
  }

  lemma StepIsLook(w: World, step: Step, x: string)
    ensures StateOf(Next(w, step), x) == Feed(NORMAL, StateOf(w, x), ThresholdLookOf(w, step, x))
    ensures FreshOf(Next(w, step), x).waiting == Feed(false, FreshOf(w, x).waiting, FreshLookOf(w, step, x))
  {
  }

  function ThresholdStates(ws: seq<World>, x: string): seq<Debouncer<Desired>> {
    seq(|ws|, i requires 0 <= i < |ws| => StateOf(ws[i], x))
  }

  function ThresholdLooks(ws: seq<World>, steps: seq<Step>, x: string): seq<Look<Desired>>
    requires |ws| == |steps| + 1
  {
    seq(|steps|, i requires 0 <= i < |steps| => ThresholdLookOf(ws[i], steps[i], x))
  }

  function FreshStates(ws: seq<World>, x: string): seq<Debouncer<bool>> {
    seq(|ws|, i requires 0 <= i < |ws| => FreshOf(ws[i], x).waiting)
  }

  function FreshLooks(ws: seq<World>, steps: seq<Step>, x: string): seq<Look<bool>>
    requires |ws| == |steps| + 1
  {
    seq(|steps|, i requires 0 <= i < |steps| => FreshLookOf(ws[i], steps[i], x))
  }

  /** The clock of a run never runs back. */
  ghost predicate ClockRuns(steps: seq<Step>) {
    && (forall i :: 0 <= i < |steps| && steps[i].Evaluate? ==> steps[i].now >= 0)
    && (forall i, j :: 0 <= i < j < |steps| && steps[i].Evaluate? && steps[j].Evaluate? ==>
          steps[i].now <= steps[j].now)
  }

  lemma ThresholdIsDebounced(steps: seq<Step>, x: string)
    ensures var ws := Worlds(START, steps);
      Behaviour(NORMAL, ThresholdStates(ws, x), ThresholdLooks(ws, steps, x))
  {
    var ws := Worlds(START, steps);
    forall i | 0 <= i < |steps|
      ensures StateOf(ws[i + 1], x) == Feed(NORMAL, StateOf(ws[i], x), ThresholdLookOf(ws[i], steps[i], x))
    {
      WorldsStep(START, steps, i);
      StepIsLook(ws[i], steps[i], x);
    }
  }

  lemma FreshnessIsDebounced(steps: seq<Step>, x: string)
    ensures var ws := Worlds(START, steps); Behaviour(false, FreshStates(ws, x), FreshLooks(ws, steps, x))
  {
    var ws := Worlds(START, steps);
    forall i | 0 <= i < |steps|
      ensures FreshOf(ws[i + 1], x).waiting == Feed(false, FreshOf(ws[i], x).waiting, FreshLookOf(ws[i], steps[i], x))
    {
      WorldsStep(START, steps, i);
      StepIsLook(ws[i], steps[i], x);
    }
  }

  /** A look happens at the time of its step. */
  lemma LookIsNow(w: World, step: Step, x: string)
    ensures var look := ThresholdLookOf(w, step, x);
      look.Want? ==> step.Evaluate? && look.now == step.now && look.delay >= 0
    ensures var look := FreshLookOf(w, step, x);
      look.Want? ==> step.Evaluate? && look.now == step.now && look.delay >= 0
  {
  }

  lemma LooksAreInTime(ws: seq<World>, steps: seq<Step>, x: string)
    requires ClockRuns(steps) && |ws| == |steps| + 1
    ensures InTime(ThresholdLooks(ws, steps, x)) && InTime(FreshLooks(ws, steps, x))
  {
    forall i | 0 <= i < |steps|
      ensures var look := ThresholdLooks(ws, steps, x)[i];
        look.Want? ==> steps[i].Evaluate? && look.now == steps[i].now && look.delay >= 0
      ensures var look := FreshLooks(ws, steps, x)[i];
        look.Want? ==> steps[i].Evaluate? && look.now == steps[i].now && look.delay >= 0
    {
      LookIsNow(ws[i], steps[i], x);
    }
  }

  /** The step disables the warnings of the signal, which takes its state back. */
  predicate Disables(step: Step, x: string) { step.Evaluate? && step.signal == x && !step.p.enabled }

  /** At step `n` the level or kind of the signal changes. */
  ghost predicate LevelChanges(steps: seq<Step>, x: string, n: nat)
    requires n < |steps|
  {
    var ws := Worlds(START, steps);
    !Disables(steps[n], x) && StateOf(ws[n + 1], x).committed != StateOf(ws[n], x).committed
  }

  ghost predicate StalenessChanges(steps: seq<Step>, x: string, n: nat)
    requires n < |steps|
  {
    var ws := Worlds(START, steps);
    !Disables(steps[n], x) && FreshOf(ws[n + 1], x).waiting.committed != FreshOf(ws[n], x).waiting.committed
  }

  /** What can be seen to change has been committed, and the other way round. */
  lemma LevelChangesIff(steps: seq<Step>, x: string, n: nat)
    requires n < |steps|
    ensures var ws := Worlds(START, steps);
      LevelChanges(steps, x, n) <==> Commits(ThresholdStates(ws, x)[n], ThresholdLooks(ws, steps, x)[n])
  {
    var ws := Worlds(START, steps);
    WorldsStep(START, steps, n);
    StepIsLook(ws[n], steps[n], x);
    ChangesIff(NORMAL, StateOf(ws[n], x), ThresholdLookOf(ws[n], steps[n], x));
  }

  lemma StalenessChangesIff(steps: seq<Step>, x: string, n: nat)
    requires n < |steps|
    ensures var ws := Worlds(START, steps);
      StalenessChanges(steps, x, n) <==> Commits(FreshStates(ws, x)[n], FreshLooks(ws, steps, x)[n])
  {
    var ws := Worlds(START, steps);
    WorldsStep(START, steps, n);
    StepIsLook(ws[n], steps[n], x);
    ChangesIff(false, FreshOf(ws[n], x).waiting, FreshLookOf(ws[n], steps[n], x));
  }

  /** Every change of a signal's level or kind, at step `n` of any run, was what its value
      called for at every comparing evaluation since one at least the applicable delay
      earlier, with no other change and no disabling in between. */
  lemma ChangesAreDebounced(steps: seq<Step>, x: string, n: nat) returns (m: nat)
    requires ClockRuns(steps) && n < |steps| && LevelChanges(steps, x, n)
    ensures var ws := Worlds(START, steps);
      && ThresholdLooks(ws, steps, x)[n].Want?
      && WantedLongEnough(ThresholdStates(ws, x), ThresholdLooks(ws, steps, x), m, n)
      && StateOf(ws[n + 1], x).committed == ThresholdLooks(ws, steps, x)[n].desired
  {
    var ws := Worlds(START, steps);
    ThresholdIsDebounced(steps, x);
    LooksAreInTime(ws, steps, x);
    LevelChangesIff(steps, x, n);
    m := CommitWasDebounced(NORMAL, ThresholdStates(ws, x), ThresholdLooks(ws, steps, x), n);
    TakesOver(NORMAL, ThresholdStates(ws, x), ThresholdLooks(ws, steps, x), n);
  }

  /** Two changes are at least the delay of the later one apart, whatever else happens
      between them; being disabled does not count as a change. */
  lemma ChangesAreApart(steps: seq<Step>, x: string, a: nat, b: nat)
    requires ClockRuns(steps) && a < b < |steps| && LevelChanges(steps, x, a) && LevelChanges(steps, x, b)
    ensures steps[a].Evaluate? && steps[b].Evaluate?
    ensures var look := ThresholdLooks(Worlds(START, steps), steps, x)[b];
      look.Want? && steps[b].now - steps[a].now >= look.delay
  {
    var ws := Worlds(START, steps);
    ThresholdIsDebounced(steps, x);
    LooksAreInTime(ws, steps, x);
    LevelChangesIff(steps, x, a);
    LevelChangesIff(steps, x, b);
    LookIsNow(ws[a], steps[a], x);
    LookIsNow(ws[b], steps[b], x);
    CommitsAreApart(NORMAL, ThresholdStates(ws, x), ThresholdLooks(ws, steps, x), a, b);
  }

  /** The same for staleness. */
  lemma StalenessIsDebounced(steps: seq<Step>, x: string, n: nat) returns (m: nat)
    requires ClockRuns(steps) && n < |steps| && StalenessChanges(steps, x, n)
    ensures var ws := Worlds(START, steps);
      && FreshLooks(ws, steps, x)[n].Want?
      && WantedLongEnough(FreshStates(ws, x), FreshLooks(ws, steps, x), m, n)
      && FreshOf(ws[n + 1], x).waiting.committed == FreshLooks(ws, steps, x)[n].desired
  {
    var ws := Worlds(START, steps);
    FreshnessIsDebounced(steps, x);
    LooksAreInTime(ws, steps, x);
    StalenessChangesIff(steps, x, n);
    m := CommitWasDebounced(false, FreshStates(ws, x), FreshLooks(ws, steps, x), n);
    TakesOver(false, FreshStates(ws, x), FreshLooks(ws, steps, x), n);
  }

  // ---- Hysteresis ------------------------------------------------------------

  lemma {:induction false} CommittedFits(steps: seq<Step>, x: string, n: nat)
    requires n <= |steps|
    ensures Fits(StateOf(Worlds(START, steps)[n], x).committed)
    decreases n
  {
    if n > 0 {
      CommittedFits(steps, x, n - 1);
      WorldsStep(START, steps, n - 1);
      StepKeepsFits(Worlds(START, steps)[n - 1], steps[n - 1], x);
    }
  }

  lemma StepKeepsFits(w: World, step: Step, x: string)
    requires Fits(StateOf(w, x).committed)
    ensures Fits(StateOf(Next(w, step), x).committed)
  {
    StepIsLook(w, step, x);
    WantedFits(w, step, x);
  }

  lemma WantedFits(w: World, step: Step, x: string)
    requires Fits(StateOf(w, x).committed)
    ensures var look := ThresholdLookOf(w, step, x); look.Want? ==> Fits(look.desired)
  {
  }

  /** At step `i` the signal is neither disabled nor compared with a value that does not hold `d`. */
  predicate HeldAt(w: World, step: Step, x: string, d: Desired) {
    var look := ThresholdLookOf(w, step, x);
    !look.Reset? && (look.Want? ==> Holds(step.p, d, w.latest[x].value))
  }

  lemma HeldLook(w: World, step: Step, x: string, d: Desired)
    requires Fits(d) && d.level != Normal && HeldAt(w, step, x, d)
    ensures var look := ThresholdLookOf(w, step, x);
      !look.Reset? && (look.Want? && StateOf(w, x).committed == d ==> look.desired == d)
  {
    if ThresholdLookOf(w, step, x).Want? {
      HoldingIsWanted(step.p, d, w.latest[x].value);
    }
  }

  /** A committed level and kind never changes while every value compared stays in its
      hysteresis band, no other warning threshold takes precedence and the signal is
      not disabled. */
  lemma HysteresisHolds(steps: seq<Step>, x: string, from: nat, n: nat)
    requires ClockRuns(steps) && from <= n <= |steps|
    requires var ws := Worlds(START, steps);
      var d := StateOf(ws[from], x).committed;
      d.level != Normal && forall i {:trigger steps[i]} :: from <= i < n ==> HeldAt(ws[i], steps[i], x, d)
    ensures StateOf(Worlds(START, steps)[n], x).committed == StateOf(Worlds(START, steps)[from], x).committed
  {
    ThresholdIsDebounced(steps, x);
    CommittedFits(steps, x, from);
    var ws := Worlds(START, steps);
    StaysHeld(ws, steps, x, from, n);
  }

  lemma StaysHeld(ws: seq<World>, steps: seq<Step>, x: string, from: nat, n: nat)
    requires |ws| == |steps| + 1 && from <= n <= |steps|
    requires Behaviour(NORMAL, ThresholdStates(ws, x), ThresholdLooks(ws, steps, x))
    requires var d := StateOf(ws[from], x).committed;
      Fits(d) && d.level != Normal && forall i {:trigger steps[i]} :: from <= i < n ==> HeldAt(ws[i], steps[i], x, d)
    ensures StateOf(ws[n], x).committed == StateOf(ws[from], x).committed
  {
    var states, looks := ThresholdStates(ws, x), ThresholdLooks(ws, steps, x);
    forall i {:trigger looks[i]} | from <= i < n
      ensures !looks[i].Reset?
      ensures looks[i].Want? && states[i].committed == states[from].committed ==>
        looks[i].desired == states[from].committed
    {
      HeldLook(ws[i], steps[i], x, states[from].committed);
    }
    WantedStays(NORMAL, states, looks, from, n);
  }
}
