/** What an evaluation goes by, told from the run: the samples received so far and how
    long the warnings of the signal have been enabled. */
module WarningInputs {
  import opened Options
  import opened WarningManager
  import opened Debounce
  import opened WarningEvaluator
  import opened WarningRules
  import opened WarningRuns

  // ---- The history of a signal -----------------------------------------------

  /** The last sample of a signal among some: `None` if there is none. */
  function LastOf(samples: seq<Sample>, x: string): Option<Sample> {
    if samples == [] then None
    else if samples[|samples| - 1].name == x then Some(samples[|samples| - 1])
    else LastOf(samples[..|samples| - 1], x)
  }

  /** The last sample of them that is a finite number. */
  function LastNumberOf(samples: seq<Sample>, x: string): Option<real> {
    if samples == [] then None
    else if samples[|samples| - 1].name == x && samples[|samples| - 1].number.Some? then samples[|samples| - 1].number
    else LastNumberOf(samples[..|samples| - 1], x)
  }

  /** When a signal was last received, and whether that was a number. */
  datatype Heard = Never | At(now: int, numeric: bool)

  function LastHeard(steps: seq<WarningRuns.Step>, x: string): Heard {
    if steps == [] then Never
    else
      var before, last := LastHeard(steps[..|steps| - 1], x), steps[|steps| - 1];
      if last.Samples? && LastOf(last.samples, x).Some? then At(last.now, LastOf(last.samples, x).value.number.Some?)
      else before
  }

  function LastNumber(steps: seq<WarningRuns.Step>, x: string): Option<real> {
    if steps == [] then None
    else
      var before, last := LastNumber(steps[..|steps| - 1], x), steps[|steps| - 1];
      if last.Samples? && LastNumberOf(last.samples, x).Some? then LastNumberOf(last.samples, x) else before
  }

  /** Since when the signal has been enabled at every evaluation of it. */
  function EnabledSince(steps: seq<WarningRuns.Step>, x: string): Option<int> {
    if steps == [] then None
    else
      var before, last := EnabledSince(steps[..|steps| - 1], x), steps[|steps| - 1];
      if !last.Evaluate? || last.signal != x then before
      else if !last.p.enabled then None
      else if before.Some? then before
      else Some(last.now)
  }

  // ---- The stores hold that history ------------------------------------------

  /** The store of latest values after some samples. */
  ghost predicate Stored(latest: map<string, Latest>, x: string, heard: Heard, number: Option<real>) {
    && (x in latest <==> heard.At?)
    && (heard.At? ==> latest[x].receiptNs == heard.now && latest[x].valid == heard.numeric)
    && (heard.At? && heard.numeric ==> number == Some(latest[x].value))
  }

  /** The history of a signal after a batch of samples. */
  function HeardAfter(heard: Heard, samples: seq<Sample>, x: string, now: int): Heard {
    if LastOf(samples, x).Some? then At(now, LastOf(samples, x).value.number.Some?) else heard
  }

  function NumberAfter(number: Option<real>, samples: seq<Sample>, x: string): Option<real> {
    if LastNumberOf(samples, x).Some? then LastNumberOf(samples, x) else number
  }

  lemma {:induction false} ReceivedIsStored(latest: map<string, Latest>, samples: seq<Sample>, now: int, x: string,
    heard: Heard, number: Option<real>)
    requires Stored(latest, x, heard, number)
    ensures Stored(ReceiveAll(latest, samples, now), x,
      HeardAfter(heard, samples, x, now), NumberAfter(number, samples, x))
    decreases |samples|
  {
    if samples != [] { ReceivedIsStored(latest, samples[..|samples| - 1], now, x, heard, number); }
  }

  lemma LatestKept(w: World, step: WarningRuns.Step)
    ensures WarningRuns.Next(w, step).latest ==
      if step.Samples? then ReceiveAll(w.latest, step.samples, step.now) else w.latest
  {
  }

  lemma {:induction false} StoreIsHistory(steps: seq<WarningRuns.Step>, x: string, n: nat)
    requires n <= |steps|
    ensures Stored(Worlds(START, steps)[n].latest, x, LastHeard(steps[..n], x), LastNumber(steps[..n], x))
    decreases n
  {
    if n > 0 {
      StoreIsHistory(steps, x, n - 1);
      WorldsStep(START, steps, n - 1);
      var w, step := Worlds(START, steps)[n - 1], steps[n - 1];
      LatestKept(w, step);
      assert steps[..n][..n - 1] == steps[..n - 1];
      if step.Samples? {
        ReceivedIsStored(w.latest, step.samples, step.now, x,
          LastHeard(steps[..n - 1], x), LastNumber(steps[..n - 1], x));
      }
    }
  }

  ghost predicate EnabledIs(f: Fresh, since: Option<int>) {
    f.enabledLast == since.Some? && f.enabledSinceNs == if since.Some? then since.value else -1
  }

  lemma FreshKept(w: World, step: WarningRuns.Step, x: string)
    ensures var f := FreshOf(WarningRuns.Next(w, step), x);
      var was := FreshOf(w, x);
      if !step.Evaluate? || step.signal != x then f == was
      else if !step.p.enabled then f == NOT_STALE
      else f.enabledLast && f.enabledSinceNs == Enable(was, step.now).enabledSinceNs
  {
  }

  lemma {:induction false} EnablingIsHistory(steps: seq<WarningRuns.Step>, x: string, n: nat)
    requires n <= |steps|
    ensures EnabledIs(FreshOf(Worlds(START, steps)[n], x), EnabledSince(steps[..n], x))
    decreases n
  {
    if n > 0 {
      EnablingIsHistory(steps, x, n - 1);
      WorldsStep(START, steps, n - 1);
      FreshKept(Worlds(START, steps)[n - 1], steps[n - 1], x);
      assert steps[..n][..n - 1] == steps[..n - 1];
    }
  }

  // ---- What an evaluation compares -------------------------------------------

  /** Since when a signal is enabled, once it is evaluated with warnings at `now`. */
  function Since(before: Option<int>, now: int): int {
    if before.Some? then before.value else now
  }

  lemma SinceIs(steps: seq<WarningRuns.Step>, n: nat)
    requires n < |steps| && steps[n].Evaluate? && steps[n].p.enabled
    ensures EnabledSince(steps[..n + 1], steps[n].signal)
         == Some(Since(EnabledSince(steps[..n], steps[n].signal), steps[n].now))
  {
    assert steps[..n + 1][..n] == steps[..n];
  }

  lemma ThresholdLookIs(w: World, step: WarningRuns.Step, heard: Heard, number: Option<real>, before: Option<int>)
    requires step.Evaluate? && step.p.enabled
    requires Stored(w.latest, step.signal, heard, number) && EnabledIs(FreshOf(w, step.signal), before)
    ensures var p := step.p;
      var current := StateOf(w, step.signal).committed;
      var look := ThresholdLookOf(w, step, step.signal);
      && (look.Want? <==>
            heard.At? && heard.numeric && (p.freshness.configured ==> heard.now >= Since(before, step.now)))
      && (look.Want? ==>
            && number.Some? && look.now == step.now && look.desired == DesiredState(p, current, number.value)
            && look.delay == Delay(p, current, look.desired))
      && (!look.Want? ==> look == Skip)
  {
    assert Enable(FreshOf(w, step.signal), step.now).enabledSinceNs == Since(before, step.now);
  }

  lemma FreshLookIs(w: World, step: WarningRuns.Step, heard: Heard, number: Option<real>, before: Option<int>)
    requires step.Evaluate? && step.p.enabled
    requires Stored(w.latest, step.signal, heard, number) && EnabledIs(FreshOf(w, step.signal), before)
    ensures var rule := step.p.freshness;
      var look := FreshLookOf(w, step, step.signal);
      && (look.Want? <==> rule.configured)
      && (!look.Want? ==> look == Skip)
      && (look.Want? ==>
            && look.now == step.now
            && look.desired == Stale(rule, if heard.At? then heard.now else -1, Since(before, step.now), step.now)
            && look.delay == (if look.desired then rule.activationDelayMs else rule.clearDelayMs) * 1_000_000)
  {
    assert Enable(FreshOf(w, step.signal), step.now).enabledSinceNs == Since(before, step.now);
  }

  /** Evaluation number `n` of the run compares the value of its signal, in terms of what
      has happened: when the last sample was a number and, if staleness is watched, did
      not come before the warnings were enabled.  It compares that number, by the rules of
      the moment, and asks for the delay of the change it would be. */
  lemma ComparisonIs(steps: seq<WarningRuns.Step>, n: nat)
    requires n < |steps| && steps[n].Evaluate? && steps[n].p.enabled
    ensures var x, p, now := steps[n].signal, steps[n].p, steps[n].now;
      var heard, number := LastHeard(steps[..n], x), LastNumber(steps[..n], x);
      var since := EnabledSince(steps[..n + 1], x);
      var w := Worlds(START, steps)[n];
      var current := StateOf(w, x).committed;
      var look := ThresholdLookOf(w, steps[n], x);
      && since.Some?
      && (look.Want? <==> heard.At? && heard.numeric && (p.freshness.configured ==> heard.now >= since.value))
      && (look.Want? ==>
            && number.Some? && look.now == now && look.desired == DesiredState(p, current, number.value)
            && look.delay == Delay(p, current, look.desired))
      && (!look.Want? ==> look == Skip)
  {
    var x := steps[n].signal;
    StoreIsHistory(steps, x, n);
    EnablingIsHistory(steps, x, n);
    SinceIs(steps, n);
    ThresholdLookIs(Worlds(START, steps)[n], steps[n], LastHeard(steps[..n], x), LastNumber(steps[..n], x),
      EnabledSince(steps[..n], x));
  }

  /** Staleness is judged whenever it is watched, from the later of the last sample of any
      kind and the enabling, and waits for its own delay each way. */
  lemma StalenessIs(steps: seq<WarningRuns.Step>, n: nat)
    requires n < |steps| && steps[n].Evaluate? && steps[n].p.enabled
    ensures var x, rule, now := steps[n].signal, steps[n].p.freshness, steps[n].now;
      var heard := LastHeard(steps[..n], x);
      var since := EnabledSince(steps[..n + 1], x);
      var look := FreshLookOf(Worlds(START, steps)[n], steps[n], x);
      && since.Some?
      && (look.Want? <==> rule.configured)
      && (!look.Want? ==> look == Skip)
      && (look.Want? ==>
            && look.now == now
            && look.desired == Stale(rule, if heard.At? then heard.now else -1, since.value, now)
            && look.delay == (if look.desired then rule.activationDelayMs else rule.clearDelayMs) * 1_000_000)
  {
    var x := steps[n].signal;
    StoreIsHistory(steps, x, n);
    EnablingIsHistory(steps, x, n);
    SinceIs(steps, n);
    FreshLookIs(Worlds(START, steps)[n], steps[n], LastHeard(steps[..n], x), LastNumber(steps[..n], x),
      EnabledSince(steps[..n], x));
  }

  /** A disabled signal is reset, and its evaluation is the only one that resets. */
  lemma ResetIff(steps: seq<WarningRuns.Step>, x: string, n: nat)
    requires n < |steps|
    ensures var w := Worlds(START, steps)[n];
      && (ThresholdLookOf(w, steps[n], x).Reset? <==> Disables(steps[n], x))
      && (FreshLookOf(w, steps[n], x).Reset? <==> Disables(steps[n], x))
      && (!(steps[n].Evaluate? && steps[n].signal == x) ==>
            ThresholdLookOf(w, steps[n], x) == Skip && FreshLookOf(w, steps[n], x) == Skip)
  {
  }

  /** A level changes exactly when a comparison calls for another one and every comparison
      has called for it throughout the delay: neither early nor late. */
  lemma LevelChangesWhenDue(steps: seq<WarningRuns.Step>, x: string, n: nat)
    requires ClockRuns(steps) && n < |steps|
    ensures var ws := Worlds(START, steps);
      var states, looks := ThresholdStates(ws, x), ThresholdLooks(ws, steps, x);
      LevelChanges(steps, x, n) <==>
        && looks[n].Want? && looks[n].desired != StateOf(ws[n], x).committed
        && exists m: nat :: WantedLongEnough(states, looks, m, n)
  {
    var ws := Worlds(START, steps);
    ThresholdIsDebounced(steps, x);
    LooksAreInTime(ws, steps, x);
    LevelChangesIff(steps, x, n);
    if ThresholdLooks(ws, steps, x)[n].Want? {
      CommitsIff(NORMAL, ThresholdStates(ws, x), ThresholdLooks(ws, steps, x), n);
    }
  }

  lemma StalenessChangesWhenDue(steps: seq<WarningRuns.Step>, x: string, n: nat)
    requires ClockRuns(steps) && n < |steps|
    ensures var ws := Worlds(START, steps);
      var states, looks := FreshStates(ws, x), FreshLooks(ws, steps, x);
      StalenessChanges(steps, x, n) <==>
        && looks[n].Want? && looks[n].desired != FreshOf(ws[n], x).waiting.committed
        && exists m: nat :: WantedLongEnough(states, looks, m, n)
  {
    var ws := Worlds(START, steps);
    FreshnessIsDebounced(steps, x);
    LooksAreInTime(ws, steps, x);
    StalenessChangesIff(steps, x, n);
    if FreshLooks(ws, steps, x)[n].Want? {
      CommitsIff(false, FreshStates(ws, x), FreshLooks(ws, steps, x), n);
    }
  }

  // ---- All signals -----------------------------------------------------------

  /** The evaluations of one round: each configured signal that is presented, in order. */
  function Evaluations(signals: Configuration, now: int): seq<WarningRuns.Step> {
    if signals == [] then []
    else (match signals[0].1 case None => [] case Some(p) => [Evaluate(signals[0].0, p, now)])
         + Evaluations(signals[1..], now)
  }

  /** A round of the evaluator is the run of its evaluations. */
  lemma {:induction false} RoundIsRun(w: World, signals: Configuration, now: int)
    ensures EvaluateAll(w, signals, now) == WarningRuns.After(w, Evaluations(signals, now))
    decreases |signals|
  {
    if signals != [] {
      match signals[0].1 {
        case None =>
          RoundIsRun(w, signals[1..], now);
          assert [] + Evaluations(signals[1..], now) == Evaluations(signals[1..], now);
        case Some(p) =>
          RoundIsRun(EvaluateSignal(w, signals[0].0, p, now), signals[1..], now);
          assert ([Evaluate(signals[0].0, p, now)] + Evaluations(signals[1..], now))[1..]
            == Evaluations(signals[1..], now);
      }
    }
  }

  /** A freshness warning that is listed anew has the severity of its rule. */
  lemma StaleWarningHasItsSeverity(w: World, signal: string, p: Presentation, now: int)
    requires Ok(w.manager) && p.enabled && Entry(w.manager, Freshness(signal)).None?
    ensures var n := EvaluateSignal(w, signal, p, now).manager;
      Entry(n, Freshness(signal)).Some? ==>
        Entry(n, Freshness(signal)).value == Warning(Freshness(signal), p.freshness.severity, false)
  {
    var f := Enable(FreshOf(w, signal), now);
    var m := EvaluateFreshness(w, signal, p.freshness, f, now);
    StaleEntry(w, signal, p.freshness, f, now);
    ThresholdLeavesStale(m, signal, p, f.enabledSinceNs, now);
  }

  lemma StaleEntry(w: World, signal: string, rule: FreshnessRule, f: Fresh, now: int)
    requires Ok(w.manager) && Entry(w.manager, Freshness(signal)).None?
    ensures var n := EvaluateFreshness(w, signal, rule, f, now).manager;
      && Ok(n)
      && (Entry(n, Freshness(signal)).Some? ==>
            Entry(n, Freshness(signal)).value == Warning(Freshness(signal), rule.severity, false))
  {
    RaiseEntry(w.manager, Freshness(signal), rule.severity, Freshness(signal));
    ClearEntry(w.manager, Freshness(signal), Freshness(signal));
    WarningManager.StepKeepsOk(w.manager, Raised(Freshness(signal), rule.severity));
    WarningManager.StepKeepsOk(w.manager, Cleared(Freshness(signal)));
  }

  lemma ThresholdLeavesStale(w: World, signal: string, p: Presentation, enabledSinceNs: int, now: int)
    requires Ok(w.manager)
    ensures var n := EvaluateThreshold(w, signal, p, enabledSinceNs, now).manager;
      Entry(n, Freshness(signal)) == Entry(w.manager, Freshness(signal))
  {
    RaiseEntry(w.manager, Threshold(signal), Critical, Freshness(signal));
    RaiseEntry(w.manager, Threshold(signal), Caution, Freshness(signal));
    ClearEntry(w.manager, Threshold(signal), Freshness(signal));
  }
}
