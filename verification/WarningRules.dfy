/** What a value calls for and when a signal is stale, stated apart from the order in
    which the evaluator asks. */
module WarningRules {
  import opened Options
  import opened WarningManager
  import opened WarningEvaluator

  /** A warning level comes with a warning threshold, a caution level with the others. */
  predicate Fits(d: Desired) {
    match d.level
    case Normal => d == NORMAL
    case Cautious => d.kind.LowCaution? || d.kind.HighCaution?
    case Warned => d.kind.LowWarning? || d.kind.HighWarning?
  }

  predicate TooLow(rule: Rule, value: real) { rule.valid && value <= rule.value }

  predicate TooHigh(rule: Rule, value: real) { rule.valid && value >= rule.value }

  /** The warning threshold that wins: the low one if it is passed. */
  function Winner(p: Presentation, value: real): Option<Kind> {
    if TooLow(p.lowWarning, value) then Some(LowWarning)
    else if TooHigh(p.highWarning, value) then Some(HighWarning)
    else None
  }

  /** The value is not beyond the hysteresis of the threshold an active state is for. */
  predicate Kept(p: Presentation, kind: Kind, value: real) {
    match kind
    case LowWarning => p.lowWarning.valid && value <= p.lowWarning.value + p.lowWarning.hysteresis
    case LowCaution => p.lowCaution.valid && value <= p.lowCaution.value + p.lowCaution.hysteresis
    case HighCaution => p.highCaution.valid && value >= p.highCaution.value - p.highCaution.hysteresis
    case HighWarning => p.highWarning.valid && value >= p.highWarning.value - p.highWarning.hysteresis
  }

  predicate NonNegativeHysteresis(p: Presentation) {
    && p.lowWarning.hysteresis >= 0.0 && p.lowCaution.hysteresis >= 0.0
    && p.highCaution.hysteresis >= 0.0 && p.highWarning.hysteresis >= 0.0
  }

  /** The value keeps an active state: it is within the hysteresis band of its
      threshold, and no other warning threshold takes precedence. */
  predicate Holds(p: Presentation, d: Desired, value: real) {
    Kept(p, d.kind, value) && (Winner(p, value).Some? ==> Winner(p, value).value == d.kind)
  }

  lemma HoldsIff(p: Presentation, d: Desired, value: real)
    requires Fits(d) && d.level != Normal && NonNegativeHysteresis(p)
    ensures DesiredState(p, d, value) == d <==> Holds(p, d, value)
  {
  }

  /** From normal, in numbers: a warning when a valid warning threshold is reached on its
      own side, otherwise a caution likewise; of two the low one. */
  lemma FromNormal(p: Presentation, value: real)
    ensures var d := DesiredState(p, NORMAL, value);
      var low := p.lowWarning.valid && value <= p.lowWarning.value;
      var high := p.highWarning.valid && value >= p.highWarning.value;
      var lowish := p.lowCaution.valid && value <= p.lowCaution.value;
      var highish := p.highCaution.valid && value >= p.highCaution.value;
      && (d.level == Warned <==> low || high)
      && (d.level == Cautious <==> !low && !high && (lowish || highish))
      && (d.level == Warned ==> d.kind == if low then LowWarning else HighWarning)
      && (d.level == Cautious ==> d.kind == if lowish then LowCaution else HighCaution)
  {
  }

  /** What an active state turns into, whatever it is: the winning warning threshold,
      otherwise itself within its band, otherwise what the value calls for from normal. */
  lemma FromActive(p: Presentation, d: Desired, value: real)
    requires Fits(d) && d.level != Normal
    ensures DesiredState(p, d, value)
      == if Winner(p, value).Some? then Desired(Warned, Winner(p, value).value)
         else if Kept(p, d.kind, value) then d
         else DesiredState(p, NORMAL, value)
  {
  }

  predicate NoLower(a: Level, b: Level) { (b == Warned ==> a == Warned) && (b != Normal ==> a != Normal) }

  /** With only low thresholds a higher value never calls for more, and with only high
      ones a lower value never does. */
  lemma LevelFollowsValue(p: Presentation, low: real, high: real)
    requires low <= high
    ensures !p.highWarning.valid && !p.highCaution.valid ==>
      NoLower(DesiredState(p, NORMAL, low).level, DesiredState(p, NORMAL, high).level)
    ensures !p.lowWarning.valid && !p.lowCaution.valid ==>
      NoLower(DesiredState(p, NORMAL, high).level, DesiredState(p, NORMAL, low).level)
  {
  }

  function ActivationMs(p: Presentation, kind: Kind): nat {
    match kind
    case LowWarning => p.lowWarning.activationDelayMs
    case LowCaution => p.lowCaution.activationDelayMs
    case HighCaution => p.highCaution.activationDelayMs
    case HighWarning => p.highWarning.activationDelayMs
  }

  function ClearMs(p: Presentation, kind: Kind): nat {
    match kind
    case LowWarning => p.lowWarning.clearDelayMs
    case LowCaution => p.lowCaution.clearDelayMs
    case HighCaution => p.highCaution.clearDelayMs
    case HighWarning => p.highWarning.clearDelayMs
  }

  /** A rise waits for the activation delay of the threshold reached, any other change of
      an active state for the clear delay of the threshold it leaves. */
  lemma DelayIs(p: Presentation, before: Desired, after: Desired)
    ensures before.level == Normal && after.level != Normal ==>
      Delay(p, before, after) == ActivationMs(p, after.kind) * 1_000_000
    ensures before.level == Cautious && after.level == Warned ==>
      Delay(p, before, after) == ActivationMs(p, after.kind) * 1_000_000
    ensures before.level != Normal && !(before.level == Cautious && after.level == Warned) ==>
      Delay(p, before, after) == ClearMs(p, before.kind) * 1_000_000
  {
  }

  /** A signal is stale when neither a sample nor the enabling of its warnings lies
      within the limit, and the limit has passed if there has been neither. */
  lemma StaleIff(rule: FreshnessRule, receiptNs: int, enabledSinceNs: int, now: int)
    requires now >= 0
    ensures var limit := rule.staleAfterMs * NS_PER_MS;
      Stale(rule, receiptNs, enabledSinceNs, now) <==>
        && (receiptNs >= 0 ==> now - receiptNs > limit)
        && (enabledSinceNs >= 0 ==> now - enabledSinceNs > limit)
        && (receiptNs < 0 && enabledSinceNs < 0 ==> now >= limit)
  {
  }

  lemma HoldingIsWanted(p: Presentation, d: Desired, value: real)
    requires Fits(d) && d.level != Normal && Holds(p, d, value)
    ensures DesiredState(p, d, value) == d
  {
  }
}
