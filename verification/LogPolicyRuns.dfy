/** Whole runs of the rate policy: spacing, bounded rate and independence of the
    signals. */
module LogPolicyRuns {
  import opened Options
  import opened LogPolicy
  import opened Selections

  /** The samples a run logs. */
  function Logged(config: Config, last: Times, samples: seq<Sample>): seq<Sample>
    decreases |samples|
  {
    if samples == [] then []
    else
      var rest := Logged(config, Remember(config, last, samples[0]), samples[1..]);
      if Logs(config, last, samples[0]) then [samples[0]] + rest else rest
  }

  function Of(signal: string, samples: seq<Sample>): seq<Sample> {
    if samples == [] then []
    else if samples[0].name == signal then [samples[0]] + Of(signal, samples[1..])
    else Of(signal, samples[1..])
  }

  function Stamps(samples: seq<Sample>): (r: seq<int>)
    ensures |r| == |samples|
  {
    if samples == [] then [] else [samples[0].timestampNs] + Stamps(samples[1..])
  }

  /** One periodic signal on its own: take every timestamp that is not too soon. */
  function Greedy(previous: Option<int>, d: int, times: seq<int>): seq<int>
    decreases |times|
  {
    if times == [] then []
    else if TooSoon(previous, d, times[0]) then Greedy(previous, d, times[1..])
    else [times[0]] + Greedy(Some(times[0]), d, times[1..])
  }

  lemma OfHead(signal: string, s: Sample, rest: seq<Sample>)
    ensures Of(signal, [s] + rest) == if s.name == signal then [s] + Of(signal, rest) else Of(signal, rest)
  {
    assert ([s] + rest)[1..] == rest;
  }

  lemma OfStep(config: Config, last: Times, samples: seq<Sample>, signal: string)
    requires samples != []
    ensures var rest := Of(signal, Logged(config, Remember(config, last, samples[0]), samples[1..]));
      Of(signal, Logged(config, last, samples))
      == if Logs(config, last, samples[0]) && samples[0].name == signal then [samples[0]] + rest else rest
  {
    OfHead(signal, samples[0], Logged(config, Remember(config, last, samples[0]), samples[1..]));
  }

  lemma RememberOne(config: Config, last: Times, s: Sample, signal: string, d: int)
    requires config.GroupOf(signal) == Some(Periodic(d))
    ensures Previous(Remember(config, last, s), signal)
      == if s.name == signal && !TooSoon(Previous(last, signal), d, s.timestampNs) then Some(s.timestampNs)
        else Previous(last, signal)
    ensures s.name == signal ==> (Logs(config, last, s) <==> !TooSoon(Previous(last, signal), d, s.timestampNs))
  {
  }

  /** In any interleaving of signals, what is logged of a periodic signal depends on
      its own samples only: it is the greedy selection among their timestamps. */
  lemma {:induction false} PeriodicIsGreedy(config: Config, last: Times, samples: seq<Sample>, signal: string, d: int)
    requires config.GroupOf(signal) == Some(Periodic(d))
    ensures Stamps(Of(signal, Logged(config, last, samples)))
      == Greedy(Previous(last, signal), d, Stamps(Of(signal, samples)))
    decreases |samples|
  {
    if samples != [] {
      var s, after := samples[0], Remember(config, last, samples[0]);
      OfStep(config, last, samples, signal);
      RememberOne(config, last, s, signal, d);
      PeriodicIsGreedy(config, after, samples[1..], signal, d);
      if s.name == signal {
        GreedyStep(Previous(last, signal), d, s, Of(signal, samples[1..]));
        GreedyStep(None, d, s, Of(signal, Logged(config, after, samples[1..])));
      }
    }
  }

  lemma GreedyStep(previous: Option<int>, d: int, s: Sample, rest: seq<Sample>)
    ensures Greedy(previous, d, Stamps([s] + rest))
      == if TooSoon(previous, d, s.timestampNs) then Greedy(previous, d, Stamps(rest))
         else [s.timestampNs] + Greedy(Some(s.timestampNs), d, Stamps(rest))
    ensures Stamps([s] + rest) == [s.timestampNs] + Stamps(rest)
  {
    assert ([s] + rest)[1..] == rest;
    assert ([s.timestampNs] + Stamps(rest))[1..] == Stamps(rest);
  }

  /** The greedy selection of one more timestamp. */
  lemma {:induction false} GreedySnoc(previous: Option<int>, d: int, times: seq<int>, t: int)
    ensures var logged := Greedy(previous, d, times);
      var last := if logged == [] then previous else Some(logged[|logged| - 1]);
      Greedy(previous, d, times + [t]) == if TooSoon(last, d, t) then logged else logged + [t]
    decreases |times|
  {
    if times == [] {
      assert ([] + [t])[1..] == [];
    } else {
      assert (times + [t])[1..] == times[1..] + [t];
      GreedySnoc(if TooSoon(previous, d, times[0]) then previous else Some(times[0]), d, times[1..], t);
    }
  }

  /** A native signal is logged completely, one that is off not at all. */
  lemma {:induction false} UnlimitedIsAllOrNothing(config: Config, last: Times, samples: seq<Sample>, signal: string)
    requires config.GroupOf(signal).Some? && !config.GroupOf(signal).value.Periodic?
    ensures Of(signal, Logged(config, last, samples))
      == if config.GroupOf(signal).value.Native? then Of(signal, samples) else []
    decreases |samples|
  {
    if samples != [] {
      OfStep(config, last, samples, signal);
      UnlimitedIsAllOrNothing(config, Remember(config, last, samples[0]), samples[1..], signal);
    }
  }

  /** A file that gives a signal a native group has all of its samples logged. */
  lemma NativeInFileIsLogged(file: File, known: seq<string>, config: Config, last: Times, samples: seq<Sample>,
    signal: string)
    requires Acceptable(file, known) && Describes(file, config)
    requires var spec := LastNamed(file.groups, GroupNamed(file, signal));
      spec.Some? && spec.value.GroupSpec? && spec.value.mode.NativeMode?
    ensures Of(signal, Logged(config, last, samples)) == Of(signal, samples)
  {
    GroupOfTheFile(file, known, config, signal);
    UnlimitedIsAllOrNothing(config, last, samples, signal);
  }

  /** A file that gives a signal a group that is off has none of its samples logged. */
  lemma OffInFileIsNotLogged(file: File, known: seq<string>, config: Config, last: Times, samples: seq<Sample>,
    signal: string)
    requires Acceptable(file, known) && Describes(file, config)
    requires var spec := LastNamed(file.groups, GroupNamed(file, signal));
      spec.Some? && spec.value.GroupSpec? && spec.value.mode.OffMode?
    ensures Of(signal, Logged(config, last, samples)) == []
  {
    GroupOfTheFile(file, known, config, signal);
    UnlimitedIsAllOrNothing(config, last, samples, signal);
  }

  // ---- Spacing and rate ------------------------------------------------------

  lemma {:induction false} GreedyIsSpaced(previous: Option<int>, d: int, times: seq<int>)
    requires d >= 1
    ensures Spaced(Greedy(previous, d, times), d)
    ensures previous.Some? ==>
      forall i :: 0 <= i < |Greedy(previous, d, times)| ==> Greedy(previous, d, times)[i] - previous.value >= d
    decreases |times|
  {
    if times != [] {
      if TooSoon(previous, d, times[0]) {
        GreedyIsSpaced(previous, d, times[1..]);
      } else {
        GreedyIsSpaced(Some(times[0]), d, times[1..]);
      }
    }
  }

  function CountIn(times: seq<int>, lo: int, hi: int): nat {
    if times == [] then 0 else (if lo <= times[0] <= hi then 1 else 0) + CountIn(times[1..], lo, hi)
  }

  lemma {:induction false} NoneAbove(times: seq<int>, lo: int, hi: int)
    requires forall i :: 0 <= i < |times| ==> times[i] > hi
    ensures CountIn(times, lo, hi) == 0
  {
    if times != [] { NoneAbove(times[1..], lo, hi); }
  }

  lemma {:induction false} RaiseLowEnd(times: seq<int>, lo: int, lo2: int, hi: int)
    requires lo <= lo2 && forall i :: 0 <= i < |times| ==> times[i] >= lo2
    ensures CountIn(times, lo, hi) == CountIn(times, lo2, hi)
  {
    if times != [] { RaiseLowEnd(times[1..], lo, lo2, hi); }
  }

  lemma {:induction false} SpacedInWindow(times: seq<int>, d: int, lo: int, hi: int)
    requires d >= 1 && Spaced(times, d) && lo <= hi
    ensures CountIn(times, lo, hi) > 0 ==> (CountIn(times, lo, hi) - 1) * d <= hi - lo
    decreases |times|
  {
    if times != [] {
      var t, rest := times[0], times[1..];
      if lo <= t <= hi {
        assert forall i :: 0 <= i < |rest| ==> rest[i] >= t + d;
        if t + d <= hi {
          RaiseLowEnd(rest, lo, t + d, hi);
          SpacedInWindow(rest, d, t + d, hi);
          OneMore(CountIn(rest, lo, hi), d);
        } else {
          NoneAbove(rest, lo, hi);
        }
      } else {
        SpacedInWindow(rest, d, lo, hi);
      }
    }
  }

  lemma OneMore(n: int, d: int)
    ensures (n - 1) * d + d == n * d
  {
  }

  lemma DivideBound(n: int, d: int, w: int)
    requires d >= 1 && n * d <= w
    ensures n <= w / d
  {
    var q, r := w / d, w % d;
    assert w == q * d + r;
    if n > q { Products(q + 1, n, d); }
  }

  lemma Products(p: int, q: int, d: int)
    requires d >= 1 && p <= q
    ensures p * d <= q * d
  {
  }

  /** A window of length W holds at most W / d + 1 spaced timestamps. */
  lemma WindowIsBounded(times: seq<int>, d: int, lo: int, hi: int)
    requires d >= 1 && Spaced(times, d) && lo <= hi
    ensures CountIn(times, lo, hi) <= (hi - lo) / d + 1
  {
    SpacedInWindow(times, d, lo, hi);
    if CountIn(times, lo, hi) > 0 {
      DivideBound(CountIn(times, lo, hi) - 1, d, hi - lo);
    } else {
      DivideBound(0, d, hi - lo);
    }
  }
}
