/** The rate policy in front of the logger: what reaches the measurement file of a
    periodic signal, over every interleaving of the logger's threads. */
module LoggedSessions {
  import opened Options
  import opened LogPolicy
  import opened LogPolicyRuns
  import opened Selections
  import AsyncLoggerRuns

  /** What is queued: raw frames, whose content does not matter here, and samples. */
  datatype Record = RawFrame(id: int) | Decoded(sample: Sample)

  function SampleIn(r: Record): seq<Sample> { if r.Decoded? then [r.sample] else [] }

  function Samples(records: seq<Record>): seq<Sample> {
    if records == [] then []
    else SampleIn(records[0]) + Samples(records[1..])
  }

  /** The timestamps of a signal among the records. */
  function Times(signal: string, records: seq<Record>): seq<int> { Stamps(Of(signal, Samples(records))) }

  lemma TailOfConcat<T>(a: seq<T>, b: seq<T>)
    requires a != []
    ensures (a + b)[1..] == a[1..] + b
  {
  }

  lemma Regroup<T>(a: seq<T>, b: seq<T>, c: seq<T>)
    ensures a + (b + c) == (a + b) + c
  {
  }

  lemma {:induction false} StampsConcat(a: seq<Sample>, b: seq<Sample>)
    ensures Stamps(a + b) == Stamps(a) + Stamps(b)
  {
    if a == [] {
      assert a + b == b;
    } else {
      TailOfConcat(a, b);
      StampsConcat(a[1..], b);
      Regroup([a[0].timestampNs], Stamps(a[1..]), Stamps(b));
    }
  }

  lemma {:induction false} OfConcat(signal: string, a: seq<Sample>, b: seq<Sample>)
    ensures Of(signal, a + b) == Of(signal, a) + Of(signal, b)
  {
    if a == [] {
      assert a + b == b;
    } else {
      TailOfConcat(a, b);
      OfConcat(signal, a[1..], b);
      Regroup([a[0]], Of(signal, a[1..]), Of(signal, b));
    }
  }

  lemma {:induction false} SamplesConcat(a: seq<Record>, b: seq<Record>)
    ensures Samples(a + b) == Samples(a) + Samples(b)
  {
    if a == [] {
      assert a + b == b;
    } else {
      TailOfConcat(a, b);
      SamplesConcat(a[1..], b);
      Regroup(SampleIn(a[0]), Samples(a[1..]), Samples(b));
    }
  }

  lemma TimesNext(signal: string, records: seq<Record>, r: Record)
    ensures Times(signal, records + [r])
      == Times(signal, records) + if r.Decoded? && r.sample.name == signal then [r.sample.timestampNs] else []
  {
    SamplesConcat(records, [r]);
    assert Samples([r]) == if r.Decoded? then [r.sample] else [];
    OfConcat(signal, Samples(records), Samples([r]));
    StampsConcat(Of(signal, Samples(records)), Of(signal, Samples([r])));
    if r.Decoded? {
      assert Of(signal, [r.sample]) == if r.sample.name == signal then [r.sample] else [];
      assert Stamps([r.sample]) == [r.sample.timestampNs];
    }
  }

  lemma {:induction false} SelectionOfTimes(signal: string, kept: seq<Record>, all: seq<Record>)
    requires Selection(kept, all)
    ensures Selection(Times(signal, kept), Times(signal, all))
    decreases |all|
  {
    if all != [] {
      var front, last := all[..|all| - 1], all[|all| - 1];
      assert all == front + [last];
      TimesNext(signal, front, last);
      if Selection(kept, front) {
        SelectionOfTimes(signal, kept, front);
        SkipOrNot(Times(signal, kept), Times(signal, front), last, signal);
      } else {
        var before := kept[..|kept| - 1];
        assert kept == before + [last];
        TimesNext(signal, before, last);
        SelectionOfTimes(signal, before, front);
        SkipOrNot(Times(signal, before), Times(signal, front), last, signal);
      }
    }
  }

  lemma SkipOrNot(kept: seq<int>, all: seq<int>, r: Record, signal: string)
    requires Selection(kept, all)
    ensures var more := if r.Decoded? && r.sample.name == signal then [r.sample.timestampNs] else [];
      Selection(kept, all + more) && Selection(kept + more, all + more)
  {
    assert kept + [] == kept && all + [] == all;
    if r.Decoded? {
      PassOver(kept, all, r.sample.timestampNs);
      TakeOne(kept, all, r.sample.timestampNs);
    }
  }

  /** When samples are offered as the policy decides, and whatever the full queue drops
      and however the threads interleave, the timestamps of a periodic signal that the
      sinks of the session have got are an interval apart, and a window of length W
      holds at most W / d + 1 of them. */
  lemma SpacingSurvivesDrops(config: Config, samples: seq<Sample>, steps: seq<AsyncLoggerRuns.Step<Record>>,
    signal: string, d: int, lo: int, hi: int)
    requires config.GroupOf(signal) == Some(Periodic(d)) && d >= 1 && lo <= hi
    requires AsyncLoggerRuns.Runs(AsyncLoggerRuns.Fresh<Record>(), steps)
    requires Samples(AsyncLoggerRuns.Produced(steps)) == Logged(config, map[], samples)
    ensures var written := Times(signal, AsyncLoggerRuns.After(AsyncLoggerRuns.Fresh<Record>(), steps).handled);
      Spaced(written, d) && CountIn(written, lo, hi) <= (hi - lo) / d + 1
  {
    var all := AsyncLoggerRuns.Produced(steps);
    var handled := AsyncLoggerRuns.After(AsyncLoggerRuns.Fresh<Record>(), steps).handled;
    AsyncLoggerRuns.HandledAreProduced(steps);
    SelectionOfTimes(signal, handled, all);
    PeriodicIsGreedy(config, map[], samples, signal, d);
    GreedyIsSpaced(None, d, Stamps(Of(signal, samples)));
    SelectionIsSpaced(Times(signal, handled), Times(signal, all), d);
    WindowIsBounded(Times(signal, handled), d, lo, hi);
  }
}
