/** When the greedy choice of the rate policy is the best one: exactly when no sample
    is so far behind what has been logged that another choice could still use it. */
module LogPolicyOptimal {
  import opened Options
  import opened LogPolicy
  import opened Selections
  import opened LogPolicyRuns

  function Chosen(d: int, times: seq<int>): seq<int> { Greedy(None, d, times) }

  /** No selection that keeps the interval is longer than what is logged. */
  ghost predicate Optimal(times: seq<int>, d: int) {
    forall kept :: Selection(kept, times) && Spaced(kept, d) ==> |kept| <= |Chosen(d, times)|
  }

  /** A sample is too late when it is older than a logged one before which there was
      time to spare: the first, or one that came more than an interval after the last. */
  ghost predicate TooLate(logged: seq<int>, d: int, t: int) {
    exists j :: 0 <= j < |logged| && t < logged[j] && (j > 0 ==> logged[j] - logged[j - 1] > d)
  }

  ghost predicate NoneTooLate(times: seq<int>, d: int) {
    forall i :: 0 <= i < |times| ==> !TooLate(Chosen(d, times[..i]), d, times[i])
  }

  lemma ChosenNext(d: int, times: seq<int>, t: int)
    ensures var logged := Chosen(d, times);
      Chosen(d, times + [t])
      == if logged != [] && TooSoon(Some(logged[|logged| - 1]), d, t) then logged else logged + [t]
  {
    GreedySnoc(None, d, times, t);
  }

  lemma FrontHasNoneTooLate(times: seq<int>, d: int)
    requires times != [] && NoneTooLate(times, d)
    ensures NoneTooLate(times[..|times| - 1], d)
    ensures !TooLate(Chosen(d, times[..|times| - 1]), d, times[|times| - 1])
  {
    var front := times[..|times| - 1];
    forall i | 0 <= i < |front| ensures !TooLate(Chosen(d, front[..i]), d, front[i]) {
      assert front[..i] == times[..i];
    }
  }

  /** Whatever another selection has taken, the policy has taken as many, and each of
      them no later. */
  ghost predicate Ahead(logged: seq<int>, kept: seq<int>) {
    |kept| <= |logged| && forall c :: 0 <= c < |kept| ==> logged[c] <= kept[c]
  }

  lemma InTimeForIt(logged: seq<int>, d: int, t: int, c: nat)
    requires !TooLate(logged, d, t) && c < |logged| && (c > 0 ==> t >= logged[c - 1] + d)
    ensures t >= logged[c]
  {
  }

  lemma AheadStep(logged: seq<int>, before: seq<int>, t: int, d: int)
    requires d >= 1 && Spaced(logged, d) && Spaced(before + [t], d)
    requires Ahead(logged, before) && !TooLate(logged, d, t)
    ensures var next :=
        if logged != [] && TooSoon(Some(logged[|logged| - 1]), d, t) then logged else logged + [t];
      Ahead(next, before + [t])
  {
    var c := |before|;
    if c > 0 {
      assert (before + [t])[c] - (before + [t])[c - 1] >= d;
      assert t >= logged[c - 1] + d;
    }
    if c < |logged| { InTimeForIt(logged, d, t, c); }
  }

  lemma AheadOfTaken(logged: seq<int>, next: seq<int>, kept: seq<int>, t: int, d: int)
    requires d >= 1 && Spaced(logged, d) && Spaced(kept, d) && !TooLate(logged, d, t)
    requires kept != [] && kept[|kept| - 1] == t && Ahead(logged, kept[..|kept| - 1])
    requires next == if logged != [] && TooSoon(Some(logged[|logged| - 1]), d, t) then logged else logged + [t]
    ensures Ahead(next, kept)
  {
    var before := kept[..|kept| - 1];
    assert kept == before + [t];
    AheadStep(logged, before, t, d);
  }

  lemma TakenIsAhead(front: seq<int>, t: int, kept: seq<int>, d: int)
    requires d >= 1 && !TooLate(Chosen(d, front), d, t) && kept != [] && kept[|kept| - 1] == t && Spaced(kept, d)
    requires Ahead(Chosen(d, front), kept[..|kept| - 1])
    ensures Ahead(Chosen(d, front + [t]), kept)
  {
    ChosenNext(d, front, t);
    GreedyIsSpaced(None, d, front);
    AheadOfTaken(Chosen(d, front), Chosen(d, front + [t]), kept, t, d);
  }

  lemma {:induction false} NoChoiceIsAhead(times: seq<int>, kept: seq<int>, d: int)
    requires d >= 1 && NoneTooLate(times, d) && Selection(kept, times) && Spaced(kept, d)
    ensures Ahead(Chosen(d, times), kept)
    decreases |times|
  {
    if times != [] {
      var front, t := times[..|times| - 1], times[|times| - 1];
      assert times == front + [t];
      FrontHasNoneTooLate(times, d);
      if Selection(kept, front) {
        NoChoiceIsAhead(front, kept, d);
        ChosenNext(d, front, t);
      } else {
        NoChoiceIsAhead(front, kept[..|kept| - 1], d);
        TakenIsAhead(front, t, kept, d);
      }
    }
  }

  // ---- Going on in time order ------------------------------------------------

  /** `rest` continues `times` in time order. */
  ghost predicate GoesOn(times: seq<int>, rest: seq<int>) {
    && (forall i, j :: 0 <= i < j < |rest| ==> rest[i] <= rest[j])
    && (times != [] && rest != [] ==> times[|times| - 1] <= rest[0])
  }

  lemma NextIsNotTooLate(times: seq<int>, d: int, t: int)
    requires d >= 1 && NoneTooLate(times, d) && (times != [] ==> times[|times| - 1] <= t)
    ensures NoneTooLate(times + [t], d)
  {
    var all := times + [t];
    forall i | 0 <= i < |all| ensures !TooLate(Chosen(d, all[..i]), d, all[i]) {
      if i < |times| {
        assert all[..i] == times[..i];
      } else {
        assert all[..i] == times;
        if times != [] {
          var front, y := times[..|times| - 1], times[|times| - 1];
          assert times == front + [y];
          ChosenNext(d, front, y);
          FrontHasNoneTooLate(times, d);
          LaterIsNotTooLate(Chosen(d, front), Chosen(d, times), d, y, t);
        }
      }
    }
  }

  lemma LaterIsNotTooLate(before: seq<int>, logged: seq<int>, d: int, y: int, t: int)
    requires logged == before || logged == before + [y]
    requires !TooLate(before, d, y) && y <= t
    ensures !TooLate(logged, d, t)
  {
    forall j | 0 <= j < |logged| && t < logged[j] ensures j > 0 && logged[j] - logged[j - 1] <= d {
      assert logged[j] == before[j];
      assert y < before[j];
    }
  }

  lemma {:induction false} GoingOnIsNotTooLate(times: seq<int>, rest: seq<int>, d: int)
    requires d >= 1 && NoneTooLate(times, d) && GoesOn(times, rest)
    ensures NoneTooLate(times + rest, d)
    decreases |rest|
  {
    if rest == [] {
      assert times + rest == times;
    } else {
      var front, t := rest[..|rest| - 1], rest[|rest| - 1];
      LastGoesOn(times, rest);
      GoingOnIsNotTooLate(times, front, d);
      NextIsNotTooLate(times + front, d, t);
    }
  }

  lemma LastGoesOn(times: seq<int>, rest: seq<int>)
    requires GoesOn(times, rest) && rest != []
    ensures var front, t := rest[..|rest| - 1], rest[|rest| - 1];
      && GoesOn(times, front) && times + rest == (times + front) + [t]
      && (times + front != [] ==> (times + front)[|times + front| - 1] <= t)
  {
  }

  // ---- A sample that is too late ---------------------------------------------

  /** `n` timestamps an interval apart, from `x` on. */
  function Every(x: int, d: int, n: nat): (r: seq<int>)
    ensures |r| == n
    decreases n
  {
    if n == 0 then [] else [x] + Every(x + d, d, n - 1)
  }

  lemma {:induction false} EveryIsSpaced(x: int, d: int, n: nat)
    requires d >= 1
    ensures Spaced(Every(x, d, n), d) && forall i :: 0 <= i < n ==> Every(x, d, n)[i] >= x
    ensures n > 0 ==> Every(x, d, n)[0] == x
    decreases n
  {
    if n > 0 { EveryIsSpaced(x + d, d, n - 1); }
  }

  ghost predicate AllBelow(times: seq<int>, bound: int) {
    forall i :: 0 <= i < |times| ==> times[i] < bound
  }

  /** They stay below the logged ones, which are at least as far apart. */
  lemma {:induction false} EveryIsTooSoon(logged: seq<int>, j: nat, x: int, d: int)
    requires d >= 1 && Spaced(logged, d) && j < |logged| && x < logged[j]
    ensures AllBelow(Every(x, d, |logged| - j + 1), logged[|logged| - 1] + d)
    decreases |logged| - j
  {
    if j + 1 < |logged| {
      assert x + d < logged[j + 1];
      EveryIsTooSoon(logged, j + 1, x + d, d);
    } else {
      assert Every(x, d, 2) == [x] + Every(x + d, d, 1);
      assert Every(x + d, d, 1) == [x + d] + Every(x + d + d, d, 0);
    }
  }

  lemma {:induction false} NothingIsChosen(times: seq<int>, rest: seq<int>, d: int)
    requires Chosen(d, times) != []
    requires AllBelow(rest, Chosen(d, times)[|Chosen(d, times)| - 1] + d)
    ensures Chosen(d, times + rest) == Chosen(d, times)
    decreases |rest|
  {
    if rest == [] {
      assert times + rest == times;
    } else {
      var front, t := rest[..|rest| - 1], rest[|rest| - 1];
      NothingIsChosen(times, front, d);
      ChosenNext(d, times + front, t);
      assert (times + front) + [t] == times + rest;
    }
  }

  /** Where a selection that uses the time to spare can begin. */
  function Restart(logged: seq<int>, j: nat, d: int, t: int): int
    requires j < |logged|
  {
    if j > 0 && t < logged[j - 1] + d then logged[j - 1] + d else t
  }

  lemma RestartIsSpaced(logged: seq<int>, j: nat, d: int, t: int, n: nat)
    requires d >= 1 && j < |logged| && Spaced(logged, d)
    ensures Spaced(logged[..j] + Every(Restart(logged, j, d, t), d, n), d)
  {
    var rest := Every(Restart(logged, j, d, t), d, n);
    EveryIsSpaced(Restart(logged, j, d, t), d, n);
    var kept := logged[..j] + rest;
    forall a, b | 0 <= a < b < |kept| ensures kept[b] - kept[a] >= d {
      if a < j <= b {
        assert a == j - 1 || logged[j - 1] - logged[a] >= d;
        assert kept[b] == rest[b - j];
      }
    }
  }

  lemma RestartIsMissed(times: seq<int>, t: int, j: nat, d: int, n: nat)
    requires d >= 1 && j < |Chosen(d, times)| && n == |Chosen(d, times)| - j + 1
    requires var logged := Chosen(d, times);
      t < logged[j] && Restart(logged, j, d, t) < logged[j]
    ensures Chosen(d, times + [t] + Every(Restart(Chosen(d, times), j, d, t), d, n)) == Chosen(d, times)
  {
    var logged := Chosen(d, times);
    GreedyIsSpaced(None, d, times);
    assert logged[j] <= logged[|logged| - 1];
    EveryIsTooSoon(logged, j, Restart(logged, j, d, t), d);
    NothingIsChosen(times, [t], d);
    NothingIsChosen(times + [t], Every(Restart(logged, j, d, t), d, n), d);
  }

  lemma RestartGoesOn(times: seq<int>, t: int, logged: seq<int>, j: nat, d: int, n: nat)
    requires d >= 1 && j < |logged|
    ensures GoesOn(times + [t], Every(Restart(logged, j, d, t), d, n))
  {
    EveryIsSpaced(Restart(logged, j, d, t), d, n);
  }

  /** After a sample that is too late the signal can go on in time order so that
      another selection is longer. */
  lemma TooLateIsBeaten(times: seq<int>, t: int, d: int) returns (rest: seq<int>, kept: seq<int>)
    requires d >= 1 && TooLate(Chosen(d, times), d, t)
    ensures GoesOn(times + [t], rest) && Selection(kept, times + [t] + rest) && Spaced(kept, d)
    ensures |kept| > |Chosen(d, times + [t] + rest)|
  {
    var logged := Chosen(d, times);
    var j :| 0 <= j < |logged| && t < logged[j] && (j > 0 ==> logged[j] - logged[j - 1] > d);
    var n := |logged| - j + 1;
    rest := Every(Restart(logged, j, d, t), d, n);
    kept := logged[..j] + rest;
    GreedyIsSpaced(None, d, times);
    RestartGoesOn(times, t, logged, j, d, n);
    RestartIsMissed(times, t, j, d, n);
    RestartIsSpaced(logged, j, d, t, n);
    KeptIsSelection(times, t, logged, j, rest, d);
  }

  lemma KeptIsSelection(times: seq<int>, t: int, logged: seq<int>, j: nat, rest: seq<int>, d: int)
    requires logged == Chosen(d, times) && j <= |logged|
    ensures Selection(logged[..j] + rest, times + [t] + rest)
  {
    ChosenIsSelection(d, times);
    PrefixIsSelection(logged[..j], logged);
    SelectionOfSelection(logged[..j], logged, times);
    PassOver(logged[..j], times, t);
    TakeAll(logged[..j], times + [t], rest);
  }

  lemma {:induction false} ChosenIsSelection(d: int, times: seq<int>)
    ensures Selection(Chosen(d, times), times)
    decreases |times|
  {
    if times != [] {
      var front, t := times[..|times| - 1], times[|times| - 1];
      assert times == front + [t];
      ChosenIsSelection(d, front);
      ChosenNext(d, front, t);
      PassOver(Chosen(d, front), front, t);
      TakeOne(Chosen(d, front), front, t);
    }
  }

  // ---- The theorems ----------------------------------------------------------

  /** At every moment of `times`, what is logged is the best choice, and it stays the
      best however the signal goes on in time order. */
  ghost predicate StaysOptimal(times: seq<int>, d: int) {
    forall n, rest :: 0 <= n <= |times| && GoesOn(times[..n], rest) ==> Optimal(times[..n] + rest, d)
  }

  lemma PrefixHasNoneTooLate(times: seq<int>, n: nat, d: int)
    requires n <= |times| && NoneTooLate(times, d)
    ensures NoneTooLate(times[..n], d)
  {
    forall i | 0 <= i < n ensures !TooLate(Chosen(d, times[..n][..i]), d, times[..n][i]) {
      assert times[..n][..i] == times[..i];
    }
  }

  /** The greedy choice is and stays the best exactly when no sample is too late. */
  lemma StaysOptimalIff(times: seq<int>, d: int)
    requires d >= 1
    ensures StaysOptimal(times, d) <==> NoneTooLate(times, d)
  {
    if NoneTooLate(times, d) {
      forall n, rest | 0 <= n <= |times| && GoesOn(times[..n], rest) ensures Optimal(times[..n] + rest, d) {
        PrefixHasNoneTooLate(times, n, d);
        GoingOnIsNotTooLate(times[..n], rest, d);
        forall kept | Selection(kept, times[..n] + rest) && Spaced(kept, d)
          ensures |kept| <= |Chosen(d, times[..n] + rest)|
        {
          NoChoiceIsAhead(times[..n] + rest, kept, d);
        }
      }
    } else {
      var i :| 0 <= i < |times| && TooLate(Chosen(d, times[..i]), d, times[i]);
      var rest, kept := TooLateIsBeaten(times[..i], times[i], d);
      assert times[..i] + [times[i]] == times[..i + 1];
      assert !Optimal(times[..i + 1] + rest, d);
    }
  }

  /** No sample is older than the last one logged: the guard of the branch that passes
      such a sample over is never met. */
  ghost predicate NeverBehind(times: seq<int>, d: int) {
    forall i :: 0 <= i < |times| && Chosen(d, times[..i]) != [] ==>
      times[i] >= Chosen(d, times[..i])[|Chosen(d, times[..i])| - 1]
  }

  lemma NeverBehindIsEnough(times: seq<int>, d: int)
    requires d >= 1 && NeverBehind(times, d)
    ensures NoneTooLate(times, d)
  {
    forall i | 0 <= i < |times| ensures !TooLate(Chosen(d, times[..i]), d, times[i]) {
      GreedyIsSpaced(None, d, times[..i]);
    }
  }

  /** Whatever selection of a periodic signal keeps the interval, it is no longer than
      what the policy logs of it, unless a sample comes too late; samples that are
      never older than the last one logged do not, and so those in time order. */
  lemma GreedyIsOptimal(config: Config, samples: seq<Sample>, signal: string, d: int, kept: seq<int>)
    requires config.GroupOf(signal) == Some(Periodic(d)) && d >= 1
    requires Selection(kept, Stamps(Of(signal, samples))) && Spaced(kept, d)
    requires NoneTooLate(Stamps(Of(signal, samples)), d) || NeverBehind(Stamps(Of(signal, samples)), d)
    ensures |kept| <= |Of(signal, Logged(config, map[], samples))|
  {
    var times := Stamps(Of(signal, samples));
    PeriodicIsGreedy(config, map[], samples, signal, d);
    if NeverBehind(times, d) { NeverBehindIsEnough(times, d); }
    NoChoiceIsAhead(times, kept, d);
  }

  lemma TimeOrderIsEnough(times: seq<int>, d: int)
    requires d >= 1 && GoesOn([], times)
    ensures NoneTooLate(times, d)
  {
    GoingOnIsNotTooLate([], times, d);
    assert [] + times == times;
  }

  lemma PresentIsSelection(future: int, a: int, b: int)
    ensures Selection([a, b], [future] + [a, b])
  {
    NothingIsSelection([future]);
    TakeAll([], [future], [a, b]);
    assert [] + [a, b] == [a, b];
  }

  /** One timestamp from the future, and the policy logs nothing until real time has
      caught up. */
  lemma FutureTimestampIsBeaten()
    ensures !Optimal([100] + [0, 10], 10) && !NoneTooLate([100] + [0, 10], 10)
  {
    ChosenNext(10, [], 100);
    assert [] + [100] == [100] && Chosen(10, [100]) == [100];
    NothingIsChosen([100], [0, 10], 10);
    PresentIsSelection(100, 0, 10);
    assert Spaced([0, 10], 10) && |[0, 10]| > |Chosen(10, [100] + [0, 10])|;
    var times := [100] + [0, 10];
    assert times[..1] == [100] && times[1] == 0;
    assert TooLate(Chosen(10, times[..1]), 10, times[1]);
  }
}
