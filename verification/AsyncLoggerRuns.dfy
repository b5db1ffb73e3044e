/** Every interleaving of the logger's threads keeps the records: nothing accepted is
    lost, repeated or reordered, and closing waits for all of it. */
module AsyncLoggerRuns {
  import opened Options
  import opened AsyncLogger
  import opened Selections

  datatype Step<R> =
    | Produce(record: R)        // enqueue, from any producer thread, raw frames of an earlier session included
    | TakeDropped
    | CloseRequests             // the critical section of close()
    | CloseJoins                // join() returns, and close() with it
    | StartBegins(capacity: nat, raw: bool)
    | StartReturns
    | WorkerOpens(ready: bool)
    | WorkerTakes               // one iteration of the loop
    | WorkerWrites              // the record reaches its sink
    | WorkerExits               // the files are finalized

  /** The logger with the books of the current session. */
  datatype World<R> = World(
    shared: Shared<R>, worker: Worker<R>, control: Control,
    offered: seq<R>, accepted: seq<R>, lost: nat, reported: nat, handled: seq<R>)

  function Fresh<R>(): World<R> {
    World(Shared([], 0, 0, 0, false, false, false, false, false), NoThread, Idle, [], [], 0, 0, [])
  }

  predicate Enabled<R>(w: World<R>, step: Step<R>) {
    match step
    case Produce(_) => true
    case TakeDropped => true
    case CloseRequests => w.control.Idle?
    case CloseJoins => w.control.Joining? && (w.worker.NoThread? || w.worker.Exited?)
    case StartBegins(capacity, _) => w.control.Idle? && w.worker.NoThread? && capacity > 0
    case StartReturns => w.control.AwaitingStartup? && w.shared.startupComplete
    case WorkerOpens(_) => w.worker.Opening?
    case WorkerTakes => w.worker.AtLoop?
    case WorkerWrites => w.worker.Writing?
    case WorkerExits => w.worker.Finalizing?
  }

  function AfterProduce<R>(w: World<R>, record: R): World<R> {
    var offer := Enqueue(w.shared, record);
    if !w.shared.accepting then w.(shared := offer.shared)
    else if offer.ok then w.(shared := offer.shared, offered := w.offered + [record], accepted := w.accepted + [record])
    else w.(shared := offer.shared, offered := w.offered + [record], lost := w.lost + 1)
  }

  function AfterTake<R>(w: World<R>): World<R> {
    var taken := Take(w.shared);
    var next := if taken.record.Some? then Writing(taken.record.value) else if taken.stop then Finalizing else AtLoop;
    w.(shared := taken.shared, worker := next)
  }

  /** A failed start joins its worker before it returns. */
  function AfterStartReturns<R>(w: World<R>): World<R> {
    w.(control := Idle, worker := if w.shared.workerStarted then w.worker else NoThread)
  }

  function Next<R>(w: World<R>, step: Step<R>): World<R>
    requires Enabled(w, step)
  {
    var s := w.shared;
    match step
    case Produce(record) => AfterProduce(w, record)
    case TakeDropped => w.(shared := s.(droppedCount := 0), reported := w.reported + s.droppedCount)
    case CloseRequests => w.(shared := RequestStop(s), control := Joining)
    case CloseJoins => w.(control := Idle, worker := NoThread)
    case StartBegins(capacity, raw) => World(Begin(s, capacity, raw), Opening, AwaitingStartup, [], [], 0, 0, [])
    case StartReturns => AfterStartReturns(w)
    case WorkerOpens(ready) => w.(shared := Opened(s, ready), worker := if ready then AtLoop else Exited)
    case WorkerTakes => AfterTake(w)
    case WorkerWrites => w.(worker := AtLoop, handled := w.handled + [w.worker.record])
    case WorkerExits => w.(shared := s.(workerStarted := false), worker := Exited)
  }

  predicate Runs<R>(w: World<R>, steps: seq<Step<R>>)
    decreases |steps|
  {
    steps == [] || (Enabled(w, steps[0]) && Runs(Next(w, steps[0]), steps[1..]))
  }

  function After<R>(w: World<R>, steps: seq<Step<R>>): World<R>
    requires Runs(w, steps)
    decreases |steps|
  {
    if steps == [] then w else After(Next(w, steps[0]), steps[1..])
  }

  // ---- The invariant ---------------------------------------------------------

  /** The record the worker has taken but not yet written. */
  function InFlight<R>(worker: Worker<R>): seq<R> {
    if worker.Writing? then [worker.record] else []
  }

  /** Every accepted record is written, in the worker's hands, or queued, in the order
      of acceptance; what was accepted is what was offered in its order, without the
      records counted as dropped. */
  ghost predicate Conserved<R>(w: World<R>) {
    && w.accepted == w.handled + (InFlight(w.worker) + w.shared.queue)
    && Selection(w.accepted, w.offered)
    && |w.offered| == |w.accepted| + w.lost
    && w.lost == w.reported + w.shared.droppedCount
  }

  ghost predicate Bounded<R>(s: Shared<R>) {
    |s.queue| <= s.maximumDepth <= s.capacity
  }

  /** Which states of the two threads and the flags go together. */
  ghost predicate InStep<R>(s: Shared<R>, worker: Worker<R>, control: Control) {
    && (s.accepting <==> (worker.AtLoop? || worker.Writing?) && !s.stopRequested)
    && (s.workerStarted <==> worker.AtLoop? || worker.Writing? || worker.Finalizing?)
    && (worker.Opening? ==> control.AwaitingStartup?)
    && (worker.Finalizing? ==> s.stopRequested)
    && (!worker.AtLoop? && !worker.Writing? ==> s.queue == [])
    && (control.Joining? ==> s.stopRequested)
    && (control.AwaitingStartup? ==> !s.stopRequested && (worker.Opening? <==> !s.startupComplete))
    && (control.AwaitingStartup? && s.startupComplete ==>
          if s.workerStarted then worker.AtLoop? || worker.Writing? else worker.Exited?)
  }

  ghost predicate Ok<R>(w: World<R>) {
    Conserved(w) && Bounded(w.shared) && InStep(w.shared, w.worker, w.control)
  }

  lemma AtTheEnd<R>(a: seq<R>, b: seq<R>, c: seq<R>, record: R)
    ensures (a + (b + c)) + [record] == a + (b + (c + [record]))
  {
  }

  lemma OfferIsBooked<R>(accepted: seq<R>, offered: seq<R>, record: R)
    requires Selection(accepted, offered)
    ensures Selection(accepted, offered + [record]) && Selection(accepted + [record], offered + [record])
  {
    PassOver(accepted, offered, record);
    TakeOne(accepted, offered, record);
  }

  lemma ProduceIsBooked<R>(w: World<R>, record: R)
    requires Conserved(w)
    ensures Conserved(AfterProduce(w, record))
  {
    var offer := Enqueue(w.shared, record);
    if w.shared.accepting {
      OfferIsBooked(w.accepted, w.offered, record);
      if offer.ok { AtTheEnd(w.handled, InFlight(w.worker), w.shared.queue, record); }
    }
  }

  lemma ProduceKeepsFlags<R>(w: World<R>, record: R)
    requires Bounded(w.shared) && InStep(w.shared, w.worker, w.control)
    ensures var n := AfterProduce(w, record); Bounded(n.shared) && InStep(n.shared, n.worker, n.control)
  {
  }

  lemma ProduceKeepsOk<R>(w: World<R>, record: R)
    requires Ok(w)
    ensures Ok(AfterProduce(w, record))
  {
    ProduceIsBooked(w, record);
    ProduceKeepsFlags(w, record);
  }

  lemma TakeKeepsOk<R>(w: World<R>)
    requires Ok(w) && w.worker.AtLoop?
    ensures Ok(AfterTake(w))
  {
    var q := w.shared.queue;
    if q != [] {
      assert [] + q == [q[0]] + q[1..];
    }
  }

  lemma WriteKeepsOk<R>(w: World<R>)
    requires Ok(w) && w.worker.Writing?
    ensures Ok(Next(w, WorkerWrites))
  {
    var r, q := w.worker.record, w.shared.queue;
    assert w.handled + ([r] + q) == (w.handled + [r]) + ([] + q);
  }

  lemma StepKeepsOk<R>(w: World<R>, step: Step<R>)
    requires Ok(w) && Enabled(w, step)
    ensures Ok(Next(w, step))
  {
    match step {
      case Produce(record) => ProduceKeepsOk(w, record);
      case WorkerTakes => TakeKeepsOk(w);
      case WorkerWrites => WriteKeepsOk(w);
      case _ =>
    }
  }

  /** Conservation over every interleaving of producers, worker and control: in every
      reachable state the queue is within its capacity, what the sinks got is a
      prefix of what was accepted, that is a selection of what was offered, and every
      offer is accounted for. */
  lemma {:induction false} EveryInterleavingConserves<R>(w: World<R>, steps: seq<Step<R>>)
    requires Ok(w) && Runs(w, steps)
    ensures var n := After(w, steps);
      && Ok(n)
      && |n.shared.queue| <= n.shared.capacity
      && n.handled <= n.accepted && Selection(n.accepted, n.offered)
      && |n.offered| == |n.handled| + |InFlight(n.worker)| + |n.shared.queue| + n.lost
    decreases |steps|
  {
    if steps != [] {
      StepKeepsOk(w, steps[0]);
      EveryInterleavingConserves(Next(w, steps[0]), steps[1..]);
    }
  }

  lemma FreshIsOk<R>()
    ensures Ok<R>(Fresh<R>())
  {
  }

  /** Every record offered to the logger, within a session or not. */
  function Produced<R>(steps: seq<Step<R>>): seq<R> {
    if steps == [] then [] else (if steps[0].Produce? then [steps[0].record] else []) + Produced(steps[1..])
  }

  lemma OfferedStep<R>(w: World<R>, step: Step<R>, all: seq<R>)
    requires Enabled(w, step) && Selection(w.offered, all)
    ensures Selection(Next(w, step).offered, all + if step.Produce? then [step.record] else [])
  {
    if step.Produce? {
      OfferIsBooked(w.offered, all, step.record);
    } else {
      assert all + [] == all;
      NothingIsSelection(all);
    }
  }

  lemma {:induction false} OfferedAreProduced<R>(w: World<R>, steps: seq<Step<R>>, all: seq<R>)
    requires Runs(w, steps) && Selection(w.offered, all)
    ensures Selection(After(w, steps).offered, all + Produced(steps))
    decreases |steps|
  {
    if steps == [] {
      assert all + [] == all;
    } else {
      var first := if steps[0].Produce? then [steps[0].record] else [];
      OfferedStep(w, steps[0], all);
      OfferedAreProduced(Next(w, steps[0]), steps[1..], all + first);
      assert (all + first) + Produced(steps[1..]) == all + (first + Produced(steps[1..]));
    }
  }

  lemma OfferedFromTheStart<R>(steps: seq<Step<R>>)
    requires Runs(Fresh<R>(), steps)
    ensures Selection(After(Fresh<R>(), steps).offered, Produced(steps))
  {
    OfferedAreProduced(Fresh<R>(), steps, []);
    assert [] + Produced(steps) == Produced(steps);
  }

  lemma HandledFrom<R>(w: World<R>, all: seq<R>)
    requires Ok(w) && Selection(w.offered, all)
    ensures Selection(w.handled, all)
  {
    PrefixThroughSelections(w.handled, w.accepted, w.offered, all);
  }

  /** What the sinks of the session have got are records the producers offered, in
      their order and each at most once. */
  lemma HandledAreProduced<R>(steps: seq<Step<R>>)
    requires Runs(Fresh<R>(), steps)
    ensures Selection(After(Fresh<R>(), steps).handled, Produced(steps))
  {
    Reachable(steps);
    OfferedFromTheStart(steps);
    HandledFrom(After(Fresh<R>(), steps), Produced(steps));
  }

  // ---- What is lost ----------------------------------------------------------

  /** The queue holds as many records as it may. */
  predicate Full<R>(w: World<R>) { |w.shared.queue| == w.shared.capacity }

  /** An offer within a session is refused exactly when the queue is full; otherwise the
      record is the last in the queue. */
  lemma RefusedIffFull<R>(w: World<R>, record: R)
    requires Ok(w) && w.shared.accepting
    ensures var n := Next(w, Produce(record));
      && n.offered == w.offered + [record]
      && (if Full(w)
          then n.lost == w.lost + 1 && n.accepted == w.accepted && n.shared.queue == w.shared.queue
          else n.lost == w.lost && n.accepted == w.accepted + [record] && n.shared.queue == w.shared.queue + [record])
  {
  }

  /** Outside a session a record leaves no trace. */
  lemma NothingOutsideSession<R>(w: World<R>, record: R)
    requires !w.shared.accepting
    ensures Next(w, Produce(record)) == w
  {
  }

  /** The producer is told of a refusal, and of nothing else. */
  lemma ToldIffRefused<R>(w: World<R>, record: R)
    requires Ok(w)
    ensures !Enqueue(w.shared, record).ok <==> w.shared.accepting && Full(w)
  {
  }

  /** In every reachable state records are accepted exactly while the worker is in its
      loop and nobody has asked it to stop. */
  lemma AcceptingIff<R>(steps: seq<Step<R>>)
    requires Runs(Fresh<R>(), steps)
    ensures var w := After(Fresh<R>(), steps);
      w.shared.accepting <==> (w.worker.AtLoop? || w.worker.Writing?) && !w.shared.stopRequested
  {
    Reachable(steps);
  }

  /** The longest the queue has been when it holds `now` after a step; a start begins anew. */
  function Deeper<R>(step: Step<R>, now: nat, before: nat): nat {
    if step.StartBegins? then 0 else if now > before then now else before
  }

  /** The longest the queue has been in the current session, `before` being known. */
  function Deepest<R>(w: World<R>, steps: seq<Step<R>>, before: nat): nat
    requires Runs(w, steps)
    decreases |steps|
  {
    if steps == [] then before
    else Deepest(Next(w, steps[0]), steps[1..], Deeper(steps[0], |Next(w, steps[0]).shared.queue|, before))
  }

  lemma StepDeepens<R>(w: World<R>, step: Step<R>)
    requires Ok(w) && Enabled(w, step)
    ensures var n := Next(w, step);
      n.shared.maximumDepth == Deeper(step, |n.shared.queue|, w.shared.maximumDepth)
  {
  }

  /** The reported maximum depth is the longest the queue has been. */
  lemma {:induction false} DepthIsDeepest<R>(w: World<R>, steps: seq<Step<R>>)
    requires Ok(w) && Runs(w, steps)
    ensures After(w, steps).shared.maximumDepth == Deepest(w, steps, w.shared.maximumDepth)
    decreases |steps|
  {
    if steps != [] {
      StepKeepsOk(w, steps[0]);
      StepDeepens(w, steps[0]);
      DepthIsDeepest(Next(w, steps[0]), steps[1..]);
    }
  }

  /** One more is lost when a record is offered within a session to a full queue; a start
      counts anew. */
  function Missed<R>(w: World<R>, step: Step<R>, before: nat): nat {
    if step.StartBegins? then 0
    else if step.Produce? && w.shared.accepting && Full(w) then before + 1
    else before
  }

  /** The offers of the current session that found the queue full, after `before` of them. */
  function FullOffers<R>(w: World<R>, steps: seq<Step<R>>, before: nat): nat
    requires Runs(w, steps)
    decreases |steps|
  {
    if steps == [] then before else FullOffers(Next(w, steps[0]), steps[1..], Missed(w, steps[0], before))
  }

  lemma StepLoses<R>(w: World<R>, step: Step<R>)
    requires Ok(w) && Enabled(w, step)
    ensures Next(w, step).lost == Missed(w, step, w.lost)
  {
    if step.Produce? && w.shared.accepting { RefusedIffFull(w, step.record); }
  }

  /** In every interleaving what a session has lost are its offers to a full queue. */
  lemma {:induction false} LostAreFullOffers<R>(w: World<R>, steps: seq<Step<R>>)
    requires Ok(w) && Runs(w, steps)
    ensures After(w, steps).lost == FullOffers(w, steps, w.lost)
    decreases |steps|
  {
    if steps != [] {
      StepKeepsOk(w, steps[0]);
      StepLoses(w, steps[0]);
      LostAreFullOffers(Next(w, steps[0]), steps[1..]);
    }
  }

  lemma NothingLost<R>(w: World<R>)
    requires Ok(w) && w.lost == 0
    ensures w.accepted == w.offered
    ensures Enabled(w, CloseJoins) ==> Next(w, CloseJoins).handled == w.offered
  {
    WholeSelection(w.accepted, w.offered);
    if Enabled(w, CloseJoins) { JoinFindsEverything(w); }
  }

  /** A session whose offers never found the queue full hands every record offered to
      the sinks, in order, by the time close returns. */
  lemma NeverFullLosesNothing<R>(steps: seq<Step<R>>)
    requires Runs(Fresh<R>(), steps) && FullOffers(Fresh<R>(), steps, 0) == 0
    ensures var w := After(Fresh<R>(), steps);
      && w.accepted == w.offered
      && (Enabled(w, CloseJoins) ==> Next(w, CloseJoins).handled == w.offered)
  {
    Reachable(steps);
    FreshIsOk<R>();
    LostAreFullOffers(Fresh<R>(), steps);
    NothingLost(After(Fresh<R>(), steps));
  }

  // ---- Starting --------------------------------------------------------------

  /** In every reachable state the logger says that it is open exactly from when the
      worker has opened its files until it has finalized them. */
  lemma OpenIff<R>(steps: seq<Step<R>>)
    requires Runs(Fresh<R>(), steps)
    ensures var w := After(Fresh<R>(), steps);
      w.shared.workerStarted <==> w.worker.AtLoop? || w.worker.Writing? || w.worker.Finalizing?
  {
    Reachable(steps);
  }

  /** What the latest start has set, `before` being known. */
  function StartedWith<R>(steps: seq<Step<R>>, before: (nat, bool)): (nat, bool) {
    if steps == [] then before
    else StartedWith(steps[1..], if steps[0].StartBegins? then (steps[0].capacity, steps[0].raw) else before)
  }

  /** Over every interleaving the capacity, and whether raw frames are wanted, are as the
      latest start has set them. */
  lemma {:induction false} SettingsAreOfTheStart<R>(w: World<R>, steps: seq<Step<R>>)
    requires Runs(w, steps)
    ensures var n := After(w, steps).shared;
      (n.capacity, n.rawCanEnabled) == StartedWith(steps, (w.shared.capacity, w.shared.rawCanEnabled))
    decreases |steps|
  {
    if steps != [] {
      SettingsOfStep(w, steps[0]);
      SettingsAreOfTheStart(Next(w, steps[0]), steps[1..]);
    }
  }

  lemma SettingsOfStep<R>(w: World<R>, step: Step<R>)
    requires Enabled(w, step)
    ensures var n := Next(w, step).shared;
      (n.capacity, n.rawCanEnabled) ==
        if step.StartBegins? then (step.capacity, step.raw) else (w.shared.capacity, w.shared.rawCanEnabled)
  {
  }

  /** A session can be started again once a close, or a start that failed, has returned. */
  lemma CanStartAgain<R>(w: World<R>, step: Step<R>, capacity: nat, raw: bool)
    requires Ok(w) && Enabled(w, step) && capacity > 0
    requires step.CloseJoins? || (step.StartReturns? && !w.shared.workerStarted)
    ensures Enabled(Next(w, step), StartBegins(capacity, raw))
  {
  }

  /** While a close or a start is under way no other begins. */
  lemma OneControlCallAtATime<R>(w: World<R>, step: Step<R>, capacity: nat, raw: bool)
    requires Enabled(w, step) && (step.CloseRequests? || step.StartBegins?)
    ensures !Enabled(Next(w, step), StartBegins(capacity, raw)) && !Enabled(Next(w, step), CloseRequests)
  {
  }

  // ---- Closing ---------------------------------------------------------------

  lemma Reachable<R>(steps: seq<Step<R>>)
    requires Runs(Fresh<R>(), steps)
    ensures Ok(After(Fresh<R>(), steps))
  {
    FreshIsOk<R>();
    EveryInterleavingConserves(Fresh<R>(), steps);
  }

  ghost predicate EverythingHandled<R>(w: World<R>) {
    w.handled == w.accepted && w.shared.queue == [] && !w.shared.accepting && w.worker.NoThread?
  }

  lemma JoinFindsEverything<R>(w: World<R>)
    requires Ok(w) && Enabled(w, CloseJoins)
    ensures EverythingHandled(Next(w, CloseJoins)) && Next(w, CloseJoins).accepted == w.accepted
  {
    assert [] + w.shared.queue == [] && w.handled + [] == w.handled;
  }

  /** When close returns, every record ever accepted has been handed to a sink, and
      none is left for the next session. */
  lemma CloseWaitsForEverything<R>(steps: seq<Step<R>>)
    requires Runs(Fresh<R>(), steps) && Enabled(After(Fresh<R>(), steps), CloseJoins)
    ensures EverythingHandled(Next(After(Fresh<R>(), steps), CloseJoins))
  {
    Reachable(steps);
    var w := After(Fresh<R>(), steps);
    JoinFindsEverything(w);
  }

  /** Iterations of the worker's loop. */
  function Iterations<R>(steps: seq<Step<R>>): nat {
    if steps == [] then 0 else (if steps[0].WorkerTakes? then 1 else 0) + Iterations(steps[1..])
  }

  /** Iterations the worker may still start once it has been told to stop. */
  function Left<R>(w: World<R>): nat {
    if w.worker.AtLoop? || w.worker.Writing? then |w.shared.queue| + 1 else 0
  }

  /** After a stop the worker starts at most |queue| + 1 further iterations, whatever
      the producers do meanwhile, as long as no new session begins. */
  lemma {:induction false} WorkerStopsSoon<R>(w: World<R>, steps: seq<Step<R>>)
    requires Ok(w) && w.shared.stopRequested && Runs(w, steps)
    requires forall i :: 0 <= i < |steps| ==> !steps[i].StartBegins?
    ensures Iterations(steps) + Left(After(w, steps)) <= Left(w)
    decreases |steps|
  {
    if steps != [] {
      StepKeepsOk(w, steps[0]);
      WorkerStopsSoon(Next(w, steps[0]), steps[1..]);
    }
  }

  /** Worker steps left until the thread ends. */
  function Distance<R>(w: World<R>): nat {
    match w.worker
    case AtLoop => 2 * |w.shared.queue| + 2
    case Writing(_) => 2 * |w.shared.queue| + 3
    case Finalizing => 1
    case _ => 0
  }

  predicate IsWorkerStep<R>(step: Step<R>) {
    step.WorkerOpens? || step.WorkerTakes? || step.WorkerWrites? || step.WorkerExits?
  }

  function WorkerStep<R>(worker: Worker<R>): Step<R> {
    match worker
    case AtLoop => WorkerTakes
    case Writing(_) => WorkerWrites
    case _ => WorkerExits
  }

  /** A pending close is never stuck: either it can return, or the worker can take a
      step; and every step leaves the worker closer to its end or as close as it was. */
  lemma CloseMakesProgress<R>(w: World<R>, step: Step<R>)
    requires Ok(w) && w.control.Joining?
    ensures if Distance(w) == 0 then Enabled(w, CloseJoins) else Enabled(w, WorkerStep(w.worker))
    ensures Enabled(w, step) && !step.CloseJoins? ==>
      var n := Next(w, step);
      n.control.Joining? && Distance(n) <= Distance(w) - if IsWorkerStep(step) then 1 else 0
  {
  }

  function WorkerSteps<R>(steps: seq<Step<R>>): nat {
    if steps == [] then 0 else (if IsWorkerStep(steps[0]) then 1 else 0) + WorkerSteps(steps[1..])
  }

  lemma {:induction false} StayJoining<R>(w: World<R>, steps: seq<Step<R>>)
    requires Ok(w) && w.control.Joining? && Runs(w, steps)
    requires forall i :: 0 <= i < |steps| ==> !steps[i].CloseJoins?
    ensures Ok(After(w, steps)) && After(w, steps).control.Joining?
    decreases |steps|
  {
    if steps != [] {
      StepKeepsOk(w, steps[0]);
      CloseMakesProgress(w, steps[0]);
      StayJoining(Next(w, steps[0]), steps[1..]);
    }
  }

  /** While a close is pending the worker has only so many steps left, and when they
      are taken the close can return. */
  lemma {:induction false} CloseTerminates<R>(w: World<R>, steps: seq<Step<R>>)
    requires Ok(w) && w.control.Joining? && Runs(w, steps)
    requires forall i :: 0 <= i < |steps| ==> !steps[i].CloseJoins?
    ensures WorkerSteps(steps) + Distance(After(w, steps)) <= Distance(w)
    ensures WorkerSteps(steps) == Distance(w) ==> Enabled(After(w, steps), CloseJoins)
    decreases |steps|
  {
    StayJoining(w, steps);
    CloseMakesProgress(After(w, steps), CloseJoins);
    if steps != [] {
      StepKeepsOk(w, steps[0]);
      CloseMakesProgress(w, steps[0]);
      CloseTerminates(Next(w, steps[0]), steps[1..]);
    }
  }

  /** A session starts with an empty queue, fresh counters and its own settings: nothing
      of an earlier one leaks into it. */
  lemma SessionsAreSeparate<R>(steps: seq<Step<R>>, capacity: nat, raw: bool)
    requires Runs(Fresh<R>(), steps) && Enabled(After(Fresh<R>(), steps), StartBegins(capacity, raw))
    ensures var n := Next(After(Fresh<R>(), steps), StartBegins(capacity, raw));
      && n.shared == Shared([], capacity, 0, 0, raw, false, false, false, false)
      && n.offered == n.accepted == n.handled == [] && n.lost == n.reported == 0
  {
    Reachable(steps);
  }
}
