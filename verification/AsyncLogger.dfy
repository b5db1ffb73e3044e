/** The asynchronous session logger: producers, one worker thread and the control
    calls, interleaved in any way at the granularity of the critical sections. */
module AsyncLogger {
  import opened Options

  datatype Worker<R> = NoThread | Opening | AtLoop | Writing(record: R) | Finalizing | Exited

  datatype Control = Idle | AwaitingStartup | Joining

  /** The fields guarded by the mutex. */
  datatype Shared<R> = Shared(
    queue: seq<R>, capacity: nat, maximumDepth: nat, droppedCount: nat,
    rawCanEnabled: bool, accepting: bool, stopRequested: bool, startupComplete: bool, workerStarted: bool)

  /** A record that was refused because the queue was full is dropped; outside a
      session a record is silently passed over. */
  datatype Offer<R> = Offer(shared: Shared<R>, ok: bool)

  function Enqueue<R>(s: Shared<R>, record: R): Offer<R> {
    if !s.accepting then Offer(s, true)
    else if |s.queue| >= s.capacity then Offer(s.(droppedCount := s.droppedCount + 1), false)
    else
      var queue := s.queue + [record];
      Offer(s.(queue := queue, maximumDepth := if |queue| > s.maximumDepth then |queue| else s.maximumDepth), true)
  }

  function RequestStop<R>(s: Shared<R>): Shared<R> {
    s.(accepting := false, stopRequested := true)
  }

  function Begin<R>(s: Shared<R>, capacity: nat, rawCanEnabled: bool): Shared<R> {
    s.(capacity := capacity, maximumDepth := 0, droppedCount := 0, rawCanEnabled := rawCanEnabled,
       stopRequested := false, startupComplete := false, workerStarted := false)
  }

  function Opened<R>(s: Shared<R>, ready: bool): Shared<R> {
    s.(workerStarted := ready, accepting := ready, startupComplete := true)
  }

  /** What the worker finds under the lock: a record, the end, or nothing to do. */
  datatype Taken<R> = Taken(shared: Shared<R>, record: Option<R>, stop: bool)

  function Take<R>(s: Shared<R>): Taken<R> {
    if s.queue != [] then Taken(s.(queue := s.queue[1..]), Some(s.queue[0]), false)
    else Taken(s, None, s.stopRequested)
  }

  // ---- The logger object -----------------------------------------------------

  /** The shared fields; each method is one critical section of `mutex_`.  Where the
      two threads stand is not part of the object. */
  class AsyncSessionLogger<R> {
    var queue: seq<R>
    var queueCapacity: nat
    var maximumQueueDepth: nat
    var droppedRecordCount: nat
    var rawCanEnabled: bool
    var acceptingRecords: bool
    var stopRequested: bool
    var startupComplete: bool
    var workerStarted: bool

    function State(): Shared<R>
      reads this
    {
      Shared(queue, queueCapacity, maximumQueueDepth, droppedRecordCount, rawCanEnabled, acceptingRecords,
             stopRequested, startupComplete, workerStarted)
    }

    constructor ()
      ensures State() == Shared([], 0, 0, 0, false, false, false, false, false)
    {
      queue, queueCapacity, maximumQueueDepth, droppedRecordCount := [], 0, 0, 0;
      rawCanEnabled, acceptingRecords, stopRequested, startupComplete, workerStarted :=
        false, false, false, false, false;
    }

    method EnqueueRecord(record: R) returns (ok: bool)
      modifies this
      ensures Offer(State(), ok) == Enqueue(old(State()), record)
    {
      if !acceptingRecords { return true; }
      if |queue| >= queueCapacity {
        droppedRecordCount := droppedRecordCount + 1;
        return false;
      }
      queue := queue + [record];
      maximumQueueDepth := if |queue| > maximumQueueDepth then |queue| else maximumQueueDepth;
      return true;
    }

    /** The first critical section of offering a raw frame; when it answers yes the
        second one is that of `EnqueueRecord`, and the session may have changed between. */
    method RawFramesAreWanted() returns (wanted: bool)
      ensures wanted == rawCanEnabled
    {
      wanted := rawCanEnabled;
    }

    method TakeDroppedRecordCount() returns (count: nat)
      modifies this
      ensures count == old(droppedRecordCount)
      ensures State() == old(State()).(droppedCount := 0)
    {
      count := droppedRecordCount;
      droppedRecordCount := 0;
    }

    method BeginSession(capacity: nat, raw: bool)
      modifies this
      ensures State() == Begin(old(State()), capacity, raw)
    {
      queueCapacity, maximumQueueDepth, droppedRecordCount := capacity, 0, 0;
      rawCanEnabled, stopRequested, startupComplete, workerStarted := raw, false, false, false;
    }

    method Stop()
      modifies this
      ensures State() == RequestStop(old(State()))
    {
      acceptingRecords, stopRequested := false, true;
    }

    method WorkerOpened(ready: bool)
      modifies this
      ensures State() == Opened(old(State()), ready)
    {
      workerStarted, acceptingRecords, startupComplete := ready, ready, true;
    }

    method WorkerTake() returns (record: Option<R>, stop: bool)
      modifies this
      ensures Taken(State(), record, stop) == Take(old(State()))
    {
      if queue != [] {
        record, stop := Some(queue[0]), false;
        queue := queue[1..];
      } else {
        record, stop := None, stopRequested;
      }
    }

    /** The worker's loop after a stop: it hands every queued record to the sinks, in
        order, and leaves after one more iteration than there were records. */
    method Drain() returns (written: seq<R>, iterations: nat)
      requires stopRequested && !acceptingRecords
      modifies this
      ensures written == old(queue) && queue == []
      ensures iterations == |old(queue)| + 1
    {
      written, iterations := [], 0;
      var stop := false;
      while !stop
        invariant stopRequested
        invariant written + queue == old(queue)
        invariant iterations == |written| + if stop then 1 else 0
        invariant stop ==> queue == []
        decreases !stop, |queue|
      {
        ghost var before := queue;
        var record;
        record, stop := WorkerTake();
        assert Taken(State(), record, stop).record == record;
        iterations := iterations + 1;
        if record.Some? {
          assert before == [record.value] + queue;
          written := written + [record.value];
        }
      }
      assert written + [] == written;
    }
  }
}
