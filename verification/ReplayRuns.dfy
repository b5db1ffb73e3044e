/** Whole runs of the replay engine: what is emitted, where the position stands, and
    when records are due. */
module ReplayRuns {
  import opened Options
  import opened Replay

  datatype Step =
    | Starting(mode: Mode, speed: real)
    | Stopping
    | Pausing
    | Resuming
    | Seeking(position: int)
    | Speeding(speed: real)
    | Ticking

  /** A step and the time on the clock when it is taken. */
  datatype Event = Event(step: Step, now: int)

  // ---- The invariant ---------------------------------------------------------

  ghost predicate Sorted<T>(records: seq<Record<T>>) {
    && (records != [] ==> records[0].timestampNs == 0)
    && forall i, j :: 0 <= i < j < |records| ==> records[i].timestampNs <= records[j].timestampNs
  }

  /** The timer is armed exactly while records are being played, and in real time it is
      not due before the next record is. */
  ghost predicate TimerOk<T>(s: Player<T>)
    requires s.speed > 0.0
  {
    && (s.timer.Some? <==> s.running && !s.paused)
    && (s.timer.Some? && s.mode.Realtime? && s.nextIndex < |s.records| ==>
          s.timer.value - s.clockStart >= Target(Relative(s), s.speed))
  }

  /** What holds between calls, at any time from `now` on. */
  ghost predicate Ok<T>(s: Player<T>, now: int) {
    && Sorted(s.records) && s.speed > 0.0
    && 0 <= s.baseNs <= Duration(s.records)
    && (s.paused ==> s.running)
    && (s.running ==> s.records != [] && s.nextIndex <= |s.records|)
    && (s.running && !s.paused ==> s.nextIndex < |s.records| && s.clockStart <= now)
    && TimerOk(s)
  }

  /** A single-shot timer never fires early. */
  predicate Enabled<T>(s: Player<T>, e: Event) {
    e.step.Ticking? ==> s.timer.Some? && e.now >= s.timer.value
  }

  ghost function Do<T>(s: Player<T>, e: Event, batch: nat, before: int): Outcome<T>
    requires Ok(s, before) && Enabled(s, e)
  {
    match e.step
    case Starting(mode, speed) => Quiet(Start(s, mode, speed, e.now))
    case Stopping => Quiet(Stop(s))
    case Pausing => Quiet(Pause(s, e.now))
    case Resuming => Resume(s, e.now)
    case Seeking(position) => Seek(s, position, e.now)
    case Speeding(speed) => Quiet(SetSpeed(s, speed, e.now))
    case Ticking => Tick(s, batch, e.now)
  }

  // ---- Media time ------------------------------------------------------------

  lemma Scale(x: real, y: real, k: real)
    requires x <= y && k > 0.0
    ensures x * k <= y * k
  {
  }

  lemma MediaGrows(a: int, b: int, speed: real)
    requires a <= b && speed > 0.0
    ensures Media(a, speed) <= Media(b, speed)
  {
    Scale(a as real, b as real, speed);
  }

  lemma MediaFromZero(speed: real)
    ensures Media(0, speed) == 0
  {
  }

  lemma MediaNotNegative(elapsed: int, speed: real)
    requires elapsed >= 0 && speed > 0.0
    ensures Media(elapsed, speed) >= 0
  {
    MediaGrows(0, elapsed, speed);
    MediaFromZero(speed);
  }

  lemma Quotient(n: real, k: real)
    requires k > 0.0
    ensures (n / k) * k == n
  {
  }

  /** Once the target has passed on the clock, the media has come within one step of
      the clock and one of the truncation. */
  lemma MediaReaches(relative: real, elapsed: real, speed: real)
    requires speed > 0.0 && elapsed > relative / speed - 1.0
    ensures elapsed * speed > relative - speed
  {
    Quotient(relative, speed);
    var gap := relative / speed - elapsed;
    Strictly(gap, 1.0, speed);
    assert (elapsed + gap) * speed == elapsed * speed + gap * speed;
  }

  lemma Strictly(x: real, y: real, k: real)
    requires x < y && k > 0.0
    ensures x * k < y * k
  {
  }

  // ---- Position --------------------------------------------------------------

  lemma PositionFromBase<T>(s: Player<T>, before: int, now: int)
    requires Ok(s, before) && before <= now
    ensures s.baseNs <= Position(s, now) <= Duration(s.records)
  {
    if s.running && !s.paused { MediaNotNegative(now - s.clockStart, s.speed); }
  }

  /** While nothing happens the position does not fall. */
  lemma PositionGrows<T>(s: Player<T>, before: int, now: int, later: int)
    requires Ok(s, before) && before <= now <= later
    ensures Position(s, now) <= Position(s, later)
  {
    if s.running && !s.paused { MediaGrows(now - s.clockStart, later - s.clockStart, s.speed); }
  }

  /** A clock that has just been restarted adds nothing. */
  lemma PositionAtRestart<T>(s: Player<T>, now: int)
    requires s.baseNs <= Duration(s.records) && (s.running && !s.paused ==> s.clockStart == now)
    ensures Position(s, now) == s.baseNs
  {
    MediaFromZero(s.speed);
  }

  // ---- Every step keeps the invariant ----------------------------------------

  lemma ScheduleKeepsTimerOk<T>(s: Player<T>, now: int)
    requires s.nextIndex < |s.records| && s.speed > 0.0 && s.running && !s.paused
    ensures TimerOk(Schedule(s, now)) && Schedule(s, now).(timer := s.timer) == s
    ensures Schedule(s, now).timer.Some? && Schedule(s, now).timer.value >= now
  {
    var remaining := Max(0, Target(Relative(s), s.speed) - (now - s.clockStart));
    RoundedUp(remaining);
  }

  lemma RoundedUp(ns: int)
    requires ns >= 0
    ensures CeilingMs(ns) * NS_PER_MS >= ns
  {
    var n := ns + NS_PER_MS - 1;
    assert n == (n / NS_PER_MS) * NS_PER_MS + n % NS_PER_MS;
  }

  lemma TickKeepsOk<T>(s: Player<T>, batch: nat, before: int, now: int)
    requires Ok(s, before) && before <= now && s.timer.Some? && now >= s.timer.value
    ensures Ok(Tick(s, batch, now).player, now)
  {
    var fired := s.(timer := None, nextIndex := BatchEnd(s, batch));
    if fired.nextIndex < |s.records| { ScheduleKeepsTimerOk(fired, now); }
  }

  lemma SeekKeepsOk<T>(s: Player<T>, position: int, before: int, now: int)
    requires Ok(s, before) && before <= now
    ensures Ok(Seek(s, position, now).player, now)
  {
    if s.records != [] {
      var t :=
        s.(baseNs := Bounded(s, position), nextIndex := SeekIndex(s, position), timer := None, clockStart := now);
      DurationNotNegative(s.records);
      if t.running && !t.paused && t.nextIndex < |t.records| { ScheduleKeepsTimerOk(t, now); }
    }
  }

  lemma DurationNotNegative<T>(records: seq<Record<T>>)
    requires Sorted(records)
    ensures Duration(records) >= 0
  {
  }

  lemma StartKeepsOk<T>(s: Player<T>, mode: Mode, speed: real, before: int, now: int)
    requires Ok(s, before) && before <= now
    ensures Ok(Start(s, mode, speed, now), now)
  {
    DurationNotNegative(s.records);
    if StartsAt(s, speed) { FirstTarget(speed); }
  }

  lemma FirstTarget(speed: real)
    requires speed > 0.0
    ensures Target(0, speed) == 0
  {
    Quotient(0.0, speed);
  }

  lemma SetSpeedKeepsOk<T>(s: Player<T>, speed: real, before: int, now: int)
    requires Ok(s, before) && before <= now
    ensures Ok(SetSpeed(s, speed, now), now)
  {
    PositionFromBase(s, before, now);
    if SpeedAllowed(speed) && s.running && !s.paused {
      ScheduleKeepsTimerOk(s.(speed := speed, baseNs := Position(s, now), clockStart := now), now);
    }
  }

  lemma ResumeKeepsOk<T>(s: Player<T>, before: int, now: int)
    requires Ok(s, before) && before <= now
    ensures Ok(Resume(s, now).player, now)
  {
    if s.running && s.paused && s.nextIndex < |s.records| {
      ScheduleKeepsTimerOk(s.(paused := false, clockStart := now), now);
    }
  }

  /** Running and not paused means that there is a record to play, the timer is armed,
      and the position is within the recording: every step keeps all of it. */
  lemma StepKeepsOk<T>(s: Player<T>, e: Event, batch: nat, before: int)
    requires Ok(s, before) && Enabled(s, e) && before <= e.now && batch > 0
    ensures Ok(Do(s, e, batch, before).player, e.now)
  {
    match e.step {
      case Starting(mode, speed) => StartKeepsOk(s, mode, speed, before, e.now);
      case Stopping =>
      case Pausing => PositionFromBase(s, before, e.now);
      case Resuming => ResumeKeepsOk(s, before, e.now);
      case Seeking(position) => SeekKeepsOk(s, position, before, e.now);
      case Speeding(speed) => SetSpeedKeepsOk(s, speed, before, e.now);
      case Ticking => TickKeepsOk(s, batch, before, e.now);
    }
  }

  /** Every player that was created and has loaded a file can be played from then on. */
  lemma LoadedIsOk<T>(s: Player<T>, lines: Option<seq<Line<T>>>, now: int)
    requires s.speed > 0.0
    ensures Ok(Loaded(s, lines), now)
  {
    DurationNotNegative(Loaded(s, lines).records);
  }

  lemma NewIsOk<T>(now: int)
    ensures Ok(New<T>(), now)
  {
  }

  // ---- Runs ------------------------------------------------------------------

  ghost predicate Runs<T>(s: Player<T>, before: int, events: seq<Event>, batch: nat)
    decreases |events|
  {
    Ok(s, before) &&
    (events != [] ==>
      && before <= events[0].now && Enabled(s, events[0])
      && Runs(Do(s, events[0], batch, before).player, events[0].now, events[1..], batch))
  }

  ghost function Play<T>(s: Player<T>, before: int, events: seq<Event>, batch: nat): Outcome<T>
    requires Runs(s, before, events, batch)
    decreases |events|
  {
    if events == [] then Quiet(s)
    else
      var one := Do(s, events[0], batch, before);
      var more := Play(one.player, events[0].now, events[1..], batch);
      Outcome(more.player, one.emitted + more.emitted, one.finished + more.finished)
  }

  function End(before: int, events: seq<Event>): int {
    if events == [] then before else events[|events| - 1].now
  }

  /** Steps that neither jump nor restart. */
  predicate Straight(step: Step) { step.Pausing? || step.Resuming? || step.Speeding? || step.Ticking? }

  ghost predicate AllStraight(events: seq<Event>) {
    forall i :: 0 <= i < |events| ==> Straight(events[i].step)
  }

  /** What straight play from `s` has emitted when it has come to `o`. */
  ghost predicate PlayedFrom<T>(s: Player<T>, o: Outcome<T>) {
    var t := o.player;
    && t.records == s.records && (t.running ==> s.running)
    && (if s.running then s.nextIndex <= t.nextIndex <= |s.records| && o.emitted == s.records[s.nextIndex..t.nextIndex]
        else o.emitted == [] && t.nextIndex == s.nextIndex)
    && o.finished == (if s.running && !t.running then 1 else 0)
    && (s.running && !t.running ==> t.nextIndex == |s.records|)
  }

  lemma StraightStep<T>(s: Player<T>, e: Event, batch: nat, before: int)
    requires Ok(s, before) && Enabled(s, e) && before <= e.now && batch > 0 && Straight(e.step)
    ensures PlayedFrom(s, Do(s, e, batch, before))
  {
    if s.running { assert s.records[s.nextIndex..s.nextIndex] == []; }
  }

  lemma PlayedOn<T>(s: Player<T>, a: Outcome<T>, b: Outcome<T>)
    requires PlayedFrom(s, a) && PlayedFrom(a.player, b)
    ensures PlayedFrom(s, Outcome(b.player, a.emitted + b.emitted, a.finished + b.finished))
  {
    if s.running {
      if a.player.running {
        var i, j, k := s.nextIndex, a.player.nextIndex, b.player.nextIndex;
        assert s.records[i..j] + s.records[j..k] == s.records[i..k];
      } else {
        assert a.emitted + [] == a.emitted;
      }
    }
  }

  /** Straight play, over any sequence of ticks, pauses, resumes and speed changes, emits
      consecutive records, each once, and finishes once, when the last is out. */
  lemma {:induction false} PlayIsConsecutive<T>(s: Player<T>, before: int, events: seq<Event>, batch: nat)
    requires Runs(s, before, events, batch) && AllStraight(events) && batch > 0
    ensures PlayedFrom(s, Play(s, before, events, batch))
    decreases |events|
  {
    if events == [] {
      if s.running { assert s.records[s.nextIndex..s.nextIndex] == []; }
    } else {
      var one := Do(s, events[0], batch, before);
      StraightStep(s, events[0], batch, before);
      PlayIsConsecutive(one.player, events[0].now, events[1..], batch);
      PlayedOn(s, one, Play(one.player, events[0].now, events[1..], batch));
    }
  }

  /** A run from start to end without seeking emits every record once, in order, and
      finishes once. */
  lemma StartPlaysEverything<T>(s: Player<T>, mode: Mode, speed: real, now: int, events: seq<Event>, batch: nat)
    requires StartsAt(s, speed) && batch > 0
    requires Runs(Start(s, mode, speed, now), now, events, batch) && AllStraight(events)
    ensures var o := Play(Start(s, mode, speed, now), now, events, batch);
      && o.emitted <= s.records && o.finished <= 1
      && (o.finished == 1 <==> !o.player.running) && (!o.player.running ==> o.emitted == s.records)
  {
    PlayIsConsecutive(Start(s, mode, speed, now), now, events, batch);
  }

  /** A seek into the recording continues at the first record at or after the position,
      and a seek to its end, or past it, at no record at all. */
  lemma SeekIndexSplits<T>(s: Player<T>, position: int)
    requires Sorted(s.records) && s.records != []
    ensures var k, p := SeekIndex(s, position), Max(0, position);
      if p < Duration(s.records) then
        (forall i :: 0 <= i < |s.records| ==> (s.records[i].timestampNs < p <==> i < k))
      else k == |s.records|
  {
    var k := SeekIndex(s, position);
    if Max(0, position) < Duration(s.records) {
      forall i | k < i < |s.records| ensures s.records[i].timestampNs >= Max(0, position) {
        assert s.records[k].timestampNs <= s.records[i].timestampNs;
      }
    }
  }

  /** After a seek the emitted records are the consecutive ones from there on, each once. */
  lemma SeekPlaysTheRest<T>(s: Player<T>, position: int, before: int, now: int, events: seq<Event>, batch: nat)
    requires Ok(s, before) && before <= now && s.running && batch > 0
    requires Runs(Seek(s, position, now).player, now, events, batch) && AllStraight(events)
    ensures var o := Play(Seek(s, position, now).player, now, events, batch);
      var rest := s.records[SeekIndex(s, position)..];
      o.emitted <= rest && (!o.player.running ==> o.emitted == rest)
  {
    var t := Seek(s, position, now).player;
    SeekLands(s, position, now);
    PlayIsConsecutive(t, now, events, batch);
    PlayedRest(t, Play(t, now, events, batch));
  }

  lemma SeekLands<T>(s: Player<T>, position: int, now: int)
    requires s.records != [] && s.running && s.speed > 0.0
    ensures var t := Seek(s, position, now).player;
      t.records == s.records && t.nextIndex == SeekIndex(s, position) && (!t.running ==> t.nextIndex == |t.records|)
  {
  }

  lemma PlayedRest<T>(t: Player<T>, o: Outcome<T>)
    requires t.nextIndex <= |t.records| && PlayedFrom(t, o) && (!t.running ==> t.nextIndex == |t.records|)
    ensures o.emitted <= t.records[t.nextIndex..]
    ensures !o.player.running ==> o.emitted == t.records[t.nextIndex..]
  {
  }

  /** A tick plays a whole batch in fast mode and one record in real time, so a running
      replay always gets closer to its end. */
  lemma TickEmits<T>(s: Player<T>, batch: nat, before: int, now: int)
    requires Ok(s, before) && s.timer.Some? && batch > 0
    ensures |Tick(s, batch, now).emitted| == Min(if s.mode.Fast? then batch else 1, |s.records| - s.nextIndex) > 0
  {
  }

  // ---- The clock in numbers --------------------------------------------------

  /** While it plays, the position moves at `speed` times the clock from where the clock
      was last restarted, less than a nanosecond behind, and stops at the end. */
  lemma PositionIsScaledClock<T>(s: Player<T>, now: int)
    requires s.running && !s.paused
    ensures var media := s.baseNs as real + (now - s.clockStart) as real * s.speed;
      var p := Position(s, now);
      if media >= Duration(s.records) as real then p == Duration(s.records)
      else p as real <= media < p as real + 1.0
  {
  }

  /** A position that is not moving is where it was left. */
  lemma PositionRests<T>(s: Player<T>, now: int)
    requires !s.running || s.paused
    ensures Position(s, now) == s.baseNs
  {
  }

  lemma RoundedUpLittle(ns: int)
    requires ns >= 0
    ensures ns <= CeilingMs(ns) * 1_000_000 < ns + 1_000_000
  {
    var n := ns + 999_999;
    assert n == (n / 1_000_000) * 1_000_000 + n % 1_000_000;
  }

  /** In real time the timer is due when the clock has come to the record, or now if it
      has already, and at most a nanosecond before and less than a millisecond after;
      in fast mode it is due at once. */
  lemma TimerIsPrompt<T>(s: Player<T>, now: int)
    requires s.nextIndex < |s.records| && s.speed > 0.0
    ensures var t := Schedule(s, now).timer;
      var ahead := s.records[s.nextIndex].timestampNs - s.baseNs;
      var due := s.clockStart as real + (if ahead > 0 then ahead as real / s.speed else 0.0);
      && t.Some?
      && (s.mode.Fast? ==> t.value == now)
      && (s.mode.Realtime? ==>
            && t.value >= now && t.value as real > due - 1.0
            && (t.value == now || (t.value as real) < due + 1_000_000.0))
  {
    if s.mode.Realtime? {
      if s.records[s.nextIndex].timestampNs - s.baseNs <= 0 { Quotient(0.0, s.speed); }
      RoundedUpLittle(Max(0, Target(Relative(s), s.speed) - (now - s.clockStart)));
    }
  }

  /** A speed within bounds is taken, any other changes nothing. */
  lemma SpeedIsTaken<T>(s: Player<T>, speed: real, now: int)
    requires s.running && !s.paused ==> s.nextIndex < |s.records|
    ensures if 0.0 < speed <= 100.0
      then SetSpeed(s, speed, now).speed == speed && SetSpeed(s, speed, now).baseNs == Position(s, now)
      else SetSpeed(s, speed, now) == s
  {
  }

  // ---- What each control does ------------------------------------------------

  /** Playing on: the position was where it is said to be, the clock starts now and the
      timer is armed. */
  predicate PlaysFrom<T>(t: Player<T>, position: int, now: int) {
    t.running && !t.paused && t.baseNs == position && t.clockStart == now && t.timer.Some?
  }

  /** A start plays from the beginning in the mode and at the speed asked for. */
  lemma StartIs<T>(s: Player<T>, mode: Mode, speed: real, now: int)
    requires |s.records| > 0 && speed > 0.0
    ensures var t := Start(s, mode, speed, now);
      && t.records == s.records && t.nextIndex == 0 && t.mode == mode && t.speed == speed
      && PlaysFrom(t, 0, now) && t.timer == Some(now)
  {
  }

  lemma StartRefuses<T>(s: Player<T>, mode: Mode, speed: real, now: int)
    requires |s.records| == 0 || speed <= 0.0
    ensures Start(s, mode, speed, now) == s
  {
  }

  /** A pause while playing keeps the place, disarms the timer and holds the position at
      all later times; otherwise it does nothing. */
  lemma PauseHolds<T>(s: Player<T>, now: int, later: int)
    ensures var t := Pause(s, now);
      if s.running && !s.paused then
        && t.running && t.paused && t.timer.None? && Position(t, later) == Position(s, now)
        && t.nextIndex == s.nextIndex && t.records == s.records && t.speed == s.speed && t.mode == s.mode
      else t == s
  {
  }

  /** A resume of a paused replay plays on from the position it was paused at, or finishes
      once if nothing is left; otherwise it does nothing. */
  lemma ResumeIs<T>(s: Player<T>, now: int)
    requires s.speed > 0.0
    ensures var o := Resume(s, now);
      && o.emitted == []
      && if !(s.running && s.paused) then o.player == s && o.finished == 0
         else if s.nextIndex < |s.records| then
           && o.finished == 0 && PlaysFrom(o.player, s.baseNs, now)
           && o.player.nextIndex == s.nextIndex && o.player.records == s.records
         else o.finished == 1 && !o.player.running && !o.player.paused
  {
  }

  /** Whether it plays, is paused or is stopped, a seek puts the position at the place
      asked for, within the recording.  A playing replay plays on from there, or finishes
      once if that is the end. */
  lemma SeekIs<T>(s: Player<T>, position: int, now: int)
    requires s.speed > 0.0 && |s.records| > 0 && Duration(s.records) >= 0
    ensures var o := Seek(s, position, now);
      var at := if position < 0 then 0 else if position > Duration(s.records) then Duration(s.records) else position;
      && o.emitted == [] && o.player.records == s.records && Position(o.player, now) == at
      && o.player.nextIndex == SeekIndex(s, position)
      && (if !(s.running && !s.paused) then
            && o.finished == 0 && o.player.running == s.running && o.player.paused == s.paused && o.player.timer.None?
          else if SeekIndex(s, position) < |s.records| then o.finished == 0 && PlaysFrom(o.player, at, now)
          else o.finished == 1 && !o.player.running)
  {
    MediaFromZero(s.speed);
  }

  lemma SeekNeedsRecords<T>(s: Player<T>, position: int, now: int)
    requires s.speed > 0.0 && |s.records| == 0
    ensures Seek(s, position, now) == Outcome(s, [], 0)
  {
  }

  /** A speed change while playing plays on from the position it had; a paused or stopped
      replay keeps its place and its timer. */
  lemma SpeedKeepsPlaying<T>(s: Player<T>, speed: real, now: int)
    requires 0.0 < speed <= 100.0 && (s.running && !s.paused ==> s.nextIndex < |s.records|)
    ensures var t := SetSpeed(s, speed, now);
      && t.records == s.records && t.nextIndex == s.nextIndex && t.running == s.running && t.paused == s.paused
      && (if s.running && !s.paused then PlaysFrom(t, Position(s, now), now) else t.timer == s.timer)
  {
  }

  /** A tick that plays the last records stands at the end; any other goes on as it was. */
  lemma TickIs<T>(s: Player<T>, batch: nat, now: int)
    requires s.speed > 0.0 && s.running && s.nextIndex < |s.records|
    ensures var o := Tick(s, batch, now);
      var last := s.nextIndex + (if s.mode.Fast? then batch else 1);
      if last < |s.records| then
        && o.player.nextIndex == last && o.finished == 0 && o.player.running && o.player.timer.Some?
        && o.player.baseNs == s.baseNs && o.player.clockStart == s.clockStart
      else
        && o.player.nextIndex == |s.records| && o.finished == 1 && !o.player.running && o.player.timer.None?
        && Position(o.player, now) == s.records[|s.records| - 1].timestampNs
  {
  }

  /** A player without a recording stands at zero. */
  lemma EmptyStandsAtZero<T>(now: int)
    ensures Position(New<T>(), now) == 0 && Duration<T>([]) == 0
  {
  }

  // ---- Position over runs ----------------------------------------------------

  lemma BoundedPosition<T>(s: Player<T>, before: int, now: int)
    requires Ok(s, before) && before <= now
    ensures 0 <= Position(s, now) <= Duration(s.records)
  {
    PositionFromBase(s, before, now);
  }

  /** Pausing, resuming and changing the speed leave the position where it is. */
  lemma ControlKeepsPosition<T>(s: Player<T>, e: Event, batch: nat, before: int)
    requires Ok(s, before) && before <= e.now && batch > 0
    requires e.step.Pausing? || e.step.Resuming? || e.step.Speeding?
    ensures Position(Do(s, e, batch, before).player, e.now) == Position(s, e.now)
  {
    PositionFromBase(s, before, e.now);
    var t := Do(s, e, batch, before).player;
    if t != s {
      PositionAtRestart(t, e.now);
    }
  }

  lemma TickKeepsPosition<T>(s: Player<T>, batch: nat, before: int, now: int)
    requires Ok(s, before) && before <= now && s.timer.Some? && now >= s.timer.value && batch > 0
    ensures Position(s, now) <= Position(Tick(s, batch, now).player, now)
  {
    PositionFromBase(s, before, now);
  }

  /** Between seeks, stops and restarts the position never falls. */
  lemma {:induction false} PositionNeverFalls<T>(s: Player<T>, before: int, events: seq<Event>, batch: nat)
    requires Runs(s, before, events, batch) && AllStraight(events) && batch > 0
    ensures Position(s, before) <= Position(Play(s, before, events, batch).player, End(before, events))
    decreases |events|
  {
    if events != [] {
      var e := events[0];
      var one := Do(s, e, batch, before).player;
      PositionGrows(s, before, before, e.now);
      if e.step.Ticking? {
        TickKeepsPosition(s, batch, before, e.now);
      } else {
        ControlKeepsPosition(s, e, batch, before);
      }
      PositionNeverFalls(one, e.now, events[1..], batch);
      assert End(before, events) == End(e.now, events[1..]);
    }
  }

  /** A stop alone can move the position back, and this is exactly when it does not:
      when nothing is being played, or no media time has passed since the clock was
      last restarted. */
  lemma StopKeepsPositionIff<T>(s: Player<T>, before: int, now: int)
    requires Ok(s, before) && before <= now
    ensures Position(Stop(s), now) == Position(s, now) <==>
      !s.running || s.paused || s.baseNs == Duration(s.records) || Media(now - s.clockStart, s.speed) == 0
  {
    if s.running && !s.paused { MediaNotNegative(now - s.clockStart, s.speed); }
  }

  /** For instance, one second into a recording of two. */
  lemma StopFallsBack()
    ensures var s :=
      Player([Record(0, 0), Record(2_000_000_000, 1)], 1, Realtime, 1.0, 0, 0, Some(2_000_000_000), true, false);
      Ok(s, 0) && Position(s, 1_000_000_000) == 1_000_000_000 && Position(Stop(s), 1_000_000_000) == 0
  {
    assert 1_000_000_000.0 * 1.0 == 1_000_000_000.0;
    assert 2_000_000_000.0 / 1.0 == 2_000_000_000.0;
  }

  // ---- Timing ----------------------------------------------------------------

  lemma PositionReaches(base: int, t: int, elapsed: int, speed: real)
    requires speed > 0.0 && base <= t && elapsed >= Target(t - base, speed)
    ensures (base + Media(elapsed, speed)) as real > t as real - (speed + 1.0)
  {
    var relative := (t - base) as real;
    assert (Target(t - base, speed)) as real > relative / speed - 1.0;
    MediaReaches(relative, elapsed as real, speed);
  }

  /** In real time, with a timer that never fires early, a record is emitted only when
      the position has come within (speed + 1) nanoseconds of its timestamp, or later. */
  lemma RecordsAreNotEarly<T>(s: Player<T>, batch: nat, before: int, now: int)
    requires Ok(s, before) && s.mode.Realtime? && before <= now && s.timer.Some? && now >= s.timer.value
    ensures Tick(s, batch, now).emitted == [s.records[s.nextIndex]]
    ensures Position(s, now) as real > s.records[s.nextIndex].timestampNs as real - (s.speed + 1.0)
  {
    var t, elapsed := s.records[s.nextIndex].timestampNs, now - s.clockStart;
    if s.baseNs <= t {
      PositionReaches(s.baseNs, t, elapsed, s.speed);
    } else {
      MediaNotNegative(elapsed, s.speed);
    }
  }

  /** A timer that fires when nothing runs emits nothing and changes nothing else. */
  lemma IdleTick<T>(s: Player<T>, batch: nat, now: int)
    requires s.speed > 0.0 && s.nextIndex <= |s.records| && !s.running
    ensures Tick(s, batch, now) == Outcome(s.(timer := None), [], 0)
  {
  }

  /** After loading nothing plays and the position is zero; the records are those of the
      file with times from the first, or none when the file cannot be replayed. */
  lemma LoadedIs<T>(s: Player<T>, lines: Option<seq<Line<T>>>, now: int)
    ensures var t := Loaded(s, lines);
      && !t.running && !t.paused && t.timer.None? && Position(t, now) == 0
      && (lines.None? || !Playable(lines.value) ==> t.records == [])
      && (lines.Some? && Playable(lines.value) ==>
            && |t.records| == |Stamped(lines.value)|
            && forall i :: 0 <= i < |t.records| ==>
                 var stamped := Stamped(lines.value);
                 && t.records[i].item == stamped[i].item
                 && t.records[i].timestampNs + stamped[0].timestampNs == stamped[i].timestampNs)
  {
  }
}
