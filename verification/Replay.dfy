/** The replay engine behind both replay sources: a sorted list of records played
    against a clock, in batches or in real time. */
module Replay {
  import opened Options

  datatype Record<T> = Record(timestampNs: int, item: T)

  datatype Mode = Realtime | Fast

  /** `timer` is the time at which the single-shot timer is due, if it is running. */
  datatype Player<T> = Player(records: seq<Record<T>>, nextIndex: nat, mode: Mode, speed: real, baseNs: int,
    clockStart: int, timer: Option<int>, running: bool, paused: bool)

  function New<T>(): Player<T> { Player([], 0, Realtime, 1.0, 0, 0, None, false, false) }

  const NS_PER_MS := 1_000_000

  function Duration<T>(records: seq<Record<T>>): int {
    if records == [] then 0 else records[|records| - 1].timestampNs
  }

  /** Media time that passes in `elapsed` nanoseconds; the cast truncates. */
  function Media(elapsed: int, speed: real): int { (elapsed as real * speed).Floor }

  /** Clock time after which `relative` nanoseconds of media have passed. */
  function Target(relative: int, speed: real): int
    requires speed > 0.0
  {
    (relative as real / speed).Floor
  }

  function Min(a: int, b: int): int { if a < b then a else b }
  function Max(a: int, b: int): int { if a < b then b else a }

  function Position<T>(s: Player<T>, now: int): int {
    if !s.running || s.paused then s.baseNs
    else Min(Duration(s.records), s.baseNs + Media(now - s.clockStart, s.speed))
  }

  function CeilingMs(ns: int): int { (ns + NS_PER_MS - 1) / NS_PER_MS }

  function Relative<T>(s: Player<T>): int
    requires s.nextIndex < |s.records|
  {
    Max(0, s.records[s.nextIndex].timestampNs - s.baseNs)
  }

  /** Arms the timer for the next record. */
  function Schedule<T>(s: Player<T>, now: int): Player<T>
    requires s.nextIndex < |s.records| && s.speed > 0.0
  {
    if s.mode.Fast? then s.(timer := Some(now))
    else
      var remaining := Max(0, Target(Relative(s), s.speed) - (now - s.clockStart));
      s.(timer := Some(now + CeilingMs(remaining) * NS_PER_MS))
  }

  /** The first record at or after a position. */
  function LowerBound<T>(records: seq<Record<T>>, position: int): (r: nat)
    ensures r <= |records|
    ensures forall i :: 0 <= i < r ==> records[i].timestampNs < position
    ensures r < |records| ==> records[r].timestampNs >= position
  {
    if records == [] || records[0].timestampNs >= position then 0 else 1 + LowerBound(records[1..], position)
  }

  datatype Outcome<T> = Outcome(player: Player<T>, emitted: seq<Record<T>>, finished: nat)

  function Quiet<T>(s: Player<T>): Outcome<T> { Outcome(s, [], 0) }

  predicate StartsAt<T>(s: Player<T>, speed: real) { s.records != [] && speed > 0.0 }

  function Start<T>(s: Player<T>, mode: Mode, speed: real, now: int): Player<T> {
    if !StartsAt(s, speed) then s
    else Player(s.records, 0, mode, speed, 0, now, Some(now), true, false)
  }

  function Stop<T>(s: Player<T>): Player<T> { s.(timer := None, running := false, paused := false) }

  function Pause<T>(s: Player<T>, now: int): Player<T> {
    if !s.running || s.paused then s else s.(baseNs := Position(s, now), timer := None, paused := true)
  }

  function Resume<T>(s: Player<T>, now: int): Outcome<T>
    requires s.speed > 0.0
  {
    if !s.running || !s.paused then Quiet(s)
    else if s.nextIndex >= |s.records| then Outcome(s.(running := false, paused := false), [], 1)
    else Quiet(Schedule(s.(paused := false, clockStart := now), now))
  }

  function Bounded<T>(s: Player<T>, position: int): int { Max(0, Min(position, Duration(s.records))) }

  /** Where a seek continues: at the end nothing is left to play. */
  function SeekIndex<T>(s: Player<T>, position: int): (r: nat)
    ensures r <= |s.records|
  {
    if Bounded(s, position) >= Duration(s.records) then |s.records| else LowerBound(s.records, Bounded(s, position))
  }

  function Seek<T>(s: Player<T>, position: int, now: int): Outcome<T>
    requires s.speed > 0.0
  {
    if s.records == [] then Quiet(s)
    else
      var t := s.(baseNs := Bounded(s, position), nextIndex := SeekIndex(s, position), timer := None);
      if !t.running || t.paused then Quiet(t)
      else if t.nextIndex >= |t.records| then Outcome(t.(clockStart := now, running := false), [], 1)
      else Quiet(Schedule(t.(clockStart := now), now))
  }

  predicate SpeedAllowed(speed: real) { 0.0 < speed <= 100.0 }

  function SetSpeed<T>(s: Player<T>, speed: real, now: int): Player<T>
    requires s.running && !s.paused ==> s.nextIndex < |s.records|
  {
    if !SpeedAllowed(speed) then s
    else
      var t := s.(speed := speed, baseNs := Position(s, now));
      if t.running && !t.paused then Schedule(t.(clockStart := now), now) else t
  }

  function BatchEnd<T>(s: Player<T>, batch: nat): int {
    Min(s.nextIndex + if s.mode.Fast? then batch else 1, |s.records|)
  }

  /** The timer has fired. */
  function Tick<T>(s: Player<T>, batch: nat, now: int): Outcome<T>
    requires s.speed > 0.0 && s.nextIndex <= |s.records|
  {
    var fired := s.(timer := None);
    if !s.running then Quiet(fired)
    else
      var end := BatchEnd(s, batch);
      var emitted := s.records[s.nextIndex..end];
      if end >= |s.records|
      then Outcome(fired.(nextIndex := end, baseNs := Duration(s.records), running := false), emitted, 1)
      else Outcome(Schedule(fired.(nextIndex := end), now), emitted, 0)
  }

  // ---- Loading ---------------------------------------------------------------

  /** A line of a capture file as the codec sees it. */
  datatype Line<T> = Ignored | Malformed | Parsed(timestampNs: nat, item: T)

  /** The well-formed lines, with the timestamps of the file. */
  function Stamped<T>(lines: seq<Line<T>>): seq<Record<T>> {
    if lines == [] then []
    else
      var before, last := Stamped(lines[..|lines| - 1]), lines[|lines| - 1];
      if last.Parsed? then before + [Record(last.timestampNs, last.item)] else before
  }

  ghost predicate InTimeOrder<T>(records: seq<Record<T>>) {
    forall i, j :: 0 <= i < j < |records| ==> records[i].timestampNs <= records[j].timestampNs
  }

  /** A file that can be replayed. */
  ghost predicate Playable<T>(lines: seq<Line<T>>) {
    (forall i :: 0 <= i < |lines| ==> !lines[i].Malformed?) && InTimeOrder(Stamped(lines))
  }

  /** Times counted from the first record. */
  function FromFirst<T>(records: seq<Record<T>>): (r: seq<Record<T>>)
    ensures |r| == |records|
    ensures forall i :: 0 <= i < |r| ==>
      r[i] == Record(records[i].timestampNs - records[0].timestampNs, records[i].item)
  {
    seq(|records|,
        i requires 0 <= i < |records| => Record(records[i].timestampNs - records[0].timestampNs, records[i].item))
  }

  /** What loading a file leaves of a player, whether the file can be replayed or not. */
  ghost function Loaded<T>(s: Player<T>, lines: Option<seq<Line<T>>>): Player<T> {
    var ok := lines.Some? && Playable(lines.value) && Stamped(lines.value) != [];
    Stop(s).(records := if ok then FromFirst(Stamped(lines.value)) else [], baseNs := 0)
  }

  // ---- The replay object -----------------------------------------------------

  class ReplaySource<T> {
    const batchSize: nat
    var records: seq<Record<T>>
    var nextIndex: nat
    var timingMode: Mode
    var speedFactor: real
    var playbackBaseNs: int
    var clockStart: int
    var timer: Option<int>
    var running: bool
    var paused: bool

    function State(): Player<T>
      reads this
    {
      Player(records, nextIndex, timingMode, speedFactor, playbackBaseNs, clockStart, timer, running, paused)
    }

    ghost predicate Valid()
      reads this
    {
      speedFactor > 0.0 && (running ==> nextIndex <= |records|) && (running && !paused ==> nextIndex < |records|)
    }

    constructor (batchSize: nat)
      requires batchSize > 0
      ensures Valid() && State() == New() && this.batchSize == batchSize
    {
      this.batchSize := batchSize;
      records, nextIndex, timingMode, speedFactor, playbackBaseNs := [], 0, Realtime, 1.0, 0;
      clockStart, timer, running, paused := 0, None, false, false;
    }

    /** `lines` is absent when the file cannot be opened. */
    method Load(lines: Option<seq<Line<T>>>) returns (ok: bool)
      requires Valid()
      modifies this
      ensures Valid()
      ensures ok <==> lines.Some? && Playable(lines.value) && Stamped(lines.value) != []
      ensures State() == Loaded(old(State()), lines)
    {
      StopReplay();
      records, playbackBaseNs := [], 0;
      if lines.None? { return false; }
      var read;
      ok, read := ReadLines(lines.value);
      if ok { records := read; }
      ok := records != [];
    }

    method StopReplay()
      requires Valid()
      modifies this
      ensures Valid() && State() == Stop(old(State()))
    {
      timer, running, paused := None, false, false;
    }

    method StartReplay(mode: Mode, speed: real, now: int) returns (ok: bool)
      requires Valid()
      modifies this
      ensures Valid() && ok == StartsAt(old(State()), speed)
      ensures State() == Start(old(State()), mode, speed, now)
    {
      if records == [] || speed <= 0.0 { return false; }
      StopReplay();
      timingMode, speedFactor, nextIndex, playbackBaseNs, running, paused := mode, speed, 0, 0, true, false;
      clockStart, timer := now, Some(now);
      return true;
    }

    method PauseReplay(now: int)
      requires Valid()
      modifies this
      ensures Valid() && State() == Pause(old(State()), now)
    {
      if !running || paused { return; }
      playbackBaseNs := Position(State(), now);
      timer, paused := None, true;
    }

    method ScheduleNext(now: int)
      requires Valid() && nextIndex < |records|
      modifies this`timer
      ensures State() == Schedule(old(State()), now)
    {
      if timingMode.Fast? { timer := Some(now); return; }
      var relativeMediaNs := Max(0, records[nextIndex].timestampNs - playbackBaseNs);
      var targetNs := Target(relativeMediaNs, speedFactor);
      var remainingNs := Max(0, targetNs - (now - clockStart));
      timer := Some(now + CeilingMs(remainingNs) * NS_PER_MS);
    }

    method ResumeReplay(now: int) returns (finished: nat)
      requires Valid()
      modifies this
      ensures Valid() && Outcome(State(), [], finished) == Resume(old(State()), now)
    {
      if !running || !paused { return 0; }
      if nextIndex >= |records| {
        running, paused := false, false;
        return 1;
      }
      paused, clockStart := false, now;
      ScheduleNext(now);
      return 0;
    }

    method SeekToNs(position: int, now: int) returns (ok: bool, finished: nat)
      requires Valid()
      modifies this
      ensures Valid() && ok == (old(records) != [])
      ensures Outcome(State(), [], finished) == Seek(old(State()), position, now)
    {
      if records == [] { return false, 0; }
      var bounded := Bounded(State(), position);
      nextIndex := if bounded >= Duration(records) then |records| else LowerBound(records, bounded);
      playbackBaseNs, timer := bounded, None;
      if running && !paused {
        clockStart := now;
        if nextIndex >= |records| {
          running := false;
          return true, 1;
        }
        ScheduleNext(now);
      }
      return true, 0;
    }

    method SetSpeedFactor(speed: real, now: int) returns (ok: bool)
      requires Valid()
      modifies this
      ensures Valid() && ok == SpeedAllowed(speed)
      ensures State() == SetSpeed(old(State()), speed, now)
    {
      if !SpeedAllowed(speed) { return false; }
      var currentPosition := Position(State(), now);
      speedFactor, playbackBaseNs := speed, currentPosition;
      if running && !paused {
        clockStart, timer := now, None;
        ScheduleNext(now);
      }
      return true;
    }

    method EmitNextBatch(now: int) returns (emitted: seq<Record<T>>, finished: nat)
      requires Valid() && nextIndex <= |records|
      modifies this
      ensures Valid() && Outcome(State(), emitted, finished) == Tick(old(State()), batchSize, now)
    {
      emitted, finished := [], 0;
      timer := None;
      if !running { return; }
      var endIndex := Min(nextIndex + (if timingMode.Fast? then batchSize else 1), |records|);
      ghost var first := nextIndex;
      while nextIndex < endIndex
        invariant State() == old(State()).(timer := None, nextIndex := nextIndex)
        invariant first <= nextIndex <= endIndex <= |records|
        invariant emitted == records[first..nextIndex]
      {
        SliceNext(records, first, nextIndex);
        emitted := emitted + [records[nextIndex]];
        nextIndex := nextIndex + 1;
      }
      if nextIndex >= |records| {
        playbackBaseNs, running := Duration(records), false;
        return emitted, 1;
      }
      ScheduleNext(now);
    }
  }

  lemma SliceNext<T>(s: seq<T>, i: nat, j: nat)
    requires i <= j < |s|
    ensures s[i..j] + [s[j]] == s[i..j + 1]
  {
  }

  lemma {:induction false} StampedIsPrefix<T>(lines: seq<Line<T>>, n: nat)
    requires n <= |lines|
    ensures Stamped(lines[..n]) <= Stamped(lines)
    decreases |lines| - n
  {
    if n == |lines| {
      assert lines[..n] == lines;
    } else {
      assert lines[..n + 1][..n] == lines[..n];
      StampedIsPrefix(lines, n + 1);
    }
  }

  lemma StampedNext<T>(lines: seq<Line<T>>, i: nat)
    requires i < |lines|
    ensures Stamped(lines[..i + 1])
      == Stamped(lines[..i]) + if lines[i].Parsed? then [Record(lines[i].timestampNs, lines[i].item)] else []
  {
    assert lines[..i + 1][..i] == lines[..i];
  }

  /** One more line keeps a file playable unless it is malformed or older than the last. */
  lemma PlayableNext<T>(lines: seq<Line<T>>, i: nat)
    requires i < |lines| && Playable(lines[..i])
    ensures var before := Stamped(lines[..i]);
      Playable(lines[..i + 1]) <==>
        && !lines[i].Malformed?
        && (lines[i].Parsed? && before != [] ==> before[|before| - 1].timestampNs <= lines[i].timestampNs)
  {
    StampedNext(lines, i);
    assert forall j :: 0 <= j < i ==> lines[..i + 1][j] == lines[..i][j];
    if !lines[i].Malformed? && lines[i].Parsed? {
      OneMoreInOrder(Stamped(lines[..i]), Record(lines[i].timestampNs, lines[i].item));
    }
  }

  lemma OneMoreInOrder<T>(records: seq<Record<T>>, last: Record<T>)
    requires InTimeOrder(records)
    ensures InTimeOrder(records + [last])
      <==> (records != [] ==> records[|records| - 1].timestampNs <= last.timestampNs)
  {
    var all := records + [last];
    if InTimeOrder(all) && records != [] {
      assert all[|records| - 1].timestampNs <= all[|records|].timestampNs;
    }
  }

  lemma Unplayable<T>(lines: seq<Line<T>>, n: nat)
    requires n <= |lines| && !Playable(lines[..n])
    ensures !Playable(lines)
  {
    StampedIsPrefix(lines, n);
  }

  lemma FromFirstNext<T>(records: seq<Record<T>>, last: Record<T>)
    ensures FromFirst(records + [last]) == FromFirst(records)
      + [Record(last.timestampNs - if records == [] then last.timestampNs else records[0].timestampNs, last.item)]
  {
  }

  /** The loop over the lines of a file. */
  method ReadLines<T>(lines: seq<Line<T>>) returns (ok: bool, records: seq<Record<T>>)
    ensures ok <==> Playable(lines)
    ensures ok ==> records == FromFirst(Stamped(lines))
  {
    records := [];
    var firstTimestampNs, previousTimestampNs := -1, -1;
    ghost var read := [];
    for i := 0 to |lines|
      invariant Playable(lines[..i]) && read == Stamped(lines[..i]) && records == FromFirst(read)
      invariant read == [] ==> firstTimestampNs == previousTimestampNs == -1
      invariant read != [] ==> 0 <= firstTimestampNs == read[0].timestampNs
      invariant read != [] ==> previousTimestampNs == read[|read| - 1].timestampNs
    {
      StampedNext(lines, i);
      PlayableNext(lines, i);
      match lines[i] {
        case Ignored =>
        case Malformed =>
          Unplayable(lines, i + 1);
          return false, [];
        case Parsed(t, item) =>
          if previousTimestampNs > t {
            Unplayable(lines, i + 1);
            return false, [];
          }
          if firstTimestampNs < 0 { firstTimestampNs := t; }
          previousTimestampNs := t;
          FromFirstNext(read, Record(t, item));
          records := records + [Record(t - firstTimestampNs, item)];
          read := read + [Record(t, item)];
      }
    }
    assert lines[..|lines|] == lines;
    ok := true;
  }
}
