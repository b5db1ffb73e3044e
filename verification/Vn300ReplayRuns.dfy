/** Whole runs of the VN300 replay: from a start or seek on, the signals of all batches
    together are those of one scan of everything played. */
module Vn300ReplayRuns {
  import opened Bits
  import opened Vn300Layout
  import opened StreamScan
  import opened Vn300Stream
  import opened Replay
  import opened ReplayRuns
  import opened Vn300Replay

  lemma {:induction false} BufferOn(buffer: seq<Byte>, x: seq<Packet>, y: seq<Packet>)
    ensures BufferAfter(buffer, x + y) == BufferAfter(BufferAfter(buffer, x), y)
    decreases |x|
  {
    if x == [] {
      assert x + y == y;
    } else {
      assert (x + y)[1..] == x[1..] + y;
      BufferOn(Scan(Front, buffer + x[0].item).rest, x[1..], y);
    }
  }

  /** What one batch leaves in the parser the next one goes on with. */
  lemma {:induction false} HeardOn(buffer: seq<Byte>, x: seq<Packet>, y: seq<Packet>)
    ensures Heard(buffer, x + y) == Heard(buffer, x) + Heard(BufferAfter(buffer, x), y)
    decreases |x|
  {
    if x == [] {
      assert x + y == y;
    } else {
      assert (x + y)[1..] == x[1..] + y;
      HeardOn(Scan(Front, buffer + x[0].item).rest, x[1..], y);
    }
  }

  type Machine = Player<seq<Byte>>

  /** The step resets the parser. */
  predicate Resets(s: Machine, step: Step) {
    (step.Starting? && StartsAt(s, step.speed)) || (step.Seeking? && s.records != [])
  }

  /** The signals of a run when the parser holds `buffer` before it. */
  ghost function Signalled(s: Machine, before: int, events: seq<Event>, batch: nat,
    buffer: seq<Byte>): seq<Vn300Replay.Signal>
    requires Runs(s, before, events, batch)
    decreases |events|
  {
    if events == [] then []
    else
      var one := Do(s, events[0], batch, before);
      var left := if Resets(s, events[0].step) then [] else BufferAfter(buffer, one.emitted);
      Heard(buffer, one.emitted) + Signalled(one.player, events[0].now, events[1..], batch, left)
  }

  /** Over straight play the batches are heard as if they were one. */
  lemma {:induction false} StraightIsHeard(s: Machine, before: int, events: seq<Event>, batch: nat, buffer: seq<Byte>)
    requires Runs(s, before, events, batch) && AllStraight(events)
    ensures Signalled(s, before, events, batch, buffer) == Heard(buffer, Play(s, before, events, batch).emitted)
    decreases |events|
  {
    if events != [] {
      var one := Do(s, events[0], batch, before);
      var left := BufferAfter(buffer, one.emitted);
      assert Straight(events[0].step);
      StraightIsHeard(one.player, events[0].now, events[1..], batch, left);
      HeardOn(buffer, one.emitted, Play(one.player, events[0].now, events[1..], batch).emitted);
    }
  }

  lemma OneScan(s: Machine, before: int, events: seq<Event>, batch: nat)
    requires Runs(s, before, events, batch) && AllStraight(events)
    ensures AllOf(Signalled(s, before, events, batch, []))
      == AllReadings(Scan(Front, Join(Items(Play(s, before, events, batch).emitted))).segments)
  {
    StraightIsHeard(s, before, events, batch, []);
    ReplayIsOneScan(Play(s, before, events, batch).emitted);
  }

  /** After a start, whatever pauses, resumes and speed changes there are between the
      ticks, the readings signalled are those of one scan of the packets played, which
      are the first ones of the recording; when the replay has ended, all of them. */
  lemma StartedReplayIsOneScan(s: Machine, mode: Mode, speed: real, now: int, events: seq<Event>, batch: nat)
    requires StartsAt(s, speed) && batch > 0
    requires Runs(Start(s, mode, speed, now), now, events, batch) && AllStraight(events)
    ensures var t := Start(s, mode, speed, now);
      var o := Play(t, now, events, batch);
      && AllOf(Signalled(t, now, events, batch, [])) == AllReadings(Scan(Front, Join(Items(o.emitted))).segments)
      && o.emitted <= s.records && (!o.player.running ==> o.emitted == s.records)
  {
    OneScan(Start(s, mode, speed, now), now, events, batch);
    StartPlaysEverything(s, mode, speed, now, events, batch);
  }

  /** After a seek the same holds from the record sought on. */
  lemma SoughtReplayIsOneScan(s: Machine, position: int, before: int, now: int, events: seq<Event>, batch: nat)
    requires Ok(s, before) && before <= now && s.running && batch > 0
    requires Runs(Seek(s, position, now).player, now, events, batch) && AllStraight(events)
    ensures var t := Seek(s, position, now).player;
      var o := Play(t, now, events, batch);
      var rest := s.records[SeekIndex(s, position)..];
      && AllOf(Signalled(t, now, events, batch, [])) == AllReadings(Scan(Front, Join(Items(o.emitted))).segments)
      && o.emitted <= rest && (!o.player.running ==> o.emitted == rest)
  {
    OneScan(Seek(s, position, now).player, now, events, batch);
    SeekPlaysTheRest(s, position, before, now, events, batch);
  }
}
