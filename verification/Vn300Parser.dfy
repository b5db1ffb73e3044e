/** The stream parser object, and what its three counters count: positions of the byte
    history, each for its reason. */
module Vn300Parser {
  import opened Bits
  import opened Crc
  import opened Vn300Layout
  import opened Vn300Header
  import opened StreamScan
  import opened Vn300Stream

  // ---- What is counted -------------------------------------------------------

  /** How many bytes of the history have been decided. */
  ghost function Decided(history: seq<Byte>): nat {
    BufferIsTiled(Front, history);
    |history| - |Scan(Front, history).rest|
  }

  /** The decided positions that no accepted packet covers. */
  ghost function Open(history: seq<Byte>): set<nat> {
    set i | 0 <= i < Decided(history) && !Inside(Places(Front, history, 0), i)
  }

  ghost function MalformedAt(history: seq<Byte>): set<nat> {
    set i | i in Open(history) && i <= |history| && Malformed(history, i)
  }

  ghost function CorruptedAt(history: seq<Byte>): set<nat> {
    set i | i in Open(history) && i <= |history| && WholePacket(history, i, false)
  }

  ghost function AcceptedAt(history: seq<Byte>): set<nat> {
    set i | i in Open(history) && i <= |history| && WholePacket(history, i, true)
  }

  predicate IsPacket(s: Segment) { s.Packet? }

  predicate IsCrcError(s: Segment) { s.CrcError? }

  predicate IsFormatError(s: Segment) { s.FormatError? }

  lemma {:induction false} CountedBySort(t: Tally, segments: seq<Segment>)
    ensures CountFrom(t, segments) == Tally(t.valid + Count(segments, IsPacket),
      t.crcErrors + Count(segments, IsCrcError), t.formatErrors + Count(segments, IsFormatError))
    decreases |segments|
  {
    if segments != [] { CountedBySort(CountOne(t, segments[0]), segments[1..]); }
  }

  /** The open positions are those where a segment was taken. */
  lemma OpenIsTaken(history: seq<Byte>, i: nat)
    ensures i in Open(history) <==> Begins(Places(Front, history, 0), i)
  {
    var places := Places(Front, history, 0);
    BufferIsTiled(Front, history);
    StartsAfter(places, 0, Decided(history));
    if i < Decided(history) { StartsIffNotInside(places, 0, Decided(history), i); }
  }

  /** The sort of the segment at a place, from the history alone. */
  lemma SortIff(history: seq<Byte>, p: Placed<Segment>)
    requires PlacedRight(p, history)
    ensures IsFormatError(p.segment) <==> Malformed(history, p.start)
    ensures IsCrcError(p.segment) <==> WholePacket(history, p.start, false)
    ensures IsPacket(p.segment) <==> WholePacket(history, p.start, true)
  {
  }

  /** What starts at an open position is what the history says of it. */
  lemma SortsAtPlaces(history: seq<Byte>, i: nat)
    ensures i in Starts(Places(Front, history, 0), IsFormatError) <==> i in MalformedAt(history)
    ensures i in Starts(Places(Front, history, 0), IsCrcError) <==> i in CorruptedAt(history)
    ensures i in Starts(Places(Front, history, 0), IsPacket) <==> i in AcceptedAt(history)
  {
    var places := Places(Front, history, 0);
    OpenIsTaken(history, i);
    EveryPlaceIsRight(history);
    forall p | p in places ensures PlacedRight(p, history) {}
    forall p | p in places
      ensures IsFormatError(p.segment) <==> Malformed(history, p.start)
      ensures IsCrcError(p.segment) <==> WholePacket(history, p.start, false)
      ensures IsPacket(p.segment) <==> WholePacket(history, p.start, true)
    {
      SortIff(history, p);
    }
    if i in Open(history) {
      var k :| 0 <= k < |places| && places[k].start == i;
      assert places[k] in places;
    }
  }

  /** The three counts of one pass over a history: the open positions with an accepted
      packet, with a whole packet whose checksum is bad, and with a malformed header. */
  lemma CountsOfScan(history: seq<Byte>)
    ensures CountFrom(Tally(0, 0, 0), Scan(Front, history).segments)
      == Tally(|AcceptedAt(history)|, |CorruptedAt(history)|, |MalformedAt(history)|)
  {
    forall i: nat
      ensures i in Starts(Places(Front, history, 0), IsFormatError) <==> i in MalformedAt(history)
      ensures i in Starts(Places(Front, history, 0), IsCrcError) <==> i in CorruptedAt(history)
      ensures i in Starts(Places(Front, history, 0), IsPacket) <==> i in AcceptedAt(history)
    {
      SortsAtPlaces(history, i);
    }
    CountedBySort(Tally(0, 0, 0), Scan(Front, history).segments);
    CountIsAt(history, IsPacket, AcceptedAt(history));
    CountIsAt(history, IsCrcError, CorruptedAt(history));
    CountIsAt(history, IsFormatError, MalformedAt(history));
  }

  lemma CountIsAt(history: seq<Byte>, q: Segment -> bool, at: set<nat>)
    requires forall i: nat :: i in Starts(Places(Front, history, 0), q) <==> i in at
    ensures Count(Scan(Front, history).segments, q) == |at|
  {
    BufferIsTiled(Front, history);
    PlacesAreTheSegments(Front, history, 0);
    CountIsStarts(Places(Front, history, 0), Scan(Front, history).segments, 0, Decided(history), q);
    assert Starts(Places(Front, history, 0), q) == at;
  }

  /** A counter of each sort, and nothing counted twice. */
  ghost predicate Counts(history: seq<Byte>, valid: nat, crcErrors: nat, formatErrors: nat) {
    && valid == |AcceptedAt(history)| && crcErrors == |CorruptedAt(history)|
    && formatErrors == |MalformedAt(history)|
  }

  class Vn300BinaryParser {
    var buffer: seq<Byte>
    var validPacketCount: nat
    var crcErrorCount: nat
    var formatErrorCount: nat
    /** Every byte consumed since construction or the last reset. */
    ghost var history: seq<Byte>

    ghost predicate Valid()
      reads this
    {
      && buffer == Scan(Front, history).rest
      && Tally(validPacketCount, crcErrorCount, formatErrorCount)
        == CountFrom(Tally(0, 0, 0), Scan(Front, history).segments)
    }

    constructor ()
      ensures Valid() && history == []
    {
      buffer, history := [], [];
      validPacketCount, crcErrorCount, formatErrorCount := 0, 0, 0;
    }

    method Reset()
      modifies this
      ensures Valid() && history == []
    {
      buffer, history := [], [];
      validPacketCount, crcErrorCount, formatErrorCount := 0, 0, 0;
    }

    function Counters(): Tally
      reads this
    {
      Tally(validPacketCount, crcErrorCount, formatErrorCount)
    }

    /** Drops the bytes before the next sync byte, or all of them. */
    method SkipToSync() returns (ghost noise: seq<Byte>)
      modifies this`buffer
      ensures old(buffer) == noise + buffer && SYNC !in noise
      ensures buffer == [] || buffer[0] == SYNC
    {
      var sync := IndexOfSync(buffer);
      if sync < 0 {
        noise := buffer;
        buffer := [];
      } else {
        noise := buffer[..sync];
        if sync > 0 { buffer := buffer[sync..]; }
      }
    }

    /** Counts a decision that took bytes and decodes an accepted packet. */
    method Account(segment: Segment, timestampNs: int) returns (samples: seq<Sample>)
      requires segment.Packet? ==> segment.header.size + Width(segment.header.Layout()) <= |segment.packet|
      modifies this`validPacketCount, this`crcErrorCount, this`formatErrorCount
      ensures samples == Stamp(segment.Readings(), timestampNs)
      ensures Counters() == CountOne(old(Counters()), segment)
    {
      samples := [];
      match segment {
        case Noise(_) =>
        case FormatError(_) => formatErrorCount := formatErrorCount + 1;
        case CrcError(_) => crcErrorCount := crcErrorCount + 1;
        case Packet(packet, header) =>
          samples := DecodePacket(header, packet, timestampNs);
          validPacketCount := validPacketCount + 1;
      }
    }

    /** One round of the loop in `Consume`. */
    method Round(timestampNs: int) returns (again: bool, samples: seq<Sample>, ghost passed: seq<Segment>)
      modifies this`buffer, this`validPacketCount, this`crcErrorCount, this`formatErrorCount
      ensures Scan(Front, old(buffer)) == Prepend(passed, Scan(Front, buffer))
      ensures samples == Stamp(AllReadings(passed), timestampNs)
      ensures Counters() == CountFrom(old(Counters()), passed)
      ensures if again then |buffer| < |old(buffer)| else Scan(Front, buffer) == Trace([], buffer)
    {
      ghost var noise := SkipToSync();
      passed := NoiseOf(noise);
      FrontDropsNoise();
      SkippingNoise(Front, noise, buffer);
      NoiseCountsNothing(Counters(), noise);
      if buffer == [] { return false, [], passed; }
      var d := DecideFront(buffer);
      if d.Wait? { return false, [], passed; }
      RoundIsOneDecision(noise, buffer, d, Counters());
      passed := NoiseOf(noise) + [d.segment];
      samples := Account(d.segment, timestampNs);
      buffer := buffer[d.size..];
      again := true;
    }

    /** The samples of a call are those of the packets its bytes completed; the
        state afterwards is that of one scan over the whole history. */
    method Consume(bytes: seq<Byte>, timestampNs: int) returns (output: seq<Sample>)
      requires Valid()
      modifies this
      ensures Valid()
      ensures history == old(history) + bytes
      ensures Scan(Front, history).segments
        == old(Scan(Front, history).segments) + Scan(Front, old(buffer) + bytes).segments
      ensures output == Stamp(AllReadings(Scan(Front, old(buffer) + bytes).segments), timestampNs)
      ensures Counts(history, validPacketCount, crcErrorCount, formatErrorCount)
    {
      FrontIsSteady();
      ScanInTwoParts(Front, history, bytes);
      ghost var earlier := Scan(Front, history).segments;
      buffer := buffer + bytes;
      history := history + bytes;
      ghost var total := Scan(Front, buffer);
      SegmentsConcat(Tally(0, 0, 0), earlier, total.segments);
      output := [];
      ghost var start := Counters();
      ghost var done: seq<Segment> := [];
      var again := true;
      while again
        invariant history == old(history) + bytes
        invariant total == Prepend(done, Scan(Front, buffer))
        invariant output == Stamp(AllReadings(done), timestampNs)
        invariant Counters() == CountFrom(start, done)
        invariant !again ==> Scan(Front, buffer) == Trace([], buffer)
        decreases again, |buffer|
      {
        ghost var passed;
        var samples;
        again, samples, passed := Round(timestampNs);
        PrependAssociates(done, passed, Scan(Front, buffer));
        SegmentsConcat(start, done, passed);
        StampConcat(AllReadings(done), AllReadings(passed), timestampNs);
        output := output + samples;
        done := done + passed;
      }
      assert done + [] == done;
      CountsOfScan(history);
    }
  }
}
