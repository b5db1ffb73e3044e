/** Replaying recorded VN300 packets: the replay engine feeding a stream parser that is
    reset at every start and seek. */
module Vn300Replay {
  import opened Bits
  import opened Vn300Layout
  import opened StreamScan
  import opened Vn300Parser
  import opened Vn300Stream
  import opened Replay

  const FAST_BATCH_SIZE := 500

  type Packet = Record<seq<Byte>>

  datatype Signal = SamplesReceived(samples: seq<Sample>) | SourceError

  function SignalOf(samples: seq<Sample>): Signal {
    if samples == [] then SourceError else SamplesReceived(samples)
  }

  /** What is signalled for a row of records when the parser holds `buffer`. */
  ghost function Heard(buffer: seq<Byte>, records: seq<Packet>): seq<Signal>
    decreases |records|
  {
    if records == [] then []
    else
      var t := Scan(Front, buffer + records[0].item);
      [SignalOf(Stamp(AllReadings(t.segments), records[0].timestampNs))] + Heard(t.rest, records[1..])
  }

  /** What the parser holds after them. */
  ghost function BufferAfter(buffer: seq<Byte>, records: seq<Packet>): seq<Byte>
    decreases |records|
  {
    if records == [] then buffer else BufferAfter(Scan(Front, buffer + records[0].item).rest, records[1..])
  }

  function Items(records: seq<Packet>): seq<seq<Byte>> {
    if records == [] then [] else [records[0].item] + Items(records[1..])
  }

  // ---- The replay object -----------------------------------------------------

  class Vn300ReplaySource {
    const replay: ReplaySource<seq<Byte>>
    const parser: Vn300BinaryParser

    ghost predicate Valid()
      reads replay, parser
    {
      replay.Valid() && parser.Valid()
    }

    constructor ()
      ensures Valid() && fresh(replay) && fresh(parser)
      ensures replay.State() == New() && replay.batchSize == FAST_BATCH_SIZE && parser.history == []
    {
      replay := new ReplaySource(FAST_BATCH_SIZE);
      parser := new Vn300BinaryParser();
    }

    method StartReplay(mode: Mode, speed: real, now: int) returns (ok: bool)
      requires Valid()
      modifies replay, parser
      ensures Valid() && ok == StartsAt(old(replay.State()), speed)
      ensures replay.State() == Start(old(replay.State()), mode, speed, now)
      ensures parser.history == if ok then [] else old(parser.history)
    {
      ok := replay.StartReplay(mode, speed, now);
      if ok { parser.Reset(); }
    }

    method SeekToNs(position: int, now: int) returns (ok: bool, finished: nat)
      requires Valid()
      modifies replay, parser
      ensures Valid() && ok == (old(replay.records) != [])
      ensures Outcome(replay.State(), [], finished) == Seek(old(replay.State()), position, now)
      ensures parser.history == if ok then [] else old(parser.history)
    {
      ok, finished := replay.SeekToNs(position, now);
      if ok { parser.Reset(); }
    }

    method EmitNextBatch(now: int) returns (signals: seq<Signal>, finished: nat, ghost played: seq<Packet>)
      requires Valid() && replay.nextIndex <= |replay.records|
      modifies replay, parser
      ensures Valid()
      ensures Outcome(replay.State(), played, finished) == Tick(old(replay.State()), replay.batchSize, now)
      ensures signals == Heard(old(parser.buffer), played)
      ensures parser.buffer == BufferAfter(old(parser.buffer), played)
      ensures parser.history == old(parser.history) + Join(Items(played))
    {
      var records;
      records, finished := replay.EmitNextBatch(now);
      played := records;
      signals := Feed(records);
    }

    /** Each packet goes through the parser on its own. */
    method Feed(records: seq<Packet>) returns (signals: seq<Signal>)
      requires parser.Valid()
      modifies parser
      ensures parser.Valid()
      ensures signals == Heard(old(parser.buffer), records)
      ensures parser.buffer == BufferAfter(old(parser.buffer), records)
      ensures parser.history == old(parser.history) + Join(Items(records))
    {
      signals := [];
      var i := 0;
      assert records[0..] == records;
      ghost var heard, left := Heard(parser.buffer, records), BufferAfter(parser.buffer, records);
      ghost var all := parser.history + Join(Items(records));
      assert [] + heard == heard;
      while i < |records|
        invariant i <= |records| && parser.Valid()
        invariant heard == signals + Heard(parser.buffer, records[i..])
        invariant left == BufferAfter(parser.buffer, records[i..])
        invariant all == parser.history + Join(Items(records[i..]))
      {
        HeardNext(signals, parser.buffer, records, i);
        JoinNext(parser.history, records, i);
        var signal := FeedOne(records[i]);
        signals := signals + [signal];
        i := i + 1;
      }
      assert signals + [] == signals && parser.history + [] == parser.history;
    }

    method FeedOne(record: Packet) returns (signal: Signal)
      requires parser.Valid()
      modifies parser
      ensures parser.Valid()
      ensures signal == HeardOne(old(parser.buffer), record)
      ensures parser.buffer == Scan(Front, old(parser.buffer) + record.item).rest
      ensures parser.history == old(parser.history) + record.item
    {
      GoOn(parser.history, record.item);
      var samples := parser.Consume(record.item, record.timestampNs);
      signal := if samples == [] then SourceError else SamplesReceived(samples);
    }
  }

  ghost function HeardOne(buffer: seq<Byte>, record: Packet): Signal {
    SignalOf(Stamp(AllReadings(Scan(Front, buffer + record.item).segments), record.timestampNs))
  }

  lemma GoOn(history: seq<Byte>, bytes: seq<Byte>)
    ensures Scan(Front, history + bytes).rest == Scan(Front, Scan(Front, history).rest + bytes).rest
  {
    FrontIsSteady();
    ScanInTwoParts(Front, history, bytes);
  }

  lemma HeardNext(signals: seq<Signal>, buffer: seq<Byte>, records: seq<Packet>, i: nat)
    requires i < |records|
    ensures signals + Heard(buffer, records[i..])
      == (signals + [HeardOne(buffer, records[i])])
        + Heard(Scan(Front, buffer + records[i].item).rest, records[i + 1..])
    ensures BufferAfter(buffer, records[i..])
      == BufferAfter(Scan(Front, buffer + records[i].item).rest, records[i + 1..])
  {
    assert records[i..][1..] == records[i + 1..];
    var later := Heard(Scan(Front, buffer + records[i].item).rest, records[i + 1..]);
    assert signals + ([HeardOne(buffer, records[i])] + later) == (signals + [HeardOne(buffer, records[i])]) + later;
  }

  lemma JoinNext(history: seq<Byte>, records: seq<Packet>, i: nat)
    requires i < |records|
    ensures history + Join(Items(records[i..])) == (history + records[i].item) + Join(Items(records[i + 1..]))
  {
    assert records[i..][1..] == records[i + 1..];
    assert Items(records[i..])[1..] == Items(records[i + 1..]);
  }

  // ---- What a replay yields --------------------------------------------------

  /** The readings of a signal, without the time they are stamped with. */
  function ReadingsOf(signal: Signal): seq<Reading> {
    match signal
    case SourceError => []
    case SamplesReceived(samples) => Unstamped(samples)
  }

  function Unstamped(samples: seq<Sample>): (r: seq<Reading>)
    ensures |r| == |samples| && forall i :: 0 <= i < |r| ==> r[i] == samples[i].reading
  {
    if samples == [] then [] else [samples[0].reading] + Unstamped(samples[1..])
  }

  function AllOf(signals: seq<Signal>): seq<Reading> {
    if signals == [] then [] else ReadingsOf(signals[0]) + AllOf(signals[1..])
  }

  lemma HeardOneReadings(buffer: seq<Byte>, record: Packet)
    ensures ReadingsOf(HeardOne(buffer, record)) == AllReadings(Scan(Front, buffer + record.item).segments)
  {
  }

  lemma {:induction false} HeardIsChunked(buffer: seq<Byte>, records: seq<Packet>)
    ensures AllOf(Heard(buffer, records)) == AllReadings(ScanChunks(Front, buffer, Items(records)).segments)
    decreases |records|
  {
    if records != [] {
      var t := Scan(Front, buffer + records[0].item);
      HeardIsChunked(t.rest, records[1..]);
      HeardOneReadings(buffer, records[0]);
      SegmentsConcat(Tally(0, 0, 0), t.segments, ScanChunks(Front, t.rest, Items(records[1..])).segments);
    }
  }

  /** From a start or seek on, the readings signalled are those of one left-to-right scan
      over all packets put together, whatever damaged packets are among them. */
  lemma ReplayIsOneScan(records: seq<Packet>)
    ensures AllOf(Heard([], records)) == AllReadings(Scan(Front, Join(Items(records))).segments)
  {
    HeardIsChunked([], records);
    CutsFromNothing(Items(records));
  }

  /** The record is one whole packet with a good checksum. */
  ghost predicate Sound(record: Packet) {
    Front(record.item).Emit? && Front(record.item).segment.Packet? && Front(record.item).size == |record.item|
  }

  function OwnReadings(record: Packet): seq<Reading> {
    if Front(record.item).Emit? then Front(record.item).segment.Readings() else []
  }

  /** Sound records are signalled one by one, each with its own readings at its own time. */
  lemma {:induction false} SoundRecordsAreSignalled(records: seq<Packet>, i: nat)
    requires i < |records| && forall k :: 0 <= k < |records| ==> Sound(records[k])
    ensures |Heard([], records)| == |records|
    ensures Heard([], records)[i] == SignalOf(Stamp(OwnReadings(records[i]), records[i].timestampNs))
    decreases |records|
  {
    FirstIsHeard(records);
    if |records| > 1 {
      SoundRecordsAreSignalled(records[1..], if i > 0 then i - 1 else 0);
    } else {
      assert records[1..] == [];
    }
  }

  lemma FirstIsHeard(records: seq<Packet>)
    requires records != [] && Sound(records[0])
    ensures Heard([], records)
      == [SignalOf(Stamp(OwnReadings(records[0]), records[0].timestampNs))] + Heard([], records[1..])
  {
    SoundIsTaken(records[0]);
  }

  lemma SoundIsTaken(record: Packet)
    requires Sound(record)
    ensures var t := Scan(Front, [] + record.item);
      t.rest == [] && AllReadings(t.segments) == OwnReadings(record)
  {
    var d := Front(record.item);
    FrontIsSteady();
    assert [] + record.item == record.item;
    ScanOne(Front, record.item, d);
    assert record.item[d.size..] == [];
    ScanNothing(Front, []);
    assert [d.segment] + [] == [d.segment];
    assert [d.segment][1..] == [];
    assert d.segment.Readings() + [] == d.segment.Readings();
  }

  /** Record number `k` of a row is signalled as an error exactly when the packets that end
      in it hold no reading, and otherwise as their readings at the time of the record. */
  lemma {:induction false} SignalIs(buffer: seq<Byte>, records: seq<Packet>, k: nat)
    requires k < |records|
    ensures |Heard(buffer, records)| == |records|
    ensures var readings := AllReadings(Scan(Front, BufferAfter(buffer, records[..k]) + records[k].item).segments);
      match Heard(buffer, records)[k]
      case SourceError => readings == []
      case SamplesReceived(samples) =>
        && readings != [] && |samples| == |readings|
        && forall i :: 0 <= i < |samples| ==> samples[i] == Sample(readings[i], records[k].timestampNs)
    decreases |records|
  {
    var left := Scan(Front, buffer + records[0].item).rest;
    if k == 0 {
      assert records[..0] == [];
      if |records| > 1 { SignalIs(left, records[1..], 0); }
    } else {
      SignalIs(left, records[1..], k - 1);
      assert records[..k][1..] == records[1..][..k - 1];
    }
  }
}
