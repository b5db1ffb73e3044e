/** The resynchronising stream parser.  `Scan` is the reference: one
    left-to-right pass over the whole byte history.  The class consumes the same
    bytes in arbitrary pieces. */
module Vn300Stream {
  import opened Bits
  import opened Crc
  import opened Vn300Layout
  import opened Vn300Header
  import opened StreamScan

  const SYNC: Byte := [false, true, false, true, true, true, true, true]

  function PacketReadings(packet: seq<Byte>, header: Header): seq<Reading> {
    if header.size + Width(header.Layout()) <= |packet|
    then Decode(header.Layout(), packet[header.size..])
    else []
  }

  /** What becomes of the bytes at the front of the stream. */
  datatype Segment =
    | Noise(skipped: Byte)
    | FormatError(dropped: Byte)
    | CrcError(dropped: Byte)
    | Packet(packet: seq<Byte>, header: Header)
  {
    function Bytes(): seq<Byte> {
      match this
      case Packet(packet, _) => packet
      case Noise(b) => [b]
      case FormatError(b) => [b]
      case CrcError(b) => [b]
    }

    function Readings(): seq<Reading> {
      if Packet? then PacketReadings(packet, header) else []
    }
  }

  /** The decision at the front of the buffer. */
  function Front(buf: seq<Byte>): Decision<Segment> {
    if buf == [] then Wait
    else if buf[0] != SYNC then Emit(Noise(buf[0]), 1)
    else
      match ParseHeader(buf)
      case Incomplete => Wait
      case Invalid => Emit(FormatError(buf[0]), 1)
      case Complete(header, payloadSize) =>
        var size := header.size + payloadSize + 2;
        if |buf| < size then Wait
        else if Remainder(buf[1..size]) != Zeros(16) then Emit(CrcError(buf[0]), 1)
        else Emit(Packet(buf[..size], header), size)
  }

  lemma FrontTakesPrefix(buf: seq<Byte>)
    requires Front(buf).Emit?
    ensures 0 < Front(buf).size <= |buf|
    ensures Front(buf).segment.Bytes() == buf[..Front(buf).size]
  {
  }

  lemma FrontIsStable(buf: seq<Byte>, more: seq<Byte>)
    requires Front(buf).Emit?
    ensures Front(buf + more) == Front(buf)
  {
    if buf[0] == SYNC {
      VerdictIsStable(buf, more);
      var v := ParseHeader(buf);
      if v.Complete? {
        var size := v.header.size + v.payloadSize + 2;
        assert (buf + more)[1..size] == buf[1..size];
        assert (buf + more)[..size] == buf[..size];
      }
    }
  }

  /** The parser's decisions are final. */
  lemma FrontIsSteady()
    ensures Steady(Front)
  {
    forall buf | Front(buf).Emit? ensures 0 < Front(buf).size <= |buf| {
      FrontTakesPrefix(buf);
    }
    forall buf, more {:trigger Front(buf + more)} | Front(buf).Emit? ensures Front(buf + more) == Front(buf) {
      FrontIsStable(buf, more);
    }
  }

  lemma FrontDropsNoise()
    ensures DropsNoise(Front)
  {
  }

  /** The parser never waits with 353 bytes that start anywhere in its buffer. */
  lemma FrontIsSettled(buf: seq<Byte>)
    requires |buf| >= 353
    ensures Takes(Front, buf)
  {
    HeaderBounds(buf);
    FrontTakesPrefix(buf);
  }

  lemma WaitingIsShort(buf: seq<Byte>)
    requires buf != [] && Front(buf).Wait?
    ensures |buf| <= 352 && buf[0] == SYNC
  {
    HeaderBounds(buf);
  }

  // ---- Main results on the byte history --------------------------------------

  /** Every cutting of a stream gives the same packets, errors and leftover. */
  lemma CutsOfTheStreamDoNotMatter(history: seq<Byte>, chunks: seq<seq<Byte>>)
    ensures Scan(Front, history + Join(chunks))
      == Prepend(Scan(Front, history).segments, ScanChunks(Front, Scan(Front, history).rest, chunks))
  {
    FrontIsSteady();
    CutsDoNotMatter(Front, history, chunks);
  }

  lemma CutsFromNothing(chunks: seq<seq<Byte>>)
    ensures ScanChunks(Front, [], chunks) == Scan(Front, Join(chunks))
  {
    var t := ScanChunks(Front, [], chunks);
    CutsOfTheStreamDoNotMatter([], chunks);
    ScanNothing(Front, []);
    assert [] + Join(chunks) == Join(chunks) && [] + t.segments == t.segments;
  }

  /** At most 352 bytes stay buffered, and they start with the sync byte. */
  lemma LeftoverIsShort(history: seq<Byte>)
    ensures var rest := Scan(Front, history).rest;
      rest != [] ==> |rest| <= 352 && rest[0] == SYNC
  {
    FrontIsSteady();
    RestWaits(Front, history);
    var rest := Scan(Front, history).rest;
    if rest != [] {
      WaitingIsShort(rest);
    }
  }

  /** The history goes on at `i` with a header that can never be completed. */
  ghost predicate Malformed(history: seq<Byte>, i: nat)
    requires i <= |history|
  {
    i < |history| && history[i] == SYNC && ParseHeader(history[i..]).Invalid?
  }

  /** A whole packet with a complete header lies at `i`; `good` tells of its checksum. */
  ghost predicate WholePacket(history: seq<Byte>, i: nat, good: bool)
    requires i <= |history|
  {
    && i < |history| && history[i] == SYNC
    && ParseHeader(history[i..]).Complete?
    && var size := ParseHeader(history[i..]).header.size + ParseHeader(history[i..]).payloadSize + 2;
       i + size <= |history| && (good <==> Remainder(history[i + 1..i + size]) == Zeros(16))
  }

  /** Why a segment was taken where it was. */
  ghost predicate Reason(segment: Segment, history: seq<Byte>, i: nat)
    requires i <= |history|
  {
    match segment
    case Noise(b) => i < |history| && history[i] == b != SYNC
    case FormatError(_) => Malformed(history, i)
    case CrcError(_) => WholePacket(history, i, false)
    case Packet(_, _) => WholePacket(history, i, true)
  }

  /** The segment is the bytes at its place, is there for its reason, and is one byte
      unless it is a whole packet. */
  ghost predicate PlacedRight(p: Placed<Segment>, history: seq<Byte>) {
    && p.start + p.size <= |history|
    && p.segment.Bytes() == history[p.start..p.start + p.size]
    && Reason(p.segment, history, p.start)
    && (!p.segment.Packet? ==> p.size == 1)
  }

  lemma FrontHasReason(buf: seq<Byte>)
    requires Front(buf).Emit?
    ensures Reason(Front(buf).segment, buf, 0)
  {
    assert buf[0..] == buf;
  }

  lemma WholeLater(history: seq<Byte>, i: nat, good: bool)
    requires i <= |history| && WholePacket(history[i..], 0, good)
    ensures WholePacket(history, i, good)
  {
    var buf := history[i..];
    assert buf[0..] == buf;
    var size := ParseHeader(buf).header.size + ParseHeader(buf).payloadSize + 2;
    assert buf[1..size] == history[i + 1..i + size];
  }

  lemma ReasonLater(segment: Segment, history: seq<Byte>, i: nat)
    requires i <= |history| && Reason(segment, history[i..], 0)
    ensures Reason(segment, history, i)
  {
    match segment {
      case Noise(_) =>
      case FormatError(_) => assert history[i..][0..] == history[i..];
      case CrcError(_) => WholeLater(history, i, false);
      case Packet(_, _) => WholeLater(history, i, true);
    }
  }

  lemma DecidedRight(history: seq<Byte>, p: Placed<Segment>)
    requires p.start + p.size <= |history| && Front(history[p.start..]) == Emit(p.segment, p.size)
    ensures PlacedRight(p, history)
  {
    var buf := history[p.start..];
    FrontTakesPrefix(buf);
    FrontHasReason(buf);
    ReasonLater(p.segment, history, p.start);
    assert buf[..p.size] == history[p.start..p.start + p.size];
  }

  lemma EveryPlaceIsRight(history: seq<Byte>)
    ensures forall k :: 0 <= k < |Places(Front, history, 0)| ==> PlacedRight(Places(Front, history, 0)[k], history)
  {
    ghost var right := (p: Placed<Segment>) => PlacedRight(p, history);
    forall p: Placed<Segment> {:trigger right(p)}
      | p.start + p.size <= |history| && Front(history[p.start..]) == Emit(p.segment, p.size)
      ensures right(p)
    {
      DecidedRight(history, p);
    }
    PlacesSatisfy(Front, history, right);
    assert forall k :: 0 <= k < |Places(Front, history, 0)| ==> right(Places(Front, history, 0)[k]);
  }

  /** Every byte of the history has exactly one fate: it is a skipped byte other than the
      sync byte, a sync byte with a malformed header behind it, a sync byte of a whole
      packet with a bad checksum, part of one accepted packet, or still buffered. */
  lemma EveryByteHasOneFate(history: seq<Byte>)
    ensures TilesBuffer(Front, history)
    ensures forall k :: 0 <= k < |Places(Front, history, 0)| ==> PlacedRight(Places(Front, history, 0)[k], history)
  {
    BufferIsTiled(Front, history);
    EveryPlaceIsRight(history);
  }

  /** A complete packet of `size` bytes with a good checksum starts at `i`. */
  ghost predicate PacketAt(history: seq<Byte>, i: nat, size: nat)
    requires i <= |history|
  {
    && i < |history| && history[i] == SYNC
    && ParseHeader(history[i..]).Complete?
    && ParseHeader(history[i..]).header.size + ParseHeader(history[i..]).payloadSize + 2 == size
    && i + size <= |history|
    && Remainder(history[i + 1..i + size]) == Zeros(16)
  }

  /** Resynchronisation: once 353 bytes follow a position, a packet is accepted
      there exactly when a well-formed packet starts there and no accepted packet
      that started earlier covers it.  The header is that of the packet's bytes. */
  lemma AcceptedIffWellFormedAndUncovered(history: seq<Byte>, i: nat, size: nat, header: Header)
    requires i + 353 <= |history| && size <= 353
    ensures var places := Places(Front, history, 0);
      Placed(Packet(history[i..i + size], header), i, size) in places <==>
        PacketAt(history, i, size) && header == ParseHeader(history[i..]).header && !Inside(places, i)
  {
    forall b: seq<Byte> | |b| >= 353 ensures Takes(Front, b) {
      FrontIsSettled(b);
    }
    var d := Emit(Packet(history[i..i + size], header), size);
    TakenIffDecided(Front, 353, history, 0, i, d);
    assert history[i..][..size] == history[i..i + size];
    if i + size <= |history| && size > 0 {
      assert history[i..][1..size] == history[i + 1..i + size];
    }
    FrontIsPacket(history[i..], size, header);
  }

  lemma FrontIsPacket(buf: seq<Byte>, size: nat, header: Header)
    requires size <= |buf|
    ensures Front(buf) == Emit(Packet(buf[..size], header), size) <==>
            && buf != [] && buf[0] == SYNC && ParseHeader(buf).Complete?
            && header == ParseHeader(buf).header && header.size + ParseHeader(buf).payloadSize + 2 == size
            && Remainder(buf[1..size]) == Zeros(16)
  {
  }

  // ---- The parser object -----------------------------------------------------

  datatype Tally = Tally(valid: nat, crcErrors: nat, formatErrors: nat)

  function CountOne(t: Tally, s: Segment): Tally {
    match s
    case Noise(_) => t
    case FormatError(_) => t.(formatErrors := t.formatErrors + 1)
    case CrcError(_) => t.(crcErrors := t.crcErrors + 1)
    case Packet(_, _) => t.(valid := t.valid + 1)
  }

  /** The counters after `segments`, starting from `t`. */
  function CountFrom(t: Tally, segments: seq<Segment>): Tally
    decreases |segments|
  {
    if segments == [] then t else CountFrom(CountOne(t, segments[0]), segments[1..])
  }

  function AllReadings(segments: seq<Segment>): seq<Reading> {
    if segments == [] then [] else segments[0].Readings() + AllReadings(segments[1..])
  }

  lemma {:induction false} ReadingsConcat(a: seq<Segment>, b: seq<Segment>)
    ensures AllReadings(a + b) == AllReadings(a) + AllReadings(b)
  {
    if a == [] {
      assert a + b == b;
    } else {
      assert (a + b)[1..] == a[1..] + b;
      ReadingsConcat(a[1..], b);
      assert a[0].Readings() + (AllReadings(a[1..]) + AllReadings(b))
        == (a[0].Readings() + AllReadings(a[1..])) + AllReadings(b);
    }
  }

  lemma {:induction false} CountConcat(t: Tally, a: seq<Segment>, b: seq<Segment>)
    ensures CountFrom(t, a + b) == CountFrom(CountFrom(t, a), b)
    decreases |a|
  {
    if a == [] {
      assert a + b == b;
    } else {
      assert (a + b)[1..] == a[1..] + b;
      CountConcat(CountOne(t, a[0]), a[1..], b);
    }
  }

  lemma SegmentsConcat(t: Tally, a: seq<Segment>, b: seq<Segment>)
    ensures CountFrom(t, a + b) == CountFrom(CountFrom(t, a), b)
    ensures AllReadings(a + b) == AllReadings(a) + AllReadings(b)
  {
    ReadingsConcat(a, b);
    CountConcat(t, a, b);
  }

  datatype Sample = Sample(reading: Reading, timestampNs: int)

  function Stamp(readings: seq<Reading>, timestampNs: int): (samples: seq<Sample>)
    ensures |samples| == |readings|
  {
    seq(|readings|, i requires 0 <= i < |readings| => Sample(readings[i], timestampNs))
  }

  lemma StampConcat(a: seq<Reading>, b: seq<Reading>, timestampNs: int)
    ensures Stamp(a + b, timestampNs) == Stamp(a, timestampNs) + Stamp(b, timestampNs)
  {
  }

  method IndexOfSync(buffer: seq<Byte>) returns (i: int)
    ensures -1 <= i < |buffer|
    ensures i < 0 ==> SYNC !in buffer
    ensures i >= 0 ==> buffer[i] == SYNC && SYNC !in buffer[..i]
  {
    for j := 0 to |buffer|
      invariant SYNC !in buffer[..j]
    {
      if buffer[j] == SYNC { return j; }
    }
    assert buffer[..|buffer|] == buffer;
    return -1;
  }

  function NoiseOf(bytes: seq<Byte>): (s: seq<Segment>)
    ensures |s| == |bytes|
  {
    seq(|bytes|, i requires 0 <= i < |bytes| => Noise(bytes[i]))
  }

  /** A decoder that drops what is not a sync byte. */
  ghost predicate DropsNoise(front: seq<Byte> -> Decision<Segment>) {
    forall b: seq<Byte> {:trigger front(b)} :: b != [] && b[0] != SYNC ==> front(b) == Emit(Noise(b[0]), 1)
  }

  lemma {:induction false} SkippingNoise(front: seq<Byte> -> Decision<Segment>, noise: seq<Byte>, buf: seq<Byte>)
    requires DropsNoise(front) && SYNC !in noise
    ensures Scan(front, noise + buf) == Prepend(NoiseOf(noise), Scan(front, buf))
  {
    if noise == [] {
      assert noise + buf == buf;
    } else {
      var all := noise + buf;
      assert all[1..] == noise[1..] + buf;
      assert front(all) == Emit(Noise(noise[0]), 1);
      SkippingNoise(front, noise[1..], buf);
      PrependAssociates([Noise(noise[0])], NoiseOf(noise[1..]), Scan(front, buf));
      assert NoiseOf(noise) == [Noise(noise[0])] + NoiseOf(noise[1..]);
    }
  }

  lemma {:induction false} NoiseCountsNothing(t: Tally, noise: seq<Byte>)
    ensures CountFrom(t, NoiseOf(noise)) == t && AllReadings(NoiseOf(noise)) == []
    decreases |noise|
  {
    if noise != [] {
      assert NoiseOf(noise)[1..] == NoiseOf(noise[1..]);
      NoiseCountsNothing(t, noise[1..]);
    }
  }

  /** Reads the fields of one type at the cursor. */
  method DecodeType(fields: seq<Field>, data: seq<Byte>, start: nat, timestampNs: int)
    returns (output: seq<Sample>, cursor: nat)
    requires start + Width(fields) <= |data|
    ensures cursor == start + Width(fields)
    ensures output == Stamp(Decode(fields, data[start..]), timestampNs)
  {
    output, cursor := [], start;
    var i := 0;
    while i < |fields|
      invariant i <= |fields|
      invariant cursor + Width(fields[i..]) == start + Width(fields)
      invariant output + Stamp(Decode(fields[i..], data[cursor..]), timestampNs)
             == Stamp(Decode(fields, data[start..]), timestampNs)
    {
      ghost var tail := Decode(fields[i + 1..], data[cursor + FieldBytes(fields[i])..]);
      assert fields[i..][1..] == fields[i + 1..];
      assert data[cursor..][FieldBytes(fields[i])..] == data[cursor + FieldBytes(fields[i])..];
      match fields[i] {
        case Sampled(signal, kind) =>
          var reading := Reading(signal, kind, Concat(data[cursor..][..KindBytes(kind)]));
          StampConcat([reading], tail, timestampNs);
          output := output + [Sample(reading, timestampNs)];
          cursor := cursor + KindBytes(kind);
        case Skipped(bytes) =>
          cursor := cursor + bytes;
      }
      i := i + 1;
    }
  }

  lemma DecodeInTwoParts(fields: seq<Field>, later: seq<Field>, data: seq<Byte>, cursor: nat, timestampNs: int)
    requires cursor + Width(fields + later) <= |data|
    ensures Width(fields + later) == Width(fields) + Width(later)
    ensures Stamp(Decode(fields + later, data[cursor..]), timestampNs)
         == Stamp(Decode(fields, data[cursor..]), timestampNs)
           + Stamp(Decode(later, data[cursor + Width(fields)..]), timestampNs)
  {
    WidthConcat(fields, later);
    DecodeConcat(fields, later, data[cursor..]);
    assert data[cursor..][Width(fields)..] == data[cursor + Width(fields)..];
    StampConcat(Decode(fields, data[cursor..]), Decode(later, data[cursor + Width(fields)..]), timestampNs);
  }

  /** The samples of the selected types from `bit` on. */
  ghost function Rest(types: nat -> seq<Field>, mask: Bits, bit: nat, data: seq<Byte>, cursor: nat, timestampNs: int):
    seq<Sample>
    requires cursor + Width(LayoutFrom(types, mask, bit)) <= |data|
  {
    Stamp(Decode(LayoutFrom(types, mask, bit), data[cursor..]), timestampNs)
  }

  lemma RestStep(types: nat -> seq<Field>, mask: Bits, bit: nat, data: seq<Byte>, cursor: nat, timestampNs: int)
    requires bit < 30 && Selected(mask, bit)
    requires cursor + Width(LayoutFrom(types, mask, bit)) <= |data|
    ensures Width(LayoutFrom(types, mask, bit)) == Width(types(bit)) + Width(LayoutFrom(types, mask, bit + 1))
    ensures Rest(types, mask, bit, data, cursor, timestampNs)
         == Stamp(Decode(types(bit), data[cursor..]), timestampNs)
           + Rest(types, mask, bit + 1, data, cursor + Width(types(bit)), timestampNs)
  {
    DecodeInTwoParts(types(bit), LayoutFrom(types, mask, bit + 1), data, cursor, timestampNs);
  }

  /** Walks the selected types of one group. */
  method DecodeGroup(types: nat -> seq<Field>, mask: Bits, data: seq<Byte>, start: nat, timestampNs: int)
    returns (output: seq<Sample>, cursor: nat)
    requires start + Width(LayoutFrom(types, mask, 0)) <= |data|
    ensures cursor == start + Width(LayoutFrom(types, mask, 0))
    ensures output == Stamp(Decode(LayoutFrom(types, mask, 0), data[start..]), timestampNs)
  {
    output, cursor := [], start;
    ghost var goal := Rest(types, mask, 0, data, start, timestampNs);
    for bit := 0 to 30
      invariant cursor + Width(LayoutFrom(types, mask, bit)) == start + Width(LayoutFrom(types, mask, 0))
      invariant output + Rest(types, mask, bit, data, cursor, timestampNs) == goal
    {
      if Selected(mask, bit) {
        RestStep(types, mask, bit, data, cursor, timestampNs);
        var decoded, next := DecodeType(types(bit), data, cursor, timestampNs);
        ghost var later := Rest(types, mask, bit + 1, data, next, timestampNs);
        assert output + (decoded + later) == (output + decoded) + later;
        output, cursor := output + decoded, next;
      }
    }
  }

  method DecodePacket(header: Header, data: seq<Byte>, timestampNs: int) returns (output: seq<Sample>)
    requires header.size + Width(header.Layout()) <= |data|
    ensures output == Stamp(PacketReadings(data, header), timestampNs)
  {
    ghost var common, attitude :=
      LayoutFrom(Types(Common), header.common, 0), LayoutFrom(Types(Attitude), header.attitude, 0);
    WidthConcat(common, attitude);
    DecodeConcat(common, attitude, data[header.size..]);
    var first, cursor := DecodeGroup(Types(Common), header.common, data, header.size, timestampNs);
    assert data[header.size..][Width(common)..] == data[cursor..];
    var second, _ := DecodeGroup(Types(Attitude), header.attitude, data, cursor, timestampNs);
    StampConcat(Decode(common, data[header.size..]), Decode(attitude, data[cursor..]), timestampNs);
    output := first + second;
  }

  /** One round of the main loop: noise up to the sync byte, then one decision. */
  lemma OneRound(front: seq<Byte> -> Decision<Segment>, noise: seq<Byte>, buf: seq<Byte>, d: Decision<Segment>,
    t: Tally)
    requires DropsNoise(front) && SYNC !in noise
    requires d == front(buf) && Takes(front, buf)
    ensures Scan(front, noise + buf) == Prepend(NoiseOf(noise) + [d.segment], Scan(front, buf[d.size..]))
    ensures AllReadings(NoiseOf(noise) + [d.segment]) == d.segment.Readings()
    ensures CountFrom(t, NoiseOf(noise) + [d.segment]) == CountOne(t, d.segment)
  {
    SkippingNoise(front, noise, buf);
    PrependAssociates(NoiseOf(noise), [d.segment], Scan(front, buf[d.size..]));
    NoiseCountsNothing(t, noise);
    SegmentsConcat(t, NoiseOf(noise), [d.segment]);
    assert [d.segment][1..] == [];
    assert AllReadings([d.segment]) == d.segment.Readings() + [];
  }

  lemma PacketFits(buf: seq<Byte>)
    requires Front(buf).Emit? && Front(buf).segment.Packet?
    ensures var Packet(packet, header) := Front(buf).segment;
      header.size + Width(header.Layout()) + 2 == |packet|
  {
    HeaderBounds(buf);
  }

  lemma RoundIsOneDecision(noise: seq<Byte>, buf: seq<Byte>, d: Decision<Segment>, t: Tally)
    requires SYNC !in noise && d == Front(buf) && d.Emit?
    ensures 0 < d.size <= |buf|
    ensures d.segment.Packet? ==> d.segment.header.size + Width(d.segment.header.Layout()) <= |d.segment.packet|
    ensures Scan(Front, noise + buf) == Prepend(NoiseOf(noise) + [d.segment], Scan(Front, buf[d.size..]))
    ensures AllReadings(NoiseOf(noise) + [d.segment]) == d.segment.Readings()
    ensures CountFrom(t, NoiseOf(noise) + [d.segment]) == CountOne(t, d.segment)
  {
    FrontTakesPrefix(buf);
    FrontDropsNoise();
    OneRound(Front, noise, buf, d, t);
    if d.segment.Packet? {
      PacketFits(buf);
    }
  }

  /** The decision for a buffer that starts with the sync byte. */
  method DecideFront(buffer: seq<Byte>) returns (d: Decision<Segment>)
    requires buffer != [] && buffer[0] == SYNC
    ensures d == Front(buffer)
  {
    var state := DecideHeader(buffer);
    if state.Incomplete? { return Wait; }
    if state.Invalid? { return Emit(FormatError(buffer[0]), 1); }
    var packetSize := state.header.size + state.payloadSize + 2;
    if |buffer| < packetSize { return Wait; }
    var crc := CalculateCrc(buffer[1..packetSize]);
    if crc != Zeros(16) { return Emit(CrcError(buffer[0]), 1); }
    return Emit(Packet(buffer[..packetSize], state.header), packetSize);
  }
}
