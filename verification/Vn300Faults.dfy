/** Simulated streams with faults: what the parser's counters show of altered packets. */
module Vn300Faults {
  import opened Bits
  import opened Vn300Layout
  import opened Vn300Header
  import opened StreamScan
  import opened Vn300Stream
  import opened Vn300Parser
  import opened Vn300Simulator

  /** A packet as received with one or two adjacent bytes behind the header altered. */
  ghost predicate Altered(v: Values, received: seq<Byte>) {
    && |received| == |Encoded(v)| && received != Encoded(v)
    && exists at :: 6 <= at && AlteredAt(Encoded(v), received, at)
  }

  ghost predicate AlteredAt(sent: seq<Byte>, received: seq<Byte>, at: nat)
    requires |received| == |sent|
  {
    forall i :: 0 <= i < |received| && i != at && i != at + 1 ==> received[i] == sent[i]
  }

  lemma AlteredIsRejected(v: Values, received: seq<Byte>, rest: seq<Byte>)
    requires Altered(v, received)
    ensures |received| == 218 && received[0] == SYNC
    ensures Front(received + rest) == Emit(CrcError(SYNC), 1)
  {
    EncodedSize(v);
    var at :| 6 <= at && AlteredAt(Encoded(v), received, at);
    AlteredPacketIsRejected(v, received, at, rest);
    assert received[0] == Encoded(v)[0] == Encoded(v)[..6][0];
  }

  /** Anywhere in any stream: an altered packet whose bytes have been decided is counted
      as a checksum error at its own offset exactly when no packet accepted before
      covers that offset, and it is never counted as anything else. */
  lemma AlteredIsCountedIffUncovered(history: seq<Byte>, i: nat, v: Values, received: seq<Byte>)
    requires Altered(v, received) && i + |received| <= |history| && history[i..i + |received|] == received
    requires i < Decided(history)
    ensures i in CorruptedAt(history) <==> !Inside(Places(Front, history, 0), i)
    ensures i !in MalformedAt(history) && i !in AcceptedAt(history)
  {
    var rest := history[i + |received|..];
    StartsWith(history, i, received);
    AlteredIsRejected(v, received, rest);
    RejectedIsCorrupted(history, i);
  }

  lemma StartsWith(history: seq<Byte>, i: nat, part: seq<Byte>)
    requires i + |part| <= |history| && history[i..i + |part|] == part
    ensures history[i..] == part + history[i + |part|..]
  {
  }

  lemma RejectedIsCorrupted(history: seq<Byte>, i: nat)
    requires i <= |history| && Front(history[i..]) == Emit(CrcError(SYNC), 1) && i < Decided(history)
    ensures i in CorruptedAt(history) <==> !Inside(Places(Front, history, 0), i)
    ensures i !in MalformedAt(history) && i !in AcceptedAt(history)
  {
    FrontHasReason(history[i..]);
    ReasonLater(CrcError(SYNC), history, i);
  }

  // ---- Whole streams ---------------------------------------------------------

  /** What arrives for one packet: all of it, or an altered one in which no byte but the
      first looks like the start of a packet. */
  datatype Arrival = Intact(v: Values) | Damaged(v: Values, received: seq<Byte>)

  ghost predicate Sound(a: Arrival) {
    a.Damaged? ==> Altered(a.v, a.received) && SYNC !in a.received[1..]
  }

  function BytesOf(a: Arrival): seq<Byte> {
    match a
    case Intact(v) => Encoded(v)
    case Damaged(_, received) => received
  }

  function Received(arrivals: seq<Arrival>): seq<Byte> {
    if arrivals == [] then [] else BytesOf(arrivals[0]) + Received(arrivals[1..])
  }

  function IntactCount(arrivals: seq<Arrival>): nat {
    if arrivals == [] then 0 else (if arrivals[0].Intact? then 1 else 0) + IntactCount(arrivals[1..])
  }

  function DamagedCount(arrivals: seq<Arrival>): nat {
    if arrivals == [] then 0 else (if arrivals[0].Damaged? then 1 else 0) + DamagedCount(arrivals[1..])
  }

  function SegmentsOf(a: Arrival): seq<Segment> {
    match a
    case Intact(v) => [Packet(Encoded(v), SIMULATED_HEADER)]
    case Damaged(_, received) => if received == [] then [] else RejectedSegments(received)
  }

  /** A rejected packet: one error, and its other bytes skipped. */
  function RejectedSegments(received: seq<Byte>): seq<Segment>
    requires received != []
  {
    [CrcError(SYNC)] + NoiseOf(received[1..])
  }

  lemma BehindFirst(received: seq<Byte>, rest: seq<Byte>)
    requires received != []
    ensures (received + rest)[1..] == received[1..] + rest
  {
  }

  lemma RejectedIsScanned(front: seq<Byte> -> Decision<Segment>, received: seq<Byte>, rest: seq<Byte>)
    requires Steady(front) && DropsNoise(front) && received != [] && SYNC !in received[1..]
    requires front(received + rest) == Emit(CrcError(SYNC), 1)
    ensures Scan(front, received + rest) == Prepend(RejectedSegments(received), Scan(front, rest))
  {
    BehindFirst(received, rest);
    ScanOne(front, received + rest, Emit(CrcError(SYNC), 1));
    SkippingNoise(front, received[1..], rest);
    PrependAssociates([CrcError(SYNC)], NoiseOf(received[1..]), Scan(front, rest));
  }

  lemma WholeIsScanned(front: seq<Byte> -> Decision<Segment>, p: seq<Byte>, segment: Segment, rest: seq<Byte>)
    requires Steady(front) && front(p + rest) == Emit(segment, |p|)
    ensures Scan(front, p + rest) == Prepend([segment], Scan(front, rest))
  {
    ScanOne(front, p + rest, Emit(segment, |p|));
    assert (p + rest)[|p|..] == rest;
  }

  lemma ArrivalIsScanned(a: Arrival, rest: seq<Byte>)
    requires Sound(a)
    ensures Scan(Front, BytesOf(a) + rest) == Prepend(SegmentsOf(a), Scan(Front, rest))
  {
    FrontIsSteady();
    match a {
      case Intact(v) => IntactIsScanned(v, rest);
      case Damaged(v, received) =>
        AlteredIsRejected(v, received, rest);
        FrontDropsNoise();
        RejectedIsScanned(Front, received, rest);
    }
  }

  lemma IntactIsScanned(v: Values, rest: seq<Byte>)
    ensures Scan(Front, Encoded(v) + rest) == Prepend([Packet(Encoded(v), SIMULATED_HEADER)], Scan(Front, rest))
  {
    FrontIsSteady();
    FrontOfEncoded(v, rest);
    EncodedSize(v);
    WholeIsScanned(Front, Encoded(v), Packet(Encoded(v), SIMULATED_HEADER), rest);
  }

  lemma RejectedIsCounted(received: seq<Byte>, t: Tally)
    requires received != []
    ensures CountFrom(t, RejectedSegments(received)) == t.(crcErrors := t.crcErrors + 1)
  {
    var later := NoiseOf(received[1..]);
    assert ([CrcError(SYNC)] + later)[1..] == later;
    NoiseCountsNothing(CountOne(t, CrcError(SYNC)), received[1..]);
  }

  lemma OneIsCounted(p: seq<Byte>, header: Header, t: Tally)
    ensures CountFrom(t, [Packet(p, header)]) == t.(valid := t.valid + 1)
  {
    CountPacket(t, [Packet(p, header)]);
    assert [Packet(p, header)][1..] == [];
  }

  function Counted(a: Arrival, t: Tally): Tally {
    if a.Intact? then t.(valid := t.valid + 1) else t.(crcErrors := t.crcErrors + 1)
  }

  lemma ArrivalIsCounted(a: Arrival, t: Tally)
    requires Sound(a)
    ensures CountFrom(t, SegmentsOf(a)) == Counted(a, t)
  {
    match a {
      case Intact(v) => OneIsCounted(Encoded(v), SIMULATED_HEADER, t);
      case Damaged(v, received) =>
        AlteredIsRejected(v, received, []);
        RejectedIsCounted(received, t);
    }
  }

  /** The counts and the leftover of a stream whose first part is scanned on its own. */
  lemma CountFirst(first: seq<Segment>, later: Trace<Byte, Segment>, all: Trace<Byte, Segment>, t: Tally)
    requires all == Prepend(first, later)
    ensures all.rest == later.rest && CountFrom(t, all.segments) == CountFrom(CountFrom(t, first), later.segments)
  {
    CountConcat(t, first, later.segments);
  }

  lemma {:induction false} StreamIsCounted(arrivals: seq<Arrival>, t: Tally)
    requires forall i :: 0 <= i < |arrivals| ==> Sound(arrivals[i])
    ensures Scan(Front, Received(arrivals)).rest == []
    ensures CountFrom(t, Scan(Front, Received(arrivals)).segments) == Total(arrivals, t)
    decreases |arrivals|
  {
    if arrivals == [] {
      NothingIsScanned();
    } else {
      StreamIsCounted(arrivals[1..], Counted(arrivals[0], t));
      FirstOfStream(arrivals, t);
      TotalOfStream(arrivals, t);
    }
  }

  function Total(arrivals: seq<Arrival>, t: Tally): Tally {
    Tally(t.valid + IntactCount(arrivals), t.crcErrors + DamagedCount(arrivals), t.formatErrors)
  }

  lemma TotalOfStream(arrivals: seq<Arrival>, t: Tally)
    requires arrivals != []
    ensures Total(arrivals, t) == Total(arrivals[1..], Counted(arrivals[0], t))
  {
  }

  lemma NothingIsScanned()
    ensures Scan(Front, []) == Trace([], [])
  {
    ScanNothing(Front, []);
  }

  lemma FirstOfStream(arrivals: seq<Arrival>, t: Tally)
    requires arrivals != [] && Sound(arrivals[0])
    ensures var later := Scan(Front, Received(arrivals[1..]));
      var all := Scan(Front, Received(arrivals));
      all.rest == later.rest && CountFrom(t, all.segments) == CountFrom(Counted(arrivals[0], t), later.segments)
  {
    var a, later := arrivals[0], Received(arrivals[1..]);
    ArrivalIsScanned(a, later);
    ArrivalIsCounted(a, t);
    CountFirst(SegmentsOf(a), Scan(Front, later), Scan(Front, BytesOf(a) + later), t);
  }

  /** A stream of whole packets of which some are altered leaves the parser with an empty
      buffer, one valid packet for each intact one, one checksum error for each altered
      one and no format error. */
  lemma EveryAlteredPacketIsCounted(arrivals: seq<Arrival>)
    requires forall i :: 0 <= i < |arrivals| ==> Sound(arrivals[i])
    ensures var history := Received(arrivals);
      && Scan(Front, history).rest == []
      && |AcceptedAt(history)| == IntactCount(arrivals) && |CorruptedAt(history)| == DamagedCount(arrivals)
      && MalformedAt(history) == {}
  {
    StreamIsCounted(arrivals, Tally(0, 0, 0));
    CountsOfScan(Received(arrivals));
  }

  // ---- What the simulator's faults do ----------------------------------------

  lemma MultipleIff(n: nat, d: nat)
    requires d > 0
    ensures n % d == 0 <==> exists k: nat :: k * d == n
  {
    if n % d == 0 { assert (n / d) * d == n; }
    if exists k: nat :: k * d == n {
      var k: nat :| k * d == n;
      RemainderIs(n, d, k, 0);
    }
  }

  lemma Times(x: int, d: nat)
    ensures x >= 1 ==> x * d >= d
    ensures x <= -1 ==> x * d + d <= 0
  {
  }

  lemma RemainderIs(n: nat, d: nat, q: nat, r: nat)
    requires n == q * d + r && r < d
    ensures n % d == r
  {
    var x := n / d - q;
    assert x * d == (n / d) * d - q * d;
    Times(x, d);
  }

  /** Any `d` numbers in a row hold exactly one multiple of `d`. */
  lemma OneMultiple(n: nat, d: nat) returns (m: nat)
    requires d > 0
    ensures n < m <= n + d && m % d == 0
    ensures forall i :: n < i <= n + d && i != m ==> i % d != 0
  {
    m := n + d - n % d;
    var q := n / d;
    assert m == (q + 1) * d;
    RemainderIs(m, d, q + 1, 0);
    forall i | n < i <= n + d && i != m ensures i % d != 0 {
      if i < m {
        assert i == q * d + (i - q * d) && 0 < i - q * d < d;
        RemainderIs(i, d, q, i - q * d);
      } else {
        RemainderIs(i, d, q + 1, i - m);
      }
    }
  }

  /** A tick sends nothing exactly when its number is a multiple of a set drop interval. */
  lemma DroppedIff(v: Values, count: nat, dropEvery: nat, corruptCrcEvery: nat)
    ensures Generated(v, count, dropEvery, corruptCrcEvery).None?
      <==> dropEvery > 0 && exists k: nat :: k * dropEvery == count
  {
    if dropEvery > 0 { MultipleIff(count, dropEvery); }
  }

  /** The two packets differ in the lowest bit of the third byte from the end, and nowhere
      else. */
  ghost predicate OneBitTurned(p: seq<Byte>, sent: seq<Byte>) {
    && |sent| == |p| == 218
    && forall i, bit :: 0 <= i < 218 && 0 <= bit < 8 ==> (sent[i][bit] != p[i][bit] <==> i == 215 && bit == 0)
  }

  lemma FlippedIsTurned(p: seq<Byte>)
    requires |p| == 218
    ensures OneBitTurned(p, p[215 := FlipLowest(p[215])])
  {
  }

  lemma TurnedIsAnother(p: seq<Byte>, sent: seq<Byte>)
    requires OneBitTurned(p, sent)
    ensures sent != p
  {
    assert sent[215][0] != p[215][0];
  }

  /** Of the rest one bit is turned in those whose number is a multiple of a set corruption
      interval, and none in the others. */
  lemma CorruptedIff(v: Values, count: nat, dropEvery: nat, corruptCrcEvery: nat)
    requires Generated(v, count, dropEvery, corruptCrcEvery).Some?
    ensures var sent := Generated(v, count, dropEvery, corruptCrcEvery).value;
      var corrupted := corruptCrcEvery > 0 && exists k: nat :: k * corruptCrcEvery == count;
      && (corrupted <==> OneBitTurned(Encoded(v), sent))
      && (!corrupted <==> sent == Encoded(v))
  {
    EncodedSize(v);
    if corruptCrcEvery > 0 { MultipleIff(count, corruptCrcEvery); }
    var sent := Generated(v, count, dropEvery, corruptCrcEvery).value;
    FlippedIsTurned(Encoded(v));
    if OneBitTurned(Encoded(v), sent) { TurnedIsAnother(Encoded(v), sent); }
  }

  /** Of any `dropEvery` ticks in a row exactly one sends nothing. */
  lemma OneInEveryIsDropped(values: nat -> Values, n: nat, dropEvery: nat, corruptCrcEvery: nat)
    requires dropEvery > 0
    ensures exists m: nat ::
      && n < m <= n + dropEvery && Generated(values(m), m, dropEvery, corruptCrcEvery).None?
      && forall i :: n < i <= n + dropEvery && i != m ==> Generated(values(i), i, dropEvery, corruptCrcEvery).Some?
  {
    var m := OneMultiple(n, dropEvery);
    assert Generated(values(m), m, dropEvery, corruptCrcEvery).None?;
  }
}
