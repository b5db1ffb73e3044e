/** Reading framed messages from a byte stream that arrives in arbitrary pieces. */
module IpcStream {
  import opened Octets
  import opened SignalData
  import opened IpcProtocol
  import opened StreamScan

  // ---- One frame -------------------------------------------------------------

  function PayloadLength(buf: Octets): nat
    requires |buf| >= 4
  {
    FromBigEndian(buf[..4])
  }

  predicate LengthIsFine(n: nat) { 0 < n <= MAXIMUM_FRAME }

  /** The next whole well-formed message; a malformed one is never taken. */
  function Front(buf: Octets): Decision<Message> {
    if |buf| < 4 then Wait
    else
      var n := PayloadLength(buf);
      if !LengthIsFine(n) || |buf| < 4 + n then Wait
      else
        match DecodePayload(buf[4..4 + n])
        case Fail => Wait
        case Parsed(m, _) => Emit(m, 4 + n)
  }

  /** The front of the buffer can never become a message. */
  predicate Bad(buf: Octets) {
    |buf| >= 4 &&
    var n := PayloadLength(buf);
    !LengthIsFine(n) || (|buf| >= 4 + n && DecodePayload(buf[4..4 + n]).Fail?)
  }

  lemma MoreBytes(buf: Octets, more: Octets)
    requires |buf| >= 4
    ensures PayloadLength(buf + more) == PayloadLength(buf)
    ensures var n := PayloadLength(buf); |buf| >= 4 + n ==> (buf + more)[4..4 + n] == buf[4..4 + n]
  {
    assert (buf + more)[..4] == buf[..4];
  }

  /** A message once whole stays the same message. */
  lemma FrontIsSteady()
    ensures Steady(Front)
  {
    forall buf: Octets, more: Octets
      ensures Front(buf).Emit? ==> Front(buf + more) == Front(buf)
    {
      if |buf| >= 4 { MoreBytes(buf, more); }
    }
  }

  /** A refused frame stays refused. */
  lemma BadIsFinal(buf: Octets, more: Octets)
    requires Bad(buf)
    ensures Bad(buf + more) && Front(buf + more).Wait?
  {
    MoreBytes(buf, more);
  }

  /** One frame of a stream. */
  function Wire(m: Message): Octets { Frame(Payload(m)) }

  lemma FrameIsTaken(m: Message, later: Octets)
    requires Encodable(m)
    ensures Front(Wire(m) + later) == Emit(ReceivedMessage(m), |Wire(m)|)
  {
    Powers();
    var p := Payload(m);
    FrameFits(p, later);
    PayloadRoundTrip(m);
  }

  lemma FrameFits(p: Octets, later: Octets)
    requires |p| <= MAXIMUM_FRAME
    ensures |Frame(p)| == 4 + |p|
    ensures PayloadLength(Frame(p) + later) == |p| && (Frame(p) + later)[4..4 + |p|] == p
  {
    Powers();
    var buf := Frame(p) + later;
    assert buf[..4] == BigEndian(|p|, 4) && buf[4..4 + |p|] == p;
    FromBigEndianOfBigEndian(|p|, 4);
  }

  /** A proper prefix of a frame is neither taken nor refused. */
  lemma PartialFrameWaits(m: Message, k: nat)
    requires Encodable(m) && k < |Wire(m)|
    ensures Front(Wire(m)[..k]).Wait? && !Bad(Wire(m)[..k])
  {
    var w := Wire(m);
    FrameFits(Payload(m), []);
    assert w + [] == w;
    if k >= 4 {
      assert w[..k][..4] == w[..4];
    }
  }

  // ---- Round trip under fragmentation ----------------------------------------

  function Wires(ms: seq<Message>): (r: seq<Octets>)
    ensures |r| == |ms| && forall i :: 0 <= i < |ms| ==> r[i] == Wire(ms[i])
  {
    Map(Wire, ms)
  }

  ghost predicate AllEncodable(ms: seq<Message>) {
    forall i :: 0 <= i < |ms| ==> Encodable(ms[i])
  }

  lemma FramesAreTaken(ms: seq<Message>, tail: Octets)
    requires AllEncodable(ms)
    ensures Scan(Front, Join(Wires(ms)) + tail) == Prepend(Map(ReceivedMessage, ms), Scan(Front, tail))
  {
    var parts, segments := Wires(ms), Map(ReceivedMessage, ms);
    forall i, later | 0 <= i < |parts|
      ensures Front(parts[i] + later) == Emit(segments[i], |parts[i]|)
    {
      FrameIsTaken(ms[i], later);
    }
    ScanParts(Front, parts, segments, tail);
  }

  /** Any list of encodable messages, encoded, concatenated and cut anywhere,
      decodes to the same list as received, and what is buffered at the end is
      exactly the part of the next frame that has arrived. */
  lemma RoundTripUnderFragmentation(ms: seq<Message>, next: Message, k: nat, chunks: seq<Octets>)
    requires AllEncodable(ms) && Encodable(next) && k < |Wire(next)|
    requires Join(chunks) == Join(Wires(ms)) + Wire(next)[..k]
    ensures ScanChunks(Front, [], chunks) == Trace(Map(ReceivedMessage, ms), Wire(next)[..k])
  {
    var tail := Wire(next)[..k];
    FrontIsSteady();
    PartialFrameWaits(next, k);
    FramesAreTaken(ms, tail);
    FromNothing(Front, Map(ReceivedMessage, ms), tail, chunks);
  }

  lemma FromNothing<T(!new), S>(front: seq<T> -> Decision<S>, segments: seq<S>, tail: seq<T>, chunks: seq<seq<T>>)
    requires Steady(front) && front(tail).Wait?
    requires Scan(front, Join(chunks)) == Prepend(segments, Scan(front, tail))
    ensures ScanChunks(front, [], chunks) == Trace(segments, tail)
  {
    ScanNothing(front, tail);
    assert segments + [] == segments;
    assert front([]).Wait?;
    ScanNothing(front, []);
    CutsDoNotMatter(front, [], chunks);
    assert [] + Join(chunks) == Join(chunks);
    var t := ScanChunks(front, [], chunks);
    assert [] + t.segments == t.segments;
  }

  // ---- The dash's end of the connection --------------------------------------

  type Units = map<seq<CodeUnit>, QString>

  function UnitOf(units: Units, name: QString): QString {
    if name.Key() in units then units[name.Key()] else Null
  }

  function UnitsFrom(ds: seq<Definition>): Units {
    if ds == [] then map[]
    else UnitsFrom(ds[..|ds| - 1])[ds[|ds| - 1].name.Key() := ds[|ds| - 1].unit]
  }

  function WithUnits(units: Units, ss: seq<Sample>): (r: seq<Sample>)
    ensures |r| == |ss| && forall i :: 0 <= i < |ss| ==> r[i] == ss[i].(unit := UnitOf(units, ss[i].name))
  {
    if ss == [] then [] else [ss[0].(unit := UnitOf(units, ss[0].name))] + WithUnits(units, ss[1..])
  }

  /** What the client tells the dash, and the units it knows afterwards. */
  datatype Told = Told(units: Units, messages: seq<Message>)
  {
    function After(earlier: seq<Message>): Told { Told(units, earlier + messages) }
  }

  function TellOne(units: Units, m: Message): Told {
    match m
    case Definitions(ds) => Told(UnitsFrom(ds), [m])
    case Samples(ss) => Told(units, [Samples(WithUnits(units, ss))])
  }

  function Tell(units: Units, ms: seq<Message>): Told
    decreases |ms|
  {
    if ms == [] then Told(units, [])
    else
      var one := TellOne(units, ms[0]);
      Tell(one.units, ms[1..]).After(one.messages)
  }

  lemma {:induction false} TellConcat(units: Units, a: seq<Message>, b: seq<Message>)
    ensures Tell(units, a + b) == Tell(Tell(units, a).units, b).After(Tell(units, a).messages)
    decreases |a|
  {
    if a == [] {
      assert a + b == b;
      assert Tell(units, b).After([]) == Tell(units, b);
    } else {
      assert (a + b)[1..] == a[1..] + b;
      var one := TellOne(units, a[0]);
      TellConcat(one.units, a[1..], b);
      var x, y := Tell(one.units, a[1..]), Tell(Tell(one.units, a[1..]).units, b);
      assert one.messages + (x.messages + y.messages) == (one.messages + x.messages) + y.messages;
    }
  }

  datatype Client = Client(open: bool, buffer: Octets, units: Units)

  datatype Reading = Reading(client: Client, messages: seq<Message>)

  ghost function ReadTrace(c: Client, t: Trace<Octet, Message>): Reading {
    if Bad(t.rest) then Reading(Client(false, [], c.units), [])
    else
      var told := Tell(c.units, t.segments);
      Reading(Client(true, t.rest, told.units), told.messages)
  }

  /** Handling the bytes of one read; a bad frame discards the read and aborts. */
  ghost function Read(c: Client, bytes: Octets): Reading {
    if !c.open then Reading(c, [])
    else
      ReadTrace(c, Scan(Front, c.buffer + bytes))
  }

  ghost function ReadAll(c: Client, chunks: seq<Octets>): Reading
    decreases |chunks|
  {
    if chunks == [] then Reading(c, [])
    else
      var one := Read(c, chunks[0]);
      var more := ReadAll(one.client, chunks[1..]);
      Reading(more.client, one.messages + more.messages)
  }

  /** Between reads an open client holds the start of a frame at most. */
  ghost predicate Idle(c: Client) {
    c.open ==> Front(c.buffer).Wait? && !Bad(c.buffer)
  }

  lemma ReadKeepsIdle(c: Client, bytes: Octets)
    requires Idle(c)
    ensures Idle(Read(c, bytes).client)
  {
    FrontIsSteady();
    if c.open { RestWaits(Front, c.buffer + bytes); }
  }

  lemma {:induction false} ClosedReadsNothing(c: Client, chunks: seq<Octets>)
    requires !c.open
    ensures ReadAll(c, chunks) == Reading(c, [])
    decreases |chunks|
  {
    if chunks != [] { ClosedReadsNothing(c, chunks[1..]); }
  }

  lemma ReadNothing(c: Client)
    requires Idle(c)
    ensures Read(c, []) == Reading(c, [])
  {
    if c.open {
      ScanNothing(Front, c.buffer);
      assert c.buffer + [] == c.buffer;
    }
  }

  /** A scan of `first + b` that goes on from the scan of `first`. */
  lemma GoOn(first: Octets, b: Octets)
    ensures var t := Scan(Front, first);
      Scan(Front, first + b) == Prepend(t.segments, Scan(Front, t.rest + b))
  {
    FrontIsSteady();
    ScanInTwoParts(Front, first, b);
  }

  lemma ScanAfterBad(first: Octets, b: Octets)
    requires Bad(Scan(Front, first).rest)
    ensures Bad(Scan(Front, first + b).rest)
  {
    GoOn(first, b);
    var rest := Scan(Front, first).rest;
    BadIsFinal(rest, b);
    ScanNothing(Front, rest + b);
  }

  lemma TellOn(c: Client, t: Trace<Octet, Message>, u: Trace<Octet, Message>)
    ensures Tell(c.units, Prepend(t.segments, u).segments)
      == Tell(Tell(c.units, t.segments).units, u.segments).After(Tell(c.units, t.segments).messages)
  {
    TellConcat(c.units, t.segments, u.segments);
  }

  /** Two reads in a row against one read of all their bytes. */
  lemma ReadTwice(c: Client, a: Octets, b: Octets)
    requires c.open
    ensures var first := Read(c, a);
      var second := Read(first.client, b);
      var both := Read(c, a + b);
      && (both.client.open <==> second.client.open)
      && (both.client.open ==> both == Reading(second.client, first.messages + second.messages))
  {
    assert (c.buffer + a) + b == c.buffer + (a + b);
    if Bad(Scan(Front, c.buffer + a).rest) {
      ScanAfterBad(c.buffer + a, b);
    } else {
      ReadOn(c, a, b);
    }
  }

  lemma ReadOn(c: Client, a: Octets, b: Octets)
    requires c.open && !Bad(Scan(Front, c.buffer + a).rest)
    ensures var second := Read(Read(c, a).client, b);
      var both := Read(c, a + b);
      && (both.client.open <==> second.client.open)
      && (both.client.open ==> both == Reading(second.client, Read(c, a).messages + second.messages))
  {
    var t := Scan(Front, c.buffer + a);
    ScanOn(c.buffer, a, b);
    TraceOn(c, t, Scan(Front, t.rest + b));
  }

  lemma ScanOn(buffer: Octets, a: Octets, b: Octets)
    ensures var t := Scan(Front, buffer + a);
      Scan(Front, buffer + (a + b)) == Prepend(t.segments, Scan(Front, t.rest + b))
  {
    assert (buffer + a) + b == buffer + (a + b);
    GoOn(buffer + a, b);
  }

  lemma TraceOn(c: Client, t: Trace<Octet, Message>, u: Trace<Octet, Message>)
    requires !Bad(t.rest)
    ensures var first := ReadTrace(c, t);
      var second := ReadTrace(first.client, u);
      var both := ReadTrace(c, Prepend(t.segments, u));
      && (both.client.open <==> second.client.open)
      && (both.client.open ==> both == Reading(second.client, first.messages + second.messages))
  {
    TellOn(c, t, u);
  }

  /** Whether a stream is accepted, and what an accepted stream tells the dash, do
      not depend on how its bytes were cut. */
  lemma {:induction false} CutsOfTheConnectionDoNotMatter(c: Client, chunks: seq<Octets>)
    requires Idle(c)
    ensures var all := Read(c, Join(chunks));
      && (ReadAll(c, chunks).client.open <==> all.client.open)
      && (all.client.open ==> ReadAll(c, chunks) == all)
    decreases |chunks|
  {
    if !c.open {
      ClosedReadsNothing(c, chunks);
    } else if chunks == [] {
      ReadNothing(c);
    } else {
      var one := Read(c, chunks[0]);
      ReadKeepsIdle(c, chunks[0]);
      ReadTwice(c, chunks[0], Join(chunks[1..]));
      CutsOfTheConnectionDoNotMatter(one.client, chunks[1..]);
    }
  }

  /** A client that starts with nothing and reads such a stream, cut anyhow, stays open,
      tells the dash every whole message and keeps the start of the next. */
  lemma ConnectionTellsEverything(ms: seq<Message>, next: Message, k: nat, chunks: seq<Octets>)
    requires AllEncodable(ms) && Encodable(next) && k < |Wire(next)|
    requires Join(chunks) == Join(Wires(ms)) + Wire(next)[..k]
    ensures var told := Tell(map[], Map(ReceivedMessage, ms));
      ReadAll(Client(true, [], map[]), chunks) == Reading(Client(true, Wire(next)[..k], told.units), told.messages)
  {
    var c, tail := Client(true, [], map[]), Wire(next)[..k];
    PartialFrameWaits(next, k);
    FramesAreTaken(ms, tail);
    ScanNothing(Front, tail);
    assert Map(ReceivedMessage, ms) + [] == Map(ReceivedMessage, ms);
    assert [] + Join(chunks) == Join(chunks);
    CutsOfTheConnectionDoNotMatter(c, chunks);
  }

  // ---- Units come back through the definitions -------------------------------

  /** The unit in the last definition of a name, and no unit for a name that has none. */
  ghost predicate DefinesUnit(ds: seq<Definition>, name: QString, unit: QString) {
    || (exists i :: 0 <= i < |ds| && IsLastNamed(ds, i, name) && ds[i].unit == unit)
    || (unit == Null && forall i :: 0 <= i < |ds| ==> ds[i].name.Key() != name.Key())
  }

  ghost predicate IsLastNamed(ds: seq<Definition>, i: nat, name: QString)
    requires i < |ds|
  {
    ds[i].name.Key() == name.Key() && forall j :: i < j < |ds| ==> ds[j].name.Key() != name.Key()
  }

  lemma {:induction false} UnitIsDefined(ds: seq<Definition>, name: QString)
    ensures DefinesUnit(ds, name, UnitOf(UnitsFrom(ds), name))
    ensures forall unit :: DefinesUnit(ds, name, unit) ==> UnitOf(UnitsFrom(ds), name) == unit
  {
    if ds != [] {
      var last := |ds| - 1;
      UnitIsDefined(ds[..last], name);
      if ds[last].name.Key() == name.Key() {
        assert IsLastNamed(ds, last, name);
      } else {
        assert forall i :: 0 <= i < last ==> (IsLastNamed(ds, i, name) <==> IsLastNamed(ds[..last], i, name));
      }
    }
  }

  /** Every sample carries the unit its name is defined with. */
  ghost predicate UnitsAsDefined(ds: seq<Definition>, ss: seq<Sample>) {
    forall i :: 0 <= i < |ss| ==> DefinesUnit(ds, ss[i].name, ss[i].unit)
  }

  /** The units left behind on the wire are restored from the definitions. */
  lemma UnitsComeBack(units: Units, ds: seq<Definition>, ss: seq<Sample>)
    requires UnitsAsDefined(ds, ss)
    ensures var sent := [Definitions(ds), Samples(ss)];
      var back := Tell(units, Map(ReceivedMessage, sent)).messages;
      && back[0] == sent[0] && |back| == 2 && back[1].Samples? && |back[1].samples| == |ss|
      && forall i :: 0 <= i < |ss| ==> back[1].samples[i] == ss[i].(value := Widen(ss[i].value))
  {
    var sent := [Definitions(ds), Samples(ss)];
    var got := Map(ReceivedMessage, sent);
    assert got == [sent[0], Samples(Map(Received, ss))];
    assert got[1..] == [got[1]];
    var known := UnitsFrom(ds);
    forall i | 0 <= i < |ss| ensures UnitOf(known, ss[i].name) == ss[i].unit { UnitIsDefined(ds, ss[i].name); }
    assert Tell(known, got[1..]) == Told(known, [Samples(WithUnits(known, Map(Received, ss)))]) by {
      assert got[1..][1..] == [];
    }
  }
}
