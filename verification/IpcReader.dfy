/** The code that writes and reads frames, against the wire format. */
module IpcReader {
  import opened Octets
  import opened SignalData
  import opened IpcProtocol
  import opened StreamScan
  import opened IpcStream

  // ---- Writing ---------------------------------------------------------------

  lemma {:induction false} EncodeItemsConcat<T>(encode: T -> Octets, a: seq<T>, b: seq<T>)
    ensures EncodeItems(encode, a + b) == EncodeItems(encode, a) + EncodeItems(encode, b)
  {
    if a == [] {
      assert a + b == b;
    } else {
      assert (a + b)[1..] == a[1..] + b;
      EncodeItemsConcat(encode, a[1..], b);
    }
  }

  lemma EncodeNext<T>(encode: T -> Octets, items: seq<T>, i: nat)
    requires i < |items|
    ensures EncodeItems(encode, items[..i + 1]) == EncodeItems(encode, items[..i]) + encode(items[i])
  {
    assert items[..i + 1] == items[..i] + [items[i]];
    EncodeItemsConcat(encode, items[..i], [items[i]]);
    assert [items[i]][1..] == [];
    assert encode(items[i]) + [] == encode(items[i]);
  }

  method WriteDefinitions(definitions: seq<Definition>) returns (stream: Octets)
    ensures stream == EncodeItems(EncodeDefinition, definitions)
  {
    stream := [];
    for i := 0 to |definitions|
      invariant stream == EncodeItems(EncodeDefinition, definitions[..i])
    {
      EncodeNext(EncodeDefinition, definitions, i);
      stream := stream + (EncodeText(definitions[i].name) + EncodeText(definitions[i].unit));
    }
    assert definitions[..|definitions|] == definitions;
  }

  method WriteSample(s: Sample) returns (stream: Octets)
    ensures stream == EncodeSample(s)
  {
    var name, value := EncodeText(s.name), EncodeValue(s.value);
    stream := name + (value + (BigEndian(Unsign(s.timestampNs), 8) + [SourceOctet(s.source)]));
  }

  method WriteSamples(samples: seq<Sample>) returns (stream: Octets)
    ensures stream == EncodeItems(EncodeSample, samples)
  {
    stream := [];
    for i := 0 to |samples|
      invariant stream == EncodeItems(EncodeSample, samples[..i])
    {
      EncodeNext(EncodeSample, samples, i);
      var one := WriteSample(samples[i]);
      stream := stream + one;
    }
    assert samples[..|samples|] == samples;
  }

  method EncodeDefinitions(definitions: seq<Definition>) returns (frame: Octets)
    ensures frame == Wire(Definitions(definitions))
  {
    var items := WriteDefinitions(definitions);
    frame := Frame(Header(DEFINITIONS, |definitions|) + items);
  }

  method EncodeSamples(samples: seq<Sample>) returns (frame: Octets)
    ensures frame == Wire(Samples(samples))
  {
    var items := WriteSamples(samples);
    frame := Frame(Header(SAMPLES, |samples|) + items);
  }

  // ---- Reading ---------------------------------------------------------------

  /** How a read with a sticky status relates to the strict reader: once a read has
      failed, the status stays bad and the values read mean nothing. */
  ghost predicate Reads<T>(was: bool, expected: Parsed<T>, ok: bool, value: T, rest: Octets) {
    if was && expected.Parsed? then ok && value == expected.value && rest == expected.rest else !ok
  }

  /** Items already read in front of what is still to be read. */
  function Ahead<T>(items: seq<T>, p: Parsed<seq<T>>): Parsed<seq<T>> {
    match p
    case Fail => Fail
    case Parsed(more, rest) => Parsed(items + more, rest)
  }

  /** Where a loop over `count` items stands: `left` items are still to be read from
      `rest`, or an earlier read has failed for good. */
  ghost predicate Underway<T>(all: Parsed<seq<T>>, take: Octets -> Parsed<T>, was: bool, ok: bool,
    items: seq<T>, left: nat, rest: Octets)
  {
    if ok then was && all == Ahead(items, TakeItems(take, left, rest)) else was ==> all.Fail?
  }

  lemma LoopStep<T>(all: Parsed<seq<T>>, take: Octets -> Parsed<T>, was: bool, ok: bool,
    items: seq<T>, left: nat, rest: Octets, readOk: bool, item: T, after: Octets)
    requires left > 0 && Underway(all, take, was, ok, items, left, rest)
    requires Reads(ok, take(rest), readOk, item, after)
    ensures Underway(all, take, was, readOk, items + [item], left - 1, after)
  {
    if readOk {
      var p := TakeItems(take, left - 1, after);
      if p.Parsed? {
        assert items + ([item] + p.value) == (items + [item]) + p.value;
      }
    }
  }

  lemma LoopEnd<T>(take: Octets -> Parsed<T>, was: bool, ok: bool,
    items: seq<T>, rest: Octets, all: Parsed<seq<T>>)
    requires Underway(all, take, was, ok, items, 0, rest)
    ensures Reads(was, all, ok, items, rest)
  {
    assert items + [] == items;
  }

  lemma LoopStart<T>(take: Octets -> Parsed<T>, ok: bool, count: nat, rest: Octets)
    ensures Underway(TakeItems(take, count, rest), take, ok, ok, [], count, rest)
  {
    var all := TakeItems(take, count, rest);
    if all.Parsed? { assert [] + all.value == all.value; }
  }

  class DataStream {
    const bytes: Octets
    var position: nat
    var ok: bool

    ghost predicate Valid()
      reads this
    {
      position <= |bytes|
    }

    function Rest(): Octets
      requires Valid()
      reads this
    {
      bytes[position..]
    }

    constructor (bytes: Octets)
      ensures Valid() && ok && position == 0 && this.bytes == bytes
    {
      this.bytes, position, ok := bytes, 0, true;
    }

    method ReadUnsigned(width: nat) returns (n: nat)
      requires Valid()
      modifies this
      ensures Valid() && n < Power(width)
      ensures Reads(old(ok), TakeUnsigned(old(Rest()), width), ok, n, Rest())
    {
      BigEndianOfFromBigEndian(BigEndian(0, width));
      n := FromBigEndian(BigEndian(0, width));
      if |bytes| - position < width {
        ok := false;
      } else {
        var taken := TakeUnsigned(Rest(), width);
        n := taken.value;
        position := position + width;
      }
    }

    method ReadInt64() returns (n: Int64)
      requires Valid()
      modifies this
      ensures Valid()
      ensures Reads(old(ok), TakeInt64(old(Rest())), ok, n, Rest())
    {
      Powers();
      var u := ReadUnsigned(8);
      n := Sign(u);
    }

    method ReadText() returns (text: QString)
      requires Valid()
      modifies this
      ensures Valid()
      ensures Reads(old(ok), TakeText(old(Rest())), ok, text, Rest())
    {
      text := Null;
      var n := ReadUnsigned(4);
      if n != NULL_TEXT {
        if n % 2 == 1 || |bytes| - position < n {
          ok := false;
        } else {
          text := Text(DecodeUnits(bytes[position..position + n]));
          assert Rest()[..n] == bytes[position..position + n];
          position := position + n;
        }
      }
    }

    /** The content of a value of a known type. */
    method ReadContent(kind: nat) returns (readable: bool, value: Variant)
      requires Valid()
      modifies this
      ensures Valid() && (readable ==> ok)
      ensures Reads(old(ok), TakeContent(kind, old(Rest())), readable, value, Rest())
    {
      readable, value := true, Invalid;
      if kind == 0 {
      } else if kind == 1 {
        Powers();
        var n := ReadUnsigned(8);
        value := Double(n);
      } else if kind == 2 {
        var n := ReadInt64();
        value := Signed(W64, n);
      } else if kind == 3 {
        Powers();
        var n := ReadUnsigned(8);
        value := Unsigned(W64, n);
      } else if kind == 4 {
        var n := ReadUnsigned(1);
        value := Boolean(n != 0);
      } else if kind == 5 {
        var text := ReadText();
        value := String(text);
      } else {
        return false, Invalid;
      }
      readable := ok;
    }

    /** False when the type is unknown or anything so far could not be read. */
    method ReadValue() returns (readable: bool, value: Variant)
      requires Valid()
      modifies this
      ensures Valid() && (readable ==> ok)
      ensures Reads(old(ok), TakeValue(old(Rest())), readable, value, Rest())
    {
      var kind := ReadUnsigned(1);
      readable, value := ReadContent(kind);
    }

    method ReadDefinition() returns (fine: bool, d: Definition)
      requires Valid()
      modifies this
      ensures Valid()
      ensures Reads(old(ok), TakeDefinition(old(Rest())), fine && ok, d, Rest())
    {
      var name := ReadText();
      var unit := ReadText();
      fine, d := !name.IsEmpty(), Definition(name, unit);
    }

    method ReadSample() returns (fine: bool, s: Sample)
      requires Valid()
      modifies this
      ensures Valid()
      ensures Reads(old(ok), TakeSample(old(Rest())), fine && ok, s, Rest())
    {
      s := Sample(Null, Invalid, Null, 0, Can);
      var name := ReadText();
      var readable, value := ReadValue();
      if !readable { return false, s; }
      fine, s := ReadMetadata(name, value);
    }

    method ReadMetadata(name: QString, value: Variant) returns (fine: bool, s: Sample)
      requires Valid()
      modifies this
      ensures Valid()
      ensures Reads(old(ok), TakeMetadata(name, value, old(Rest())), fine && ok, s, Rest())
    {
      s := Sample(name, value, Null, 0, Can);
      var timestampNs := ReadInt64();
      var source := ReadUnsigned(1);
      if name.IsEmpty() || source > 3 { return false, s; }
      s := Sample(name, value, Null, timestampNs, SourceOf(source));
      fine := true;
    }

    method ReadDefinitions(count: nat) returns (fine: bool, ds: seq<Definition>)
      requires Valid()
      modifies this
      ensures Valid()
      ensures Reads(old(ok), TakeItems(TakeDefinition, count, old(Rest())), fine && ok, ds, Rest())
    {
      ds := [];
      ghost var was, all := ok, TakeItems(TakeDefinition, count, Rest());
      LoopStart(TakeDefinition, ok, count, Rest());
      for i := 0 to count
        invariant Valid()
        invariant Underway(all, TakeDefinition, was, ok, ds, count - i, Rest())
      {
        ghost var before, rest := ok, Rest();
        var one;
        fine, one := ReadDefinition();
        LoopStep(all, TakeDefinition, was, before, ds, count - i, rest, fine && ok, one, Rest());
        if !fine { return false, ds; }
        ds := ds + [one];
      }
      LoopEnd(TakeDefinition, was, ok, ds, Rest(), all);
      fine := true;
    }

    method ReadSamples(count: nat) returns (fine: bool, ss: seq<Sample>)
      requires Valid()
      modifies this
      ensures Valid()
      ensures Reads(old(ok), TakeItems(TakeSample, count, old(Rest())), fine && ok, ss, Rest())
    {
      ss := [];
      ghost var was, all := ok, TakeItems(TakeSample, count, Rest());
      LoopStart(TakeSample, ok, count, Rest());
      for i := 0 to count
        invariant Valid()
        invariant Underway(all, TakeSample, was, ok, ss, count - i, Rest())
      {
        ghost var before, rest := ok, Rest();
        var one;
        fine, one := ReadSample();
        LoopStep(all, TakeSample, was, before, ss, count - i, rest, fine && ok, one, Rest());
        if !fine { return false, ss; }
        ss := ss + [one];
      }
      LoopEnd(TakeSample, was, ok, ss, Rest(), all);
      fine := true;
    }

    /** The items of a message of a known type, up to the end of the payload. */
    method ReadItems(kind: nat, count: nat) returns (accepted: bool, m: Message)
      requires Valid()
      modifies this
      ensures accepted == (old(ok) && DecodeItems(kind, count, old(Rest())).Parsed?)
      ensures accepted ==> m == DecodeItems(kind, count, old(Rest())).value
    {
      m := Definitions([]);
      var fine;
      if kind == DEFINITIONS {
        var ds;
        fine, ds := ReadDefinitions(count);
        m := Definitions(ds);
      } else if kind == SAMPLES {
        var ss;
        fine, ss := ReadSamples(count);
        m := Samples(ss);
      } else {
        return false, m;
      }
      accepted := fine && ok && position == |bytes|;
    }

    method ReadMessage() returns (accepted: bool, m: Message)
      requires Valid() && ok && position == 0
      modifies this
      ensures accepted == DecodePayload(bytes).Parsed?
      ensures accepted ==> m == DecodePayload(bytes).value
    {
      m := Definitions([]);
      assert Rest() == bytes;
      var magic := ReadUnsigned(4);
      var version := ReadUnsigned(2);
      var kind := ReadUnsigned(1);
      var reserved := ReadUnsigned(1);
      if |bytes| >= 8 { HeaderFields(bytes); }
      if magic != MAGIC || version != VERSION { return false, m; }
      var count := ReadUnsigned(4);
      if count > MAXIMUM_ITEMS { return false, m; }
      accepted, m := ReadItems(kind, count);
    }
  }

  /** The header read field by field. */
  lemma HeaderFields(p: Octets)
    requires |p| >= 8
    ensures p[4..][..2] == p[4..6] && p[4..][2..] == p[6..]
    ensures p[6..][..1] == [p[6]] && p[6..][1..] == p[7..] && p[7..][1..] == p[8..]
    ensures FromBigEndian([p[6]]) == p[6]
    ensures |p| >= 12 ==> p[8..][..4] == p[8..12] && p[8..][4..] == p[12..]
  {
    assert [p[6]][..0] == [];
  }

  /** Takes every whole message from the front of the buffer.  It fails when what
      follows them is malformed, and then keeps the offending bytes. */
  method DecodeAvailableMessages(buffer: Octets) returns (ok: bool, messages: seq<Message>, rest: Octets)
    ensures Trace(messages, rest) == Scan(Front, buffer)
    ensures ok == !Bad(rest)
  {
    messages, rest := [], buffer;
    ghost var total := Scan(Front, buffer);
    assert [] + total.segments == total.segments;
    while |rest| >= 4
      invariant total == Prepend(messages, Scan(Front, rest))
      decreases |rest|
    {
      var again, message, after;
      ok, again, message, after := DecodeOne(rest);
      if !again {
        ScanNothing(Front, rest);
        assert messages + [] == messages;
        return;
      }
      PrependAssociates(messages, [message], Scan(Front, after));
      messages, rest := messages + [message], after;
    }
    ScanNothing(Front, rest);
    assert messages + [] == messages;
    ok := true;
  }

  /** One round of the loop. */
  lemma TakeFirst(buffer: Octets, m: Message, size: nat)
    requires Front(buffer) == Emit(m, size)
    ensures 0 < size <= |buffer| && Scan(Front, buffer) == Prepend([m], Scan(Front, buffer[size..]))
  {
    FrontIsSteady();
    ScanOne(Front, buffer, Front(buffer));
  }

  method DecodeOne(buffer: Octets) returns (ok: bool, again: bool, message: Message, rest: Octets)
    requires |buffer| >= 4
    ensures again == Front(buffer).Emit?
    ensures !again ==> ok == !Bad(buffer)
    ensures again ==> |rest| < |buffer| && Scan(Front, buffer) == Prepend([message], Scan(Front, rest))
  {
    message, rest := Definitions([]), buffer;
    var header := new DataStream(buffer[..4]);
    assert header.Rest() == buffer[..4];
    var payloadBytes := header.ReadUnsigned(4);
    assert buffer[..4][..4] == buffer[..4];
    if payloadBytes == 0 || payloadBytes > MAXIMUM_FRAME { return false, false, message, rest; }
    if |buffer| < 4 + payloadBytes { return true, false, message, rest; }
    var stream := new DataStream(buffer[4..4 + payloadBytes]);
    var accepted, m := stream.ReadMessage();
    if !accepted { return false, false, message, rest; }
    TakeFirst(buffer, m, 4 + payloadBytes);
    return true, true, m, buffer[4 + payloadBytes..];
  }

  // ---- The dash's end of the connection --------------------------------------

  /** The signal source of the dash: its side of the connection to the logger. */
  class IpcSignalSource {
    var connected: bool
    var receiveBuffer: Octets
    var unitsByName: Units

    function State(): Client
      reads this
    {
      Client(connected, receiveBuffer, unitsByName)
    }

    constructor ()
      ensures State() == Client(false, [], map[])
    {
      connected, receiveBuffer, unitsByName := false, [], map[];
    }

    method HandleConnected()
      modifies this
      ensures State() == old(State()).(open := true, buffer := []) && Idle(State())
    {
      connected, receiveBuffer := true, [];
    }

    method HandleDisconnected()
      modifies this
      ensures State() == old(State()).(open := false, buffer := [])
    {
      connected, receiveBuffer := false, [];
    }

    method LearnUnits(definitions: seq<Definition>)
      modifies this`unitsByName
      ensures unitsByName == UnitsFrom(definitions)
    {
      unitsByName := map[];
      for i := 0 to |definitions|
        invariant unitsByName == UnitsFrom(definitions[..i])
      {
        assert definitions[..i + 1][..i] == definitions[..i];
        unitsByName := unitsByName[definitions[i].name.Key() := definitions[i].unit];
      }
      assert definitions[..|definitions|] == definitions;
    }

    method FillUnits(samples: seq<Sample>) returns (filled: seq<Sample>)
      ensures filled == WithUnits(unitsByName, samples)
    {
      filled := [];
      for i := 0 to |samples|
        invariant |filled| == i
        invariant forall k :: 0 <= k < i ==> filled[k] == samples[k].(unit := UnitOf(unitsByName, samples[k].name))
      {
        filled := filled + [samples[i].(unit := UnitOf(unitsByName, samples[i].name))];
      }
    }

    method Dispatch(messages: seq<Message>) returns (told: seq<Message>)
      modifies this`unitsByName
      ensures Told(unitsByName, told) == Tell(old(unitsByName), messages)
    {
      told := [];
      ghost var start := unitsByName;
      var i := 0;
      assert messages[0..] == messages;
      while i < |messages|
        invariant i <= |messages|
        invariant Tell(start, messages) == Tell(unitsByName, messages[i..]).After(told)
      {
        ghost var before := unitsByName;
        assert messages[i..][0] == messages[i] && messages[i..][1..] == messages[i + 1..];
        var one;
        match messages[i] {
          case Definitions(ds) =>
            LearnUnits(ds);
            one := messages[i];
          case Samples(ss) =>
            var filled := FillUnits(ss);
            one := Samples(filled);
        }
        assert TellOne(before, messages[i]) == Told(unitsByName, [one]);
        AfterAfter(Tell(unitsByName, messages[i + 1..]), told, [one]);
        told := told + [one];
        i := i + 1;
      }
    }

    /** A malformed frame clears the buffer and aborts; the messages decoded with it
        are not dispatched. */
    method ReadAvailable(bytes: Octets) returns (told: seq<Message>)
      requires connected
      modifies this
      ensures Reading(State(), told) == Read(old(State()), bytes)
    {
      receiveBuffer := receiveBuffer + bytes;
      var ok, messages;
      ok, messages, receiveBuffer := DecodeAvailableMessages(receiveBuffer);
      if !ok {
        receiveBuffer, connected := [], false;
        return [];
      }
      told := Dispatch(messages);
    }
  }

  lemma AfterAfter(t: Told, a: seq<Message>, b: seq<Message>)
    ensures t.After(b).After(a) == t.After(a + b)
  {
    assert a + (b + t.messages) == (a + b) + t.messages;
  }
}
