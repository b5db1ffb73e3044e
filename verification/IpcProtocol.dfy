/** The logger-to-dash wire format: what the encoders write and what a strict
    reader makes of a payload.  The reader undoes the encoders up to the widening
    of values and the units of samples, which are not sent. */
module IpcProtocol {
  import opened Octets
  import opened SignalData

  const MAGIC := 0x4D49_5043
  const VERSION := 1
  const DEFINITIONS := 1
  const SAMPLES := 2
  const MAXIMUM_ITEMS := 100_000
  const MAXIMUM_FRAME := 16 * 1024 * 1024
  const NULL_TEXT := 0xFFFF_FFFF
  const TWO_32 := 0x1_0000_0000
  const TWO_64 := 0x1_0000_0000_0000_0000

  datatype Message = Definitions(definitions: seq<Definition>) | Samples(samples: seq<Sample>)

  // ---- Encoding --------------------------------------------------------------

  function EncodeUnits(units: seq<CodeUnit>): (r: Octets)
    ensures |r| == 2 * |units|
  {
    if units == [] then [] else BigEndian(units[0], 2) + EncodeUnits(units[1..])
  }

  function EncodeText(text: QString): Octets {
    match text
    case Null => BigEndian(NULL_TEXT, 4)
    case Text(units) => BigEndian(2 * |units| % TWO_32, 4) + EncodeUnits(units)
  }

  /** The two's complement of a signed 64-bit integer. */
  function Unsign(n: Int64): UInt64 { if n < 0 then n + TWO_64 else n }

  function Sign(n: UInt64): Int64 { if n < TWO_64 / 2 then n else n - TWO_64 }

  function EncodeValue(v: Variant): Octets {
    match v
    case Invalid => [0]
    case Unconvertible => [0]
    case Double(bits) => [1] + BigEndian(bits, 8)
    case Float(bits) => [1] + BigEndian(bits, 8)
    case Convertible(bits) => [1] + BigEndian(bits, 8)
    case Signed(_, n) => [2] + BigEndian(Unsign(n), 8)
    case Unsigned(_, n) => [3] + BigEndian(n, 8)
    case Boolean(on) => [4, if on then 1 else 0]
    case String(text) => [5] + EncodeText(text)
  }

  function EncodeDefinition(d: Definition): Octets { EncodeText(d.name) + EncodeText(d.unit) }

  function SourceOctet(source: Source): Octet {
    match source
    case Can => 0
    case Vn300 => 1
    case Replay => 2
    case Derived => 3
  }

  function EncodeSample(s: Sample): Octets {
    EncodeText(s.name) + (EncodeValue(s.value) + (BigEndian(Unsign(s.timestampNs), 8) + [SourceOctet(s.source)]))
  }

  function EncodeItems<T>(encode: T -> Octets, items: seq<T>): Octets {
    if items == [] then [] else encode(items[0]) + EncodeItems(encode, items[1..])
  }

  function Count(m: Message): nat {
    match m
    case Definitions(ds) => |ds|
    case Samples(ss) => |ss|
  }

  function Items(m: Message): Octets {
    match m
    case Definitions(ds) => EncodeItems(EncodeDefinition, ds)
    case Samples(ss) => EncodeItems(EncodeSample, ss)
  }

  function Header(kind: Octet, count: nat): (r: Octets)
    ensures |r| == 12
  {
    BigEndian(MAGIC, 4) + BigEndian(VERSION, 2) + [kind, 0] + BigEndian(count % TWO_32, 4)
  }

  function Payload(m: Message): Octets {
    Header(if m.Definitions? then DEFINITIONS else SAMPLES, Count(m)) + Items(m)
  }

  function Frame(payload: Octets): Octets {
    BigEndian(|payload| % TWO_32, 4) + payload
  }

  // ---- Decoding --------------------------------------------------------------

  /** What a strict reader takes from the front. */
  datatype Parsed<+T> = Fail | Parsed(value: T, rest: Octets)

  function TakeUnsigned(b: Octets, width: nat): (r: Parsed<nat>)
    ensures r.Parsed? ==> r.value < Power(width)
  {
    if |b| < width then Fail
    else
      BigEndianOfFromBigEndian(b[..width]);
      Parsed(FromBigEndian(b[..width]), b[width..])
  }

  function DecodeUnits(b: Octets): (r: seq<CodeUnit>)
    requires |b| % 2 == 0
    ensures 2 * |r| == |b|
  {
    if b == [] then []
    else
      BigEndianOfFromBigEndian(b[..2]);
      Powers();
      [FromBigEndian(b[..2])] + DecodeUnits(b[2..])
  }

  function TakeUnits(n: nat, b: Octets): Parsed<QString> {
    if n == NULL_TEXT then Parsed(Null, b)
    else if n % 2 == 1 || |b| < n then Fail
    else Parsed(Text(DecodeUnits(b[..n])), b[n..])
  }

  function TakeText(b: Octets): Parsed<QString> {
    match TakeUnsigned(b, 4)
    case Fail => Fail
    case Parsed(n, rest) => TakeUnits(n, rest)
  }

  function TakeUInt64(b: Octets): Parsed<UInt64> {
    Powers();
    match TakeUnsigned(b, 8)
    case Fail => Fail
    case Parsed(n, rest) => Parsed(n, rest)
  }

  function TakeInt64(b: Octets): Parsed<Int64> {
    match TakeUInt64(b)
    case Fail => Fail
    case Parsed(n, rest) => Parsed(Sign(n), rest)
  }

  function TakeContent(kind: nat, b: Octets): Parsed<Variant> {
    if kind == 0 then Parsed(Invalid, b)
    else if kind == 1 then
      match TakeUInt64(b)
      case Fail => Fail
      case Parsed(n, rest) => Parsed(Double(n), rest)
    else if kind == 2 then
      match TakeInt64(b)
      case Fail => Fail
      case Parsed(n, rest) => Parsed(Signed(W64, n), rest)
    else if kind == 3 then
      match TakeUInt64(b)
      case Fail => Fail
      case Parsed(n, rest) => Parsed(Unsigned(W64, n), rest)
    else if kind == 4 then
      match TakeUnsigned(b, 1)
      case Fail => Fail
      case Parsed(n, rest) => Parsed(Boolean(n != 0), rest)
    else if kind == 5 then
      match TakeText(b)
      case Fail => Fail
      case Parsed(text, rest) => Parsed(String(text), rest)
    else Fail
  }

  function TakeValue(b: Octets): Parsed<Variant> {
    match TakeUnsigned(b, 1)
    case Fail => Fail
    case Parsed(kind, rest) => TakeContent(kind, rest)
  }

  function TakeDefinition(b: Octets): Parsed<Definition> {
    match TakeText(b)
    case Fail => Fail
    case Parsed(name, afterName) =>
      match TakeText(afterName)
      case Fail => Fail
      case Parsed(unit, rest) => if name.IsEmpty() then Fail else Parsed(Definition(name, unit), rest)
  }

  function SourceOf(octet: nat): Source
    requires octet <= 3
  {
    if octet == 0 then Can else if octet == 1 then Vn300 else if octet == 2 then Replay else Derived
  }

  /** The part of a sample after its name and value. */
  function TakeMetadata(name: QString, value: Variant, b: Octets): Parsed<Sample> {
    match TakeInt64(b)
    case Fail => Fail
    case Parsed(timestampNs, afterTime) =>
      match TakeUnsigned(afterTime, 1)
      case Fail => Fail
      case Parsed(source, rest) =>
        if name.IsEmpty() || source > 3 then Fail
        else Parsed(Sample(name, value, Null, timestampNs, SourceOf(source)), rest)
  }

  function TakeSample(b: Octets): Parsed<Sample> {
    match TakeText(b)
    case Fail => Fail
    case Parsed(name, afterName) =>
      match TakeValue(afterName)
      case Fail => Fail
      case Parsed(value, rest) => TakeMetadata(name, value, rest)
  }

  function TakeItems<T>(take: Octets -> Parsed<T>, count: nat, b: Octets): Parsed<seq<T>> {
    if count == 0 then Parsed([], b)
    else
      match take(b)
      case Fail => Fail
      case Parsed(item, afterItem) =>
        match TakeItems(take, count - 1, afterItem)
        case Fail => Fail
        case Parsed(items, rest) => Parsed([item] + items, rest)
  }

  /** The message of a payload that is read to its very end. */
  function Whole<T>(items: Parsed<T>): Parsed<T> {
    if items.Parsed? && items.rest == [] then items else Fail
  }

  function DecodeItems(kind: nat, count: nat, b: Octets): Parsed<Message> {
    if kind == DEFINITIONS then
      match Whole(TakeItems(TakeDefinition, count, b))
      case Fail => Fail
      case Parsed(ds, rest) => Parsed(Definitions(ds), rest)
    else if kind == SAMPLES then
      match Whole(TakeItems(TakeSample, count, b))
      case Fail => Fail
      case Parsed(ss, rest) => Parsed(Samples(ss), rest)
    else Fail
  }

  /** The reserved octet at position 7 is not looked at. */
  function DecodePayload(p: Octets): Parsed<Message> {
    if |p| < 12 || FromBigEndian(p[..4]) != MAGIC || FromBigEndian(p[4..6]) != VERSION then Fail
    else
      var count := FromBigEndian(p[8..12]);
      if count > MAXIMUM_ITEMS then Fail else DecodeItems(p[6], count, p[12..])
  }

  // ---- Round trip ------------------------------------------------------------

  /** The type a value arrives with. */
  function Widen(v: Variant): Variant {
    match v
    case Unconvertible => Invalid
    case Float(bits) => Double(bits)
    case Convertible(bits) => Double(bits)
    case Signed(_, n) => Signed(W64, n)
    case Unsigned(_, n) => Unsigned(W64, n)
    case _ => v
  }

  function Received(s: Sample): Sample { s.(value := Widen(s.value), unit := Null) }

  function ReceivedMessage(m: Message): Message {
    match m
    case Definitions(_) => m
    case Samples(ss) => Samples(Map(Received, ss))
  }

  function Map<T, U>(f: T -> U, items: seq<T>): (r: seq<U>)
    ensures |r| == |items|
    ensures forall i :: 0 <= i < |items| ==> r[i] == f(items[i])
  {
    if items == [] then [] else [f(items[0])] + Map(f, items[1..])
  }

  predicate Named(m: Message) {
    match m
    case Definitions(ds) => forall i :: 0 <= i < |ds| ==> !ds[i].name.IsEmpty()
    case Samples(ss) => forall i :: 0 <= i < |ss| ==> !ss[i].name.IsEmpty()
  }

  /** What the encoders promise to get across. */
  predicate Encodable(m: Message) {
    Named(m) && Count(m) <= MAXIMUM_ITEMS && |Payload(m)| <= MAXIMUM_FRAME
  }

  lemma TakeUnsignedBack(n: nat, width: nat, rest: Octets)
    requires n < Power(width)
    ensures TakeUnsigned(BigEndian(n, width) + rest, width) == Parsed(n, rest)
  {
    var b := BigEndian(n, width) + rest;
    assert b[..width] == BigEndian(n, width) && b[width..] == rest;
    FromBigEndianOfBigEndian(n, width);
  }

  lemma {:induction false} DecodeUnitsBack(units: seq<CodeUnit>)
    ensures DecodeUnits(EncodeUnits(units)) == units
  {
    if units != [] {
      DecodeUnitsBack(units[1..]);
      Powers();
      FromBigEndianOfBigEndian(units[0], 2);
      var b := EncodeUnits(units);
      assert b[..2] == BigEndian(units[0], 2) && b[2..] == EncodeUnits(units[1..]);
    }
  }

  lemma TakeUnitsAt(body: Octets, rest: Octets)
    requires |body| % 2 == 0 && |body| < NULL_TEXT
    ensures TakeUnits(|body|, body + rest) == Parsed(Text(DecodeUnits(body)), rest)
  {
    assert (body + rest)[..|body|] == body && (body + rest)[|body|..] == rest;
  }

  lemma TakeTextBack(text: QString, rest: Octets)
    requires |EncodeText(text)| <= MAXIMUM_FRAME
    ensures TakeText(EncodeText(text) + rest) == Parsed(text, rest)
  {
    match text {
      case Null => TakeNullBack(rest);
      case Text(units) =>
        assert |EncodeText(text)| == 4 + 2 * |units|;
        TakeNonNullBack(units, rest);
    }
  }

  lemma TakeNullBack(rest: Octets)
    ensures TakeText(BigEndian(NULL_TEXT, 4) + rest) == Parsed(Null, rest)
  {
    TakePrefixed(NULL_TEXT, [], rest);
    assert BigEndian(NULL_TEXT, 4) + [] == BigEndian(NULL_TEXT, 4) && [] + rest == rest;
  }

  lemma EvenLength(n: nat)
    ensures 2 * n % 2 == 0
    ensures 2 * n < TWO_32 ==> 2 * n % TWO_32 == 2 * n
  {
  }

  lemma TakeNonNullBack(units: seq<CodeUnit>, rest: Octets)
    requires 2 * |units| < NULL_TEXT
    ensures TakeText((BigEndian(2 * |units| % TWO_32, 4) + EncodeUnits(units)) + rest) == Parsed(Text(units), rest)
  {
    var body := EncodeUnits(units);
    EvenLength(|units|);
    DecodeUnitsBack(units);
    TakeUnitsAt(body, rest);
    TakePrefixed(|body|, body, rest);
  }

  lemma TakePrefixed(n: nat, body: Octets, rest: Octets)
    requires n < TWO_32
    ensures TakeText((BigEndian(n, 4) + body) + rest) == TakeUnits(n, body + rest)
  {
    Powers();
    TakeUnsignedBack(n, 4, body + rest);
    assert (BigEndian(n, 4) + body) + rest == BigEndian(n, 4) + (body + rest);
  }

  lemma TakeUInt64Back(n: UInt64, rest: Octets)
    ensures TakeUInt64(BigEndian(n, 8) + rest) == Parsed(n, rest)
  {
    Powers();
    TakeUnsignedBack(n, 8, rest);
  }

  lemma TakeInt64Back(n: Int64, rest: Octets)
    ensures TakeInt64(BigEndian(Unsign(n), 8) + rest) == Parsed(n, rest)
  {
    TakeUInt64Back(Unsign(n), rest);
  }

  lemma TakeOctetBack(o: Octet, rest: Octets)
    ensures TakeUnsigned([o] + rest, 1) == Parsed(o, rest)
  {
    Powers();
    assert BigEndian(o, 1) == [o] by { assert BigEndian(o / 256, 0) == []; }
    TakeUnsignedBack(o, 1, rest);
  }

  lemma TakeValueBack(v: Variant, rest: Octets)
    requires |EncodeValue(v)| <= MAXIMUM_FRAME
    ensures TakeValue(EncodeValue(v) + rest) == Parsed(Widen(v), rest)
  {
    var b := EncodeValue(v);
    assert b + rest == [b[0]] + (b[1..] + rest);
    TakeOctetBack(b[0], b[1..] + rest);
    TakeContentBack(v, rest);
  }

  lemma TakeContentBack(v: Variant, rest: Octets)
    requires |EncodeValue(v)| <= MAXIMUM_FRAME
    ensures TakeContent(EncodeValue(v)[0], EncodeValue(v)[1..] + rest) == Parsed(Widen(v), rest)
  {
    var body := EncodeValue(v)[1..];
    match v {
      case Invalid => assert body + rest == rest;
      case Unconvertible => assert body + rest == rest;
      case Double(bits) => TakeUInt64Back(bits, rest);
      case Float(bits) => TakeUInt64Back(bits, rest);
      case Convertible(bits) => TakeUInt64Back(bits, rest);
      case Signed(_, n) => TakeInt64Back(n, rest);
      case Unsigned(_, n) => TakeUInt64Back(n, rest);
      case Boolean(on) => TakeOctetBack(if on then 1 else 0, rest);
      case String(text) => TakeTextBack(text, rest);
    }
  }

  lemma TakeDefinitionBack(d: Definition, rest: Octets)
    requires !d.name.IsEmpty() && |EncodeDefinition(d)| <= MAXIMUM_FRAME
    ensures TakeDefinition(EncodeDefinition(d) + rest) == Parsed(d, rest)
  {
    assert EncodeDefinition(d) + rest == EncodeText(d.name) + (EncodeText(d.unit) + rest);
    TakeTextBack(d.name, EncodeText(d.unit) + rest);
    TakeTextBack(d.unit, rest);
  }

  lemma TakeMetadataBack(s: Sample, value: Variant, rest: Octets)
    requires !s.name.IsEmpty()
    ensures TakeMetadata(s.name, value, (BigEndian(Unsign(s.timestampNs), 8) + [SourceOctet(s.source)]) + rest)
      == Parsed(s.(value := value, unit := Null), rest)
  {
    var time, source := BigEndian(Unsign(s.timestampNs), 8), [SourceOctet(s.source)];
    assert (time + source) + rest == time + (source + rest);
    TakeInt64Back(s.timestampNs, source + rest);
    TakeOctetBack(SourceOctet(s.source), rest);
  }

  lemma TakeSampleBack(s: Sample, rest: Octets)
    requires !s.name.IsEmpty() && |EncodeSample(s)| <= MAXIMUM_FRAME
    ensures TakeSample(EncodeSample(s) + rest) == Parsed(Received(s), rest)
  {
    var name, value := EncodeText(s.name), EncodeValue(s.value);
    var end := BigEndian(Unsign(s.timestampNs), 8) + [SourceOctet(s.source)];
    Nested(name, value, end, rest);
    TakeTextBack(s.name, value + (end + rest));
    TakeValueBack(s.value, end + rest);
    TakeMetadataBack(s, Widen(s.value), rest);
    TakeParts(name + (value + (end + rest)), value + (end + rest), end + rest, s.name, Widen(s.value));
  }

  lemma Nested(a: Octets, b: Octets, c: Octets, rest: Octets)
    ensures (a + (b + c)) + rest == a + (b + (c + rest))
  {
  }

  lemma TakeParts(all: Octets, afterName: Octets, end: Octets, name: QString, value: Variant)
    requires TakeText(all) == Parsed(name, afterName) && TakeValue(afterName) == Parsed(value, end)
    ensures TakeSample(all) == TakeMetadata(name, value, end)
  {
  }

  lemma {:induction false} TakeItemsBack<T(!new)>(
    encode: T -> Octets, take: Octets -> Parsed<T>, received: T -> T, items: seq<T>, rest: Octets)
    requires forall i, later {:trigger take(encode(items[i]) + later)} ::
      0 <= i < |items| ==> take(encode(items[i]) + later) == Parsed(received(items[i]), later)
    ensures TakeItems(take, |items|, EncodeItems(encode, items) + rest) == Parsed(Map(received, items), rest)
  {
    if items == [] {
      assert EncodeItems(encode, items) + rest == rest;
    } else {
      var later := EncodeItems(encode, items[1..]) + rest;
      assert EncodeItems(encode, items) + rest == encode(items[0]) + later;
      assert take(encode(items[0]) + later) == Parsed(received(items[0]), later);
      TakeItemsBack(encode, take, received, items[1..], rest);
    }
  }

  lemma {:induction false} ItemIsShorter<T>(encode: T -> Octets, items: seq<T>, i: nat)
    requires i < |items|
    ensures |encode(items[i])| <= |EncodeItems(encode, items)|
  {
    if i > 0 {
      ItemIsShorter(encode, items[1..], i - 1);
    }
  }

  lemma AllItemsBack<T(!new)>(encode: T -> Octets, take: Octets -> Parsed<T>, received: T -> T, items: seq<T>)
    requires forall i, later {:trigger take(encode(items[i]) + later)} ::
      0 <= i < |items| ==> take(encode(items[i]) + later) == Parsed(received(items[i]), later)
    ensures TakeItems(take, |items|, EncodeItems(encode, items)) == Parsed(Map(received, items), [])
  {
    TakeItemsBack(encode, take, received, items, []);
    assert EncodeItems(encode, items) + [] == EncodeItems(encode, items);
  }

  function Same(d: Definition): Definition { d }

  lemma MapSame(ds: seq<Definition>)
    ensures Map(Same, ds) == ds
  {
    assert forall i :: 0 <= i < |ds| ==> Map(Same, ds)[i] == ds[i];
  }

  lemma DefinitionsBack(ds: seq<Definition>)
    requires forall i :: 0 <= i < |ds| ==> !ds[i].name.IsEmpty()
    requires |EncodeItems(EncodeDefinition, ds)| <= MAXIMUM_FRAME
    ensures TakeItems(TakeDefinition, |ds|, EncodeItems(EncodeDefinition, ds)) == Parsed(ds, [])
  {
    forall i, later | 0 <= i < |ds|
      ensures TakeDefinition(EncodeDefinition(ds[i]) + later) == Parsed(Same(ds[i]), later)
    {
      ItemIsShorter(EncodeDefinition, ds, i);
      TakeDefinitionBack(ds[i], later);
    }
    AllItemsBack(EncodeDefinition, TakeDefinition, Same, ds);
    MapSame(ds);
  }

  lemma SamplesBack(ss: seq<Sample>)
    requires forall i :: 0 <= i < |ss| ==> !ss[i].name.IsEmpty()
    requires |EncodeItems(EncodeSample, ss)| <= MAXIMUM_FRAME
    ensures TakeItems(TakeSample, |ss|, EncodeItems(EncodeSample, ss)) == Parsed(Map(Received, ss), [])
  {
    forall i, later | 0 <= i < |ss|
      ensures TakeSample(EncodeSample(ss[i]) + later) == Parsed(Received(ss[i]), later)
    {
      ItemIsShorter(EncodeSample, ss, i);
      TakeSampleBack(ss[i], later);
    }
    AllItemsBack(EncodeSample, TakeSample, Received, ss);
  }

  /** Where the fields of a header lie. */
  lemma HeaderSlices(magic: Octets, version: Octets, kind: Octet, count: Octets, items: Octets)
    requires |magic| == 4 && |version| == 2 && |count| == 4
    ensures var p := magic + version + [kind, 0] + count + items;
      && p[..4] == magic && p[4..6] == version && p[6] == kind && p[8..12] == count && p[12..] == items
  {
  }

  lemma HeaderNumbers(count: nat)
    requires count <= MAXIMUM_ITEMS
    ensures FromBigEndian(BigEndian(MAGIC, 4)) == MAGIC && FromBigEndian(BigEndian(VERSION, 2)) == VERSION
    ensures FromBigEndian(BigEndian(count % TWO_32, 4)) == count
  {
    Powers();
    CountNumber(count, 4);
    MagicNumbers();
  }

  lemma MagicNumbers()
    ensures FromBigEndian(BigEndian(MAGIC, 4)) == MAGIC && FromBigEndian(BigEndian(VERSION, 2)) == VERSION
  {
    Powers();
    FromBigEndianOfBigEndian(MAGIC, 4);
    FromBigEndianOfBigEndian(VERSION, 2);
  }

  lemma CountNumber(count: nat, width: nat)
    requires count <= MAXIMUM_ITEMS && Power(width) == TWO_32
    ensures FromBigEndian(BigEndian(count % TWO_32, width)) == count
  {
    assert count % TWO_32 == count;
    FromBigEndianOfBigEndian(count, width);
  }

  lemma HeaderBack(kind: Octet, count: nat, items: Octets)
    requires count <= MAXIMUM_ITEMS
    ensures DecodePayload(Header(kind, count) + items) == DecodeItems(kind, count, items)
  {
    HeaderNumbers(count);
    HeaderSlices(BigEndian(MAGIC, 4), BigEndian(VERSION, 2), kind, BigEndian(count % TWO_32, 4), items);
  }

  /** Whatever can be encoded is read back, with values widened and the units of
      samples left behind. */
  lemma PayloadRoundTrip(m: Message)
    requires Encodable(m)
    ensures DecodePayload(Payload(m)) == Parsed(ReceivedMessage(m), [])
  {
    match m {
      case Definitions(ds) =>
        DefinitionsBack(ds);
        HeaderBack(DEFINITIONS, |ds|, Items(m));
      case Samples(ss) =>
        SamplesBack(ss);
        HeaderBack(SAMPLES, |ss|, Items(m));
    }
  }

  // ---- What is accepted can be sent again ------------------------------------

  lemma TakenText(b: Octets)
    requires TakeText(b).Parsed?
    ensures |EncodeText(TakeText(b).value)| + |TakeText(b).rest| == |b|
  {
  }

  lemma TakenValue(b: Octets)
    requires TakeValue(b).Parsed?
    ensures var v := TakeValue(b).value; Widen(v) == v && |EncodeValue(v)| + |TakeValue(b).rest| == |b|
  {
    var kind, rest := TakeUnsigned(b, 1).value, TakeUnsigned(b, 1).rest;
    if kind == 5 { TakenText(rest); }
  }

  lemma TakenDefinition(b: Octets)
    requires TakeDefinition(b).Parsed?
    ensures var d := TakeDefinition(b).value;
      !d.name.IsEmpty() && |EncodeDefinition(d)| + |TakeDefinition(b).rest| == |b|
  {
    TakenText(b);
    TakenText(TakeText(b).rest);
  }

  lemma TakenSample(b: Octets)
    requires TakeSample(b).Parsed?
    ensures var s := TakeSample(b).value;
      !s.name.IsEmpty() && Received(s) == s && |EncodeSample(s)| + |TakeSample(b).rest| == |b|
  {
    TakenText(b);
    TakenValue(TakeText(b).rest);
  }

  lemma {:induction false} TakenItems<T(!new)>(
    encode: T -> Octets, take: Octets -> Parsed<T>, fine: T -> bool, count: nat, b: Octets)
    requires forall b :: take(b).Parsed? ==> fine(take(b).value) && |encode(take(b).value)| + |take(b).rest| == |b|
    requires TakeItems(take, count, b).Parsed?
    ensures var r := TakeItems(take, count, b);
      && |r.value| == count && |EncodeItems(encode, r.value)| + |r.rest| == |b|
      && forall i :: 0 <= i < count ==> fine(r.value[i])
    decreases count
  {
    if count > 0 {
      var one := take(b);
      assert one.Parsed?;
      TakenItems(encode, take, fine, count - 1, one.rest);
      var r := TakeItems(take, count - 1, one.rest);
      assert ([one.value] + r.value)[1..] == r.value;
    }
  }

  lemma TakenDefinitions(count: nat, b: Octets)
    requires TakeItems(TakeDefinition, count, b).Parsed?
    ensures var r := TakeItems(TakeDefinition, count, b);
      && |r.value| == count && |EncodeItems(EncodeDefinition, r.value)| + |r.rest| == |b|
      && forall i :: 0 <= i < count ==> !r.value[i].name.IsEmpty()
  {
    forall b | TakeDefinition(b).Parsed?
      ensures !TakeDefinition(b).value.name.IsEmpty()
      ensures |EncodeDefinition(TakeDefinition(b).value)| + |TakeDefinition(b).rest| == |b|
    {
      TakenDefinition(b);
    }
    TakenItems(EncodeDefinition, TakeDefinition, (d: Definition) => !d.name.IsEmpty(), count, b);
  }

  predicate Settled(s: Sample) { !s.name.IsEmpty() && Received(s) == s }

  lemma TakenSamples(count: nat, b: Octets)
    requires TakeItems(TakeSample, count, b).Parsed?
    ensures var r := TakeItems(TakeSample, count, b);
      && |r.value| == count && |EncodeItems(EncodeSample, r.value)| + |r.rest| == |b|
      && forall i :: 0 <= i < count ==> Settled(r.value[i])
  {
    forall b | TakeSample(b).Parsed?
      ensures Settled(TakeSample(b).value) && |EncodeSample(TakeSample(b).value)| + |TakeSample(b).rest| == |b|
    {
      TakenSample(b);
    }
    TakenItems(EncodeSample, TakeSample, Settled, count, b);
  }

  lemma {:induction false} MapReceived(ss: seq<Sample>)
    requires forall i :: 0 <= i < |ss| ==> Settled(ss[i])
    ensures Map(Received, ss) == ss
  {
    assert forall i :: 0 <= i < |ss| ==> Map(Received, ss)[i] == ss[i];
  }

  lemma DecodedItems(kind: nat, count: nat, b: Octets)
    requires DecodeItems(kind, count, b).Parsed?
    ensures var m := DecodeItems(kind, count, b).value;
      Named(m) && Count(m) == count && ReceivedMessage(m) == m && |Items(m)| == |b|
  {
    if kind == DEFINITIONS {
      TakenDefinitions(count, b);
    } else {
      TakenSamples(count, b);
      MapReceived(TakeItems(TakeSample, count, b).value);
    }
  }

  /** An accepted payload can be sent again: its message encodes to a payload of
      the same length that is read as the same message. */
  lemma AcceptedPayloadIsStable(p: Octets)
    requires |p| <= MAXIMUM_FRAME && DecodePayload(p).Parsed?
    ensures var m := DecodePayload(p).value;
      Encodable(m) && |Payload(m)| == |p| && DecodePayload(Payload(m)) == DecodePayload(p)
  {
    var count := FromBigEndian(p[8..12]);
    DecodedItems(p[6], count, p[12..]);
    PayloadRoundTrip(DecodePayload(p).value);
  }
}
