/** The octets of the wire, one by one. */
module IpcWire {
  import opened Octets
  import opened SignalData
  import opened IpcProtocol
  import opened IpcStream

  // ---- Integers --------------------------------------------------------------

  /** Octets say a number, the highest octet first. */
  ghost predicate Two(e: Octets, n: int) { |e| == 2 && n == 256 * (e[0] as int) + e[1] }

  ghost predicate Four(e: Octets, n: int) {
    |e| == 4 && n == 0x100_0000 * (e[0] as int) + 0x1_0000 * (e[1] as int) + 256 * (e[2] as int) + e[3]
  }

  ghost predicate Eight(e: Octets, n: int) {
    |e| == 8 && exists high, low :: Four(e[..4], high) && Four(e[4..], low) && n == 0x1_0000_0000 * high + low
  }

  lemma TwoAre(n: nat)
    requires n < 0x1_0000
    ensures Two(BigEndian(n, 2), n)
  {
    Powers();
    FromBigEndianOfBigEndian(n, 2);
    TwoSay(BigEndian(n, 2));
  }

  lemma TwoSay(e: Octets)
    requires |e| == 2
    ensures Two(e, FromBigEndian(e))
  {
    var one := e[..1];
    assert one[..0] == [];
    assert FromBigEndian(one) == 256 * FromBigEndian([]) + one[0];
  }

  lemma FourAre(n: nat)
    requires n < 0x1_0000_0000
    ensures Four(BigEndian(n, 4), n)
  {
    Powers();
    FromBigEndianOfBigEndian(n, 4);
    FourSay(BigEndian(n, 4));
  }

  lemma FourSay(e: Octets)
    requires |e| == 4
    ensures Four(e, FromBigEndian(e))
  {
    assert e[..3][..2] == e[..2];
    TwoSay(e[..2]);
  }

  lemma EightAre(n: nat)
    requires n < 0x1_0000_0000_0000_0000
    ensures |BigEndian(n, 8)| == 8 && Eight(BigEndian(n, 8), n)
  {
    Powers();
    FromBigEndianOfBigEndian(n, 8);
    var e := BigEndian(n, 8);
    FourSay(e[..4]);
    FourSay(e[4..]);
    FromTwoParts(e[..4], e[4..]);
    assert e == e[..4] + e[4..];
  }

  lemma FromTwoParts(front: Octets, back: Octets)
    requires |back| == 4
    ensures FromBigEndian(front + back) == 0x1_0000_0000 * FromBigEndian(front) + FromBigEndian(back)
  {
    var e, n := front + back, |front|;
    FourSay(back);
    assert e[..n + 3][..n + 2] == e[..n + 2] && e[..n + 2][..n + 1] == e[..n + 1] && e[..n + 1][..n] == front;
    assert FromBigEndian(e) == 256 * FromBigEndian(e[..n + 3]) + back[3];
    assert FromBigEndian(e[..n + 3]) == 256 * FromBigEndian(e[..n + 2]) + back[2];
    assert FromBigEndian(e[..n + 2]) == 256 * FromBigEndian(e[..n + 1]) + back[1];
    assert FromBigEndian(e[..n + 1]) == 256 * FromBigEndian(front) + back[0];
  }

  // ---- Frames ----------------------------------------------------------------

  /** Its length without these four octets, "MIPC", version one, the kind of the message,
      a zero, the number of items, and the items. */
  ghost predicate FrameIs(f: Octets, kind: Octet, count: nat, items: Octets) {
    && |f| == 16 + |items| && Four(f[..4], |f| - 4)
    && f[4..8] == ['M' as int, 'I' as int, 'P' as int, 'C' as int] && f[8..12] == [0, 1, kind, 0]
    && Four(f[12..16], count) && f[16..] == items
  }

  lemma NumberOf(n: nat) returns (number: Octets)
    requires n < 0x1_0000_0000
    ensures number == BigEndian(n % TWO_32, 4) && Four(number, n)
  {
    Fits(n);
    number := BigEndian(n % TWO_32, 4);
    FourAre(n % TWO_32);
  }

  lemma Fits(n: nat)
    requires n < 0x1_0000_0000
    ensures n % TWO_32 == n
  {
  }

  lemma LengthOf(payload: Octets) returns (length: Octets)
    requires |payload| < 0x1_0000_0000
    ensures Frame(payload) == length + payload && Four(length, |payload|)
  {
    length := NumberOf(|payload|);
  }

  lemma HeaderOf(kind: Octet, count: nat) returns (magic: Octets, version: Octets, number: Octets)
    requires count < 0x1_0000_0000
    ensures Header(kind, count) == magic + version + [kind, 0] + number
    ensures magic == ['M' as int, 'I' as int, 'P' as int, 'C' as int] && version == [0, 1] && Four(number, count)
  {
    magic, version := Words();
    number := NumberOf(count);
  }

  lemma Words() returns (magic: Octets, version: Octets)
    ensures magic == BigEndian(MAGIC, 4) == ['M' as int, 'I' as int, 'P' as int, 'C' as int]
    ensures version == BigEndian(VERSION, 2) == [0, 1]
  {
    magic, version := BigEndian(MAGIC, 4), BigEndian(VERSION, 2);
    FourAre(MAGIC);
    TwoAre(VERSION);
  }

  lemma FrameParts(f: Octets, h: Octets, length: Octets, magic: Octets, version: Octets, kind: Octet, number: Octets,
    count: nat, items: Octets)
    requires f == length + (h + items) && h == magic + version + [kind, 0] + number
    requires Four(length, |h + items|) && magic == ['M' as int, 'I' as int, 'P' as int, 'C' as int]
    requires version == [0, 1] && Four(number, count)
    ensures FrameIs(f, kind, count, items)
  {
    assert f[..4] == length && f[4..8] == magic && f[12..16] == number && f[16..] == items;
  }

  lemma FrameHas(h: Octets, kind: Octet, count: nat, items: Octets)
    requires count < 0x1_0000_0000 && 12 + |items| < 0x1_0000_0000 && h == Header(kind, count)
    ensures FrameIs(Frame(h + items), kind, count, items)
  {
    var magic, version, number := HeaderOf(kind, count);
    var length := LengthOf(h + items);
    FrameParts(Frame(h + items), h, length, magic, version, kind, number, count, items);
  }

  /** A message goes out as such a frame. */
  lemma FrameOctets(m: Message)
    requires Encodable(m)
    ensures FrameIs(Frame(Payload(m)), if m.Definitions? then 1 else 2, Count(m), Items(m))
  {
    var kind: Octet := if m.Definitions? then DEFINITIONS else SAMPLES;
    FrameHas(Header(kind, Count(m)), kind, Count(m), Items(m));
  }

  // ---- Items -----------------------------------------------------------------

  /** A text is the number of its octets and two octets for each code unit; the text that
      is null has four octets of ones instead. */
  lemma TextOctets(t: QString)
    requires t.Text? ==> 2 * |t.units| < 0x1_0000_0000
    ensures t.Null? ==> EncodeText(t) == [255, 255, 255, 255]
    ensures t.Text? ==>
      && |EncodeText(t)| == 4 + 2 * |t.units| && Four(EncodeText(t)[..4], 2 * |t.units|)
      && SaysUnits(EncodeText(t)[4..], t.units)
  {
    if t.Null? {
      FourAre(NULL_TEXT);
    } else {
      UnitOctets(t.units);
      var length := LengthOf(EncodeUnits(t.units));
      assert EncodeText(t) == length + EncodeUnits(t.units);
      assert EncodeText(t)[..4] == length && EncodeText(t)[4..] == EncodeUnits(t.units);
    }
  }

  ghost predicate SaysUnits(e: Octets, units: seq<CodeUnit>) {
    |e| == 2 * |units| && forall k :: 0 <= k < |units| ==> Two(e[2 * k..2 * k + 2], units[k])
  }

  lemma {:induction false} UnitOctets(units: seq<CodeUnit>)
    ensures SaysUnits(EncodeUnits(units), units)
  {
    if units != [] {
      UnitOctets(units[1..]);
      TwoAre(units[0]);
      FirstUnit(BigEndian(units[0], 2), EncodeUnits(units[1..]), units);
    }
  }

  lemma FirstUnit(first: Octets, others: Octets, units: seq<CodeUnit>)
    requires units != [] && Two(first, units[0]) && SaysUnits(others, units[1..])
    ensures SaysUnits(first + others, units)
  {
    var e := first + others;
    forall k | 0 <= k < |units| ensures Two(e[2 * k..2 * k + 2], units[k]) {
      if k == 0 {
        assert e[..2] == first;
      } else {
        assert e[2 * k..2 * k + 2] == others[2 * (k - 1)..2 * (k - 1) + 2];
        assert units[1..][k - 1] == units[k];
      }
    }
  }

  const TWO_TO_THE_64 := 0x1_0000_0000_0000_0000

  /** A value is its tag and its content: none for what is no value, eight octets for a
      number, one for a truth value, a text for a text. */
  lemma ValueOctets(v: Variant)
    ensures var e := EncodeValue(v);
      match v
      case Invalid => e == [0]
      case Unconvertible => e == [0]
      case Double(bits) => |e| == 9 && e[0] == 1 && Eight(e[1..], bits)
      case Float(bits) => |e| == 9 && e[0] == 1 && Eight(e[1..], bits)
      case Convertible(bits) => |e| == 9 && e[0] == 1 && Eight(e[1..], bits)
      case Signed(_, n) => |e| == 9 && e[0] == 2 && Eight(e[1..], if n < 0 then n + TWO_TO_THE_64 else n)
      case Unsigned(_, n) => |e| == 9 && e[0] == 3 && Eight(e[1..], n)
      case Boolean(on) => e == (if on then [4, 1] else [4, 0])
      case String(text) => e[0] == 5 && e[1..] == EncodeText(text)
  {
    match v {
      case Double(bits) => EightAre(bits);
      case Float(bits) => EightAre(bits);
      case Convertible(bits) => EightAre(bits);
      case Signed(_, n) => var time := TimeOf(n);
      case Unsigned(_, n) => EightAre(n);
      case _ =>
    }
  }

  /** A sample is its name, its value, its time in eight octets and its source. */
  lemma SampleOctets(s: Sample)
    ensures var e, name, value := EncodeSample(s), EncodeText(s.name), EncodeValue(s.value);
      && |e| == |name| + |value| + 9 && e[..|name|] == name && e[|name|..|name| + |value|] == value
      && Eight(e[|e| - 9..|e| - 1], if s.timestampNs < 0 then s.timestampNs + TWO_TO_THE_64 else s.timestampNs)
      && e[|e| - 1] == match s.source case Can => 0 case Vn300 => 1 case Replay => 2 case Derived => 3
  {
    var time := TimeOf(s.timestampNs);
    SampleParts(EncodeText(s.name), EncodeValue(s.value), time, [SourceOctet(s.source)]);
  }

  lemma TimeOf(n: Int64) returns (time: Octets)
    ensures time == BigEndian(Unsign(n), 8) && |time| == 8
    ensures Eight(time, if n < 0 then n + TWO_TO_THE_64 else n)
  {
    time := BigEndian(Unsign(n), 8);
    EightAre(Unsign(n));
  }

  lemma SampleParts(name: Octets, value: Octets, time: Octets, source: Octets)
    requires |time| == 8 && |source| == 1
    ensures var e := name + (value + (time + source));
      && |e| == |name| + |value| + 9 && e[..|name|] == name && e[|name|..|name| + |value|] == value
      && e[|e| - 9..|e| - 1] == time && e[|e| - 1] == source[0]
  {
  }

  // ---- Reading ---------------------------------------------------------------

  /** The buffer begins with the length `n`, and so many octets have come. */
  ghost predicate Announces(buf: Octets, n: nat) { |buf| >= 4 && Four(buf[..4], n) }

  lemma LengthIs(buf: Octets)
    requires |buf| >= 4
    ensures forall n: nat :: Announces(buf, n) <==> n == PayloadLength(buf)
  {
    FourSay(buf[..4]);
  }

  /** Its length is zero or above 16 MiB, or all of it is there and is malformed. */
  ghost predicate Refuses(buf: Octets, n: nat) {
    n == 0 || n > 0x100_0000 || (|buf| >= 4 + n && DecodePayload(buf[4..4 + n]).Fail?)
  }

  /** All of it is there and says this message. */
  ghost predicate Says(buf: Octets, n: nat, m: Message) {
    && 1 <= n <= 0x100_0000 && |buf| >= 4 + n
    && DecodePayload(buf[4..4 + n]).Parsed? && DecodePayload(buf[4..4 + n]).value == m
  }

  /** A frame is refused as soon as that can be known. */
  lemma RefusedIff(buf: Octets)
    ensures Bad(buf) <==> exists n: nat :: Announces(buf, n) && Refuses(buf, n)
  {
    if |buf| >= 4 {
      LengthIs(buf);
      assert Announces(buf, PayloadLength(buf));
      assert Bad(buf) <==> Refuses(buf, PayloadLength(buf));
    }
  }

  /** A message is taken as soon as all of a sound frame is there, and nothing else is. */
  lemma TakenIff(buf: Octets, m: Message, size: nat)
    ensures Front(buf).Emit? && Front(buf).segment == m && Front(buf).size == size
      <==> exists n: nat :: Announces(buf, n) && Says(buf, n, m) && size == 4 + n
  {
    if |buf| >= 4 {
      LengthIs(buf);
      var n := PayloadLength(buf);
      assert Announces(buf, n);
      FrontSays(buf, n, m, size);
    }
  }

  lemma FrontSays(buf: Octets, n: nat, m: Message, size: nat)
    requires |buf| >= 4 && n == PayloadLength(buf)
    ensures Front(buf).Emit? && Front(buf).segment == m && Front(buf).size == size <==> Says(buf, n, m) && size == 4 + n
  {
  }
}
