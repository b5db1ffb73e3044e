/** The simulator's packet encoder and its fault injection, against the parser. */
module Vn300Simulator {
  import opened Options
  import opened Bits
  import opened Crc
  import opened Vn300Layout
  import opened Vn300Header
  import opened StreamScan
  import opened Vn300Stream

  const COMMON_GROUP_AND_ATTITUDE: Byte := [true, false, false, false, true, false, false, false]
  const ALL_BITS: Byte := [true, true, true, true, true, true, true, true]
  const ALL_BUT_TOP: Byte := [true, true, true, true, true, true, true, false]
  const BIT_SIX: Byte := [false, false, false, false, false, false, true, false]

  /** Sync byte, group byte 0x11, type words 0x7FFF and 0x0040. */
  const HEADER_BYTES: seq<Byte> :=
    [SYNC, COMMON_GROUP_AND_ATTITUDE, ALL_BITS, ALL_BUT_TOP, BIT_SIX, Zeros(8)]

  const COMMON_MASK: Bits := ALL_BITS[..] + ALL_BUT_TOP[..7]
  const ATTITUDE_MASK: Bits := BIT_SIX[..] + Zeros(8)[..7]

  /** The fields in the order the encoder appends them. */
  const CLOCKS: seq<Field> :=
    [Sampled(TimeStartup, Nanoseconds64), Sampled(TimeGps, Nanoseconds64),
     Sampled(TimeSyncIn, Nanoseconds64)]
  const ANGLES_SIGNALS: seq<Signal> :=
    [Yaw, Pitch, Roll, QuatX, QuatY, QuatZ, QuatS, AngularRateX, AngularRateY, AngularRateZ]
  const ANGLES: seq<Field> := Floats(ANGLES_SIGNALS)
  const POSITION: seq<Field> :=
    [Sampled(Latitude, Float64), Sampled(Longitude, Float64), Sampled(Altitude, Float64)]
  const MOTION_SIGNALS: seq<Signal> :=
    [VelocityNorth, VelocityEast, VelocityDown, AccelX, AccelY, AccelZ,
     UncompAccelX, UncompAccelY, UncompAccelZ, UncompGyroX, UncompGyroY, UncompGyroZ]
  const MOTION: seq<Field> := Floats(MOTION_SIGNALS)
  const AIR_SIGNALS: seq<Signal> :=
    [MagX, MagY, MagZ, Temperature, Pressure, DeltaTime,
     DeltaThetaX, DeltaThetaY, DeltaThetaZ, DeltaVelocityX, DeltaVelocityY, DeltaVelocityZ]
  const AIR: seq<Field> := Floats(AIR_SIGNALS)
  const STATUS: seq<Field> :=
    [Sampled(InsStatus, Unsigned16), Sampled(SyncInCount, Unsigned32),
     Sampled(TimeGpsPps, Nanoseconds64)]
  const BODY_ACCELERATION_SIGNALS: seq<Signal> :=
    [LinBodyAccelX, LinBodyAccelY, LinBodyAccelZ]
  const BODY_ACCELERATION: seq<Field> := Floats(BODY_ACCELERATION_SIGNALS)
  const SIMULATED_LISTS: seq<seq<Field>> := [CLOCKS, ANGLES, POSITION, MOTION, AIR, STATUS, BODY_ACCELERATION]
  const SIMULATED: seq<Field> := Chain(SIMULATED_LISTS)

  function Chain<T>(lists: seq<seq<T>>): seq<T> {
    if lists == [] then [] else lists[0] + Chain(lists[1..])
  }

  lemma ChainCons<T>(head: seq<T>, rest: seq<seq<T>>)
    ensures Chain([head] + rest) == head + Chain(rest)
  {
    assert ([head] + rest)[1..] == rest;
  }

  lemma ChainOfSeven<T>(a: seq<T>, b: seq<T>, c: seq<T>, d: seq<T>, e: seq<T>, f: seq<T>, g: seq<T>)
    ensures Chain([a, b, c, d, e, f, g]) == a + (b + (c + (d + (e + (f + g)))))
  {
    ChainCons(g, []);
    assert [g] + [] == [g] && g + [] == g;
    ChainCons(f, [g]);
    ChainCons(e, [f] + [g]);
    ChainCons(d, [e] + ([f] + [g]));
    ChainCons(c, [d] + ([e] + ([f] + [g])));
    ChainCons(b, [c] + ([d] + ([e] + ([f] + [g]))));
    ChainCons(a, [b] + ([c] + ([d] + ([e] + ([f] + [g])))));
    assert [a, b, c, d, e, f, g] == [a] + ([b] + ([c] + ([d] + ([e] + ([f] + [g])))));
  }

  lemma {:induction false} NothingSelected(types: nat -> seq<Field>, mask: Bits, from: nat, to: nat)
    requires from <= to <= 30
    requires forall bit :: from <= bit < to ==> !Selected(mask, bit)
    ensures LayoutFrom(types, mask, from) == LayoutFrom(types, mask, to)
    decreases 30 - from
  {
    if from < to {
      NothingSelected(types, mask, from + 1, to);
    }
  }

  /** The layout from `bit` on when the next types are selected and carry `fields`. */
  lemma {:induction false} Peel(types: nat -> seq<Field>, mask: Bits, bit: nat, count: nat, fields: seq<Field>)
    requires bit + count <= 30
    requires forall b :: bit <= b < bit + count ==> Selected(mask, b)
    requires fields == Gather(types, bit, count)
    ensures LayoutFrom(types, mask, bit) == fields + LayoutFrom(types, mask, bit + count)
    decreases count
  {
    if count > 0 {
      var rest := Gather(types, bit + 1, count - 1);
      Peel(types, mask, bit + 1, count - 1, rest);
      assert types(bit) + (rest + LayoutFrom(types, mask, bit + count))
        == (types(bit) + rest) + LayoutFrom(types, mask, bit + count);
    }
  }

  function Gather(types: nat -> seq<Field>, bit: nat, count: nat): seq<Field>
    decreases count
  {
    if count == 0 then [] else types(bit) + Gather(types, bit + 1, count - 1)
  }

  lemma Gather0(types: nat -> seq<Field>, bit: nat, count: nat)
    ensures Gather(types, bit, count + 1) == types(bit) + Gather(types, bit + 1, count)
    ensures Gather(types, bit, 0) == []
  {
  }

  lemma Gather1(types: nat -> seq<Field>, bit: nat)
    ensures Gather(types, bit, 1) == types(bit)
    ensures Gather(types, bit, 2) == types(bit) + types(bit + 1)
    ensures Gather(types, bit, 3) == types(bit) + types(bit + 1) + types(bit + 2)
  {
    var a, b, c := types(bit), types(bit + 1), types(bit + 2);
    Gather0(types, bit, 0); Gather0(types, bit + 1, 0); Gather0(types, bit + 2, 0); Gather0(types, bit + 3, 0);
    Gather0(types, bit, 1); Gather0(types, bit + 1, 1); Gather0(types, bit, 2);
    Units(a, b, c);
  }

  lemma Units<T>(a: seq<T>, b: seq<T>, c: seq<T>)
    ensures a + [] == a && a + (b + []) == a + b && a + (b + (c + [])) == a + b + c
  {
  }

  lemma ClockTypes() ensures Gather(CommonFields, 0, 3) == CLOCKS { Gather1(CommonFields, 0); }
  lemma AngleTypes() ensures Gather(CommonFields, 3, 3) == ANGLES { Gather1(CommonFields, 3); }
  lemma PositionType() ensures Gather(CommonFields, 6, 1) == POSITION { Gather1(CommonFields, 6); }
  lemma MotionTypes() ensures Gather(CommonFields, 7, 3) == MOTION { Gather1(CommonFields, 7); }
  lemma AirTypes() ensures Gather(CommonFields, 10, 2) == AIR { Gather1(CommonFields, 10); }
  lemma StatusTypes() ensures Gather(CommonFields, 12, 3) == STATUS { Gather1(CommonFields, 12); }

  lemma UpperCommonLayout(types: nat -> seq<Field>, mask: Bits)
    requires |mask| == 15 && forall bit :: 0 <= bit < 15 ==> Selected(mask, bit)
    ensures LayoutFrom(types, mask, 7) == Gather(types, 7, 3) + (Gather(types, 10, 2) + (Gather(types, 12, 3) + []))
  {
    NothingSelected(types, mask, 15, 30);
    Peel(types, mask, 12, 3, Gather(types, 12, 3));
    Peel(types, mask, 10, 2, Gather(types, 10, 2));
    Peel(types, mask, 7, 3, Gather(types, 7, 3));
  }

  lemma CommonLayout(types: nat -> seq<Field>, mask: Bits)
    requires |mask| == 15 && forall bit :: 0 <= bit < 15 ==> Selected(mask, bit)
    ensures LayoutFrom(types, mask, 0)
      == Gather(types, 0, 3) + (Gather(types, 3, 3) + (Gather(types, 6, 1) + LayoutFrom(types, mask, 7)))
  {
    Peel(types, mask, 6, 1, Gather(types, 6, 1));
    Peel(types, mask, 3, 3, Gather(types, 3, 3));
    Peel(types, mask, 0, 3, Gather(types, 0, 3));
  }

  lemma AttitudeLayout(types: nat -> seq<Field>)
    ensures LayoutFrom(types, ATTITUDE_MASK, 0) == types(6)
  {
    NothingSelected(types, ATTITUDE_MASK, 7, 30);
    Gather1(types, 6);
    Peel(types, ATTITUDE_MASK, 6, 1, types(6));
    NothingSelected(types, ATTITUDE_MASK, 0, 6);
  }

  lemma Regroup<T>(a: seq<T>, b: seq<T>, c: seq<T>, d: seq<T>, e: seq<T>, f: seq<T>, g: seq<T>)
    ensures (a + (b + (c + (d + (e + (f + [])))))) + g == a + (b + (c + (d + (e + (f + g)))))
  {
  }

  /** The types the simulator selects are the fields it appends, in that order. */
  lemma SimulatedLayout()
    ensures LayoutFrom(Types(Common), COMMON_MASK, 0) + LayoutFrom(Types(Attitude), ATTITUDE_MASK, 0) == SIMULATED
  {
    CommonLayout(CommonFields, COMMON_MASK);
    UpperCommonLayout(CommonFields, COMMON_MASK);
    AttitudeLayout(AttitudeFields);
    ClockTypes(); AngleTypes(); PositionType(); MotionTypes(); AirTypes(); StatusTypes();
    ChainOfSeven(CLOCKS, ANGLES, POSITION, MOTION, AIR, STATUS, BODY_ACCELERATION);
    Regroup(CLOCKS, ANGLES, POSITION, MOTION, AIR, STATUS, BODY_ACCELERATION);
  }

  // ---- Encoding --------------------------------------------------------------

  /** The raw little-endian bits of each named value. */
  type Values = map<Signal, Bits>

  /** The bits appended for a field; a value that is missing is zero. */
  function RawBits(v: Values, field: Field): (raw: Bits)
    ensures |raw| == 8 * FieldBytes(field)
  {
    if field.Sampled? && field.signal in v && |v[field.signal]| == 8 * FieldBytes(field)
    then v[field.signal] else Zeros(8 * FieldBytes(field))
  }

  function Split(bits: Bits, count: nat): (bytes: seq<Byte>)
    requires |bits| == 8 * count
    ensures |bytes| == count
    ensures Concat(bytes) == bits
    decreases count
  {
    if count == 0 then [] else
      var first: Byte := bits[..8];
      var bytes := [first] + Split(bits[8..], count - 1);
      assert bytes[1..] == Split(bits[8..], count - 1);
      bytes
  }

  function EncodeFields(v: Values, fields: seq<Field>): (bytes: seq<Byte>)
    ensures |bytes| == Width(fields)
  {
    if fields == [] then []
    else Split(RawBits(v, fields[0]), FieldBytes(fields[0])) + EncodeFields(v, fields[1..])
  }

  function ReadingOf(v: Values, field: Field): Reading
    requires field.Sampled?
  {
    Reading(field.signal, field.kind, RawBits(v, field))
  }

  ghost predicate AllSampled(fields: seq<Field>) {
    forall i :: 0 <= i < |fields| ==> fields[i].Sampled?
  }

  function ReadingsOf(v: Values, fields: seq<Field>): (readings: seq<Reading>)
    requires AllSampled(fields)
    ensures |readings| == |fields|
  {
    if fields == [] then [] else [ReadingOf(v, fields[0])] + ReadingsOf(v, fields[1..])
  }

  lemma DecodeFirst(field: Field, fields: seq<Field>, first: seq<Byte>, rest: seq<Byte>)
    requires field.Sampled? && |first| == FieldBytes(field) && Width(fields) <= |rest|
    ensures Decode([field] + fields, first + rest)
      == [Reading(field.signal, field.kind, Concat(first))] + Decode(fields, rest)
  {
    var all := [field] + fields;
    var bytes := first + rest;
    assert all[1..] == fields;
    assert bytes[..|first|] == first && bytes[|first|..] == rest;
  }

  lemma DecodeOne(v: Values, field: Field, fields: seq<Field>, rest: seq<Byte>)
    requires field.Sampled? && Width(fields) <= |rest|
    ensures Decode([field] + fields, Split(RawBits(v, field), FieldBytes(field)) + rest)
      == [ReadingOf(v, field)] + Decode(fields, rest)
  {
    DecodeFirst(field, fields, Split(RawBits(v, field), FieldBytes(field)), rest);
  }

  lemma EncodeOne(v: Values, fields: seq<Field>, tail: seq<Byte>)
    requires fields != []
    ensures EncodeFields(v, fields) + tail
      == Split(RawBits(v, fields[0]), FieldBytes(fields[0])) + (EncodeFields(v, fields[1..]) + tail)
    ensures Width(fields[1..]) <= |EncodeFields(v, fields[1..]) + tail|
    ensures fields == [fields[0]] + fields[1..]
  {
    Associate(Split(RawBits(v, fields[0]), FieldBytes(fields[0])), EncodeFields(v, fields[1..]), tail);
  }

  /** Decoding what was encoded gives back every field with its raw bits. */
  lemma {:induction false} DecodeOfEncode(v: Values, fields: seq<Field>, tail: seq<Byte>)
    requires AllSampled(fields)
    ensures Decode(fields, EncodeFields(v, fields) + tail) == ReadingsOf(v, fields)
  {
    if fields != [] {
      EncodeOne(v, fields, tail);
      DecodeOne(v, fields[0], fields[1..], EncodeFields(v, fields[1..]) + tail);
      DecodeOfEncode(v, fields[1..], tail);
    }
  }

  function Body(v: Values): seq<Byte> { HEADER_BYTES + EncodeFields(v, SIMULATED) }

  function Encoded(v: Values): seq<Byte> {
    var crc := Remainder(Body(v)[1..]);
    Body(v) + [High(crc), Low(crc)]
  }

  lemma Associate<T>(a: seq<T>, b: seq<T>, c: seq<T>)
    ensures (a + b) + c == a + (b + c)
  {
  }

  lemma {:induction false} EncodeConcat(v: Values, a: seq<Field>, b: seq<Field>)
    ensures EncodeFields(v, a + b) == EncodeFields(v, a) + EncodeFields(v, b)
  {
    if a == [] {
      assert a + b == b;
    } else {
      assert (a + b)[1..] == a[1..] + b;
      EncodeConcat(v, a[1..], b);
      Associate(Split(RawBits(v, a[0]), FieldBytes(a[0])), EncodeFields(v, a[1..]), EncodeFields(v, b));
    }
  }

  lemma EncodeExtend(packet: seq<Byte>, v: Values, fields: seq<Field>, i: nat)
    requires i < |fields|
    ensures packet + EncodeFields(v, fields[..i + 1])
      == (packet + EncodeFields(v, fields[..i])) + Split(RawBits(v, fields[i]), FieldBytes(fields[i]))
  {
    assert fields[..i + 1] == fields[..i] + [fields[i]];
    EncodeConcat(v, fields[..i], [fields[i]]);
    OneEncoded(v, fields[i]);
    Associate(packet, EncodeFields(v, fields[..i]), Split(RawBits(v, fields[i]), FieldBytes(fields[i])));
  }

  lemma OneEncoded(v: Values, field: Field)
    ensures EncodeFields(v, [field]) == Split(RawBits(v, field), FieldBytes(field))
  {
    assert [field][1..] == [];
  }

  method AppendFields(packet: seq<Byte>, v: Values, fields: seq<Field>) returns (p: seq<Byte>)
    ensures p == packet + EncodeFields(v, fields)
  {
    p := packet;
    var i := 0;
    while i < |fields|
      invariant i <= |fields| && p == packet + EncodeFields(v, fields[..i])
    {
      EncodeExtend(packet, v, fields, i);
      p := p + Split(RawBits(v, fields[i]), FieldBytes(fields[i]));
      i := i + 1;
    }
    assert fields[..i] == fields;
  }

  method AppendLists(packet: seq<Byte>, v: Values, lists: seq<seq<Field>>) returns (p: seq<Byte>)
    ensures p == packet + EncodeFields(v, Chain(lists))
  {
    p := packet;
    var i := 0;
    assert lists[0..] == lists;
    while i < |lists|
      invariant i <= |lists|
      invariant p + EncodeFields(v, Chain(lists[i..])) == packet + EncodeFields(v, Chain(lists))
    {
      ghost var rest := Chain(lists[i + 1..]);
      assert lists[i..][1..] == lists[i + 1..];
      EncodeConcat(v, lists[i], rest);
      assert (p + EncodeFields(v, lists[i])) + EncodeFields(v, rest)
        == p + (EncodeFields(v, lists[i]) + EncodeFields(v, rest));
      p := AppendFields(p, v, lists[i]);
      i := i + 1;
    }
  }

  method AppendChecksum(body: seq<Byte>) returns (p: seq<Byte>)
    requires body != []
    ensures p == body + [High(Remainder(body[1..])), Low(Remainder(body[1..]))]
  {
    var crc := CalculateCrc(body[1..]);
    p := body + [High(crc)];
    p := p + [Low(crc)];
  }

  method EncodePacket(v: Values) returns (p: seq<Byte>)
    ensures p == Encoded(v)
  {
    p := [SYNC, COMMON_GROUP_AND_ATTITUDE];
    p := p + [ALL_BITS, ALL_BUT_TOP];
    p := p + [BIT_SIX, Zeros(8)];
    assert p == HEADER_BYTES;
    p := AppendLists(p, v, SIMULATED_LISTS);
    p := AppendChecksum(p);
  }

  // ---- The parser on encoded packets -----------------------------------------

  lemma {:induction false} NoFurtherGroups(data: seq<Byte>, cursor: nat, groups: Bits, from: nat, to: nat,
    common: Bits, attitude: Bits)
    requires from <= to <= 28
    requires forall g :: from <= g < to ==> !Selected(groups, g)
    ensures ReadMasks(data, cursor, groups, from, common, attitude)
      == ReadMasks(data, cursor, groups, to, common, attitude)
    decreases 28 - from
  {
    if from < to {
      NoFurtherGroups(data, cursor, groups, from + 1, to, common, attitude);
    }
  }

  lemma ReadOneTypeWord(data: seq<Byte>, cursor: nat, lo: Byte, hi: Byte)
    requires cursor + 2 <= |data| && data[cursor] == lo && data[cursor + 1] == hi && !hi[7]
    ensures ReadTypes(data, cursor, 0, []) == Read(LittleEndian(lo, hi)[..15], cursor + 2)
  {
    assert [] + LittleEndian(lo, hi)[..15] == LittleEndian(lo, hi)[..15];
  }

  lemma SimulatedHeaderIsJudged(data: seq<Byte>)
    requires |data| >= 6 && data[..6] == HEADER_BYTES
    ensures ParseHeader(data) == Judge(6, COMMON_MASK, ATTITUDE_MASK)
  {
    assert forall i :: 0 <= i < 6 ==> data[i] == HEADER_BYTES[i];
    var groups: Bits := [true, false, false, false, true, false, false];
    assert ReadGroups(data, 1, 0, []) == Read(groups, 2) by {
      assert [] + COMMON_GROUP_AND_ATTITUDE[..7] == groups;
    }
    ReadOneTypeWord(data, 2, ALL_BITS, ALL_BUT_TOP);
    assert LittleEndian(ALL_BITS, ALL_BUT_TOP)[..15] == COMMON_MASK;
    NoFurtherGroups(data, 4, groups, 1, 4, COMMON_MASK, []);
    ReadOneTypeWord(data, 4, BIT_SIX, Zeros(8));
    assert LittleEndian(BIT_SIX, Zeros(8))[..15] == ATTITUDE_MASK;
    NoFurtherGroups(data, 6, groups, 5, 28, COMMON_MASK, ATTITUDE_MASK);
  }

  lemma {:induction false} SupportedPayload(group: Group, mask: Bits, bit: nat)
    requires forall b :: bit <= b < 30 && Selected(mask, b) ==> TypeSize(group, b) >= 0
    ensures PayloadFrom(group, mask, bit) >= 0
    decreases 30 - bit
  {
    if bit < 30 {
      SupportedPayload(group, mask, bit + 1);
    }
  }

  lemma WidthsOfTwo(a: seq<Field>, b: seq<Field>)
    requires AllSampled(a) && AllSampled(b)
    ensures Width(a + b) == Width(a) + Width(b) && |a + b| == |a| + |b| && AllSampled(a + b)
  {
    WidthConcat(a, b);
  }

  lemma WidthsOfSeven(a: seq<Field>, b: seq<Field>, c: seq<Field>, d: seq<Field>, e: seq<Field>, f: seq<Field>,
    g: seq<Field>)
    requires AllSampled(a) && AllSampled(b) && AllSampled(c) && AllSampled(d) && AllSampled(e) && AllSampled(f)
      && AllSampled(g)
    ensures var all := a + (b + (c + (d + (e + (f + g)))));
      && Width(all) == Width(a) + Width(b) + Width(c) + Width(d) + Width(e) + Width(f) + Width(g)
      && |all| == |a| + |b| + |c| + |d| + |e| + |f| + |g|
      && AllSampled(all)
  {
    WidthsOfTwo(f, g);
    WidthsOfTwo(e, f + g);
    WidthsOfTwo(d, e + (f + g));
    WidthsOfTwo(c, d + (e + (f + g)));
    WidthsOfTwo(b, c + (d + (e + (f + g))));
    WidthsOfTwo(a, b + (c + (d + (e + (f + g)))));
  }

  lemma ClocksWidth()
    ensures Width(CLOCKS) == 24 && |CLOCKS| == 3 && AllSampled(CLOCKS)
  {
    WidthOfThree(CLOCKS[0], CLOCKS[1], CLOCKS[2]);
  }

  lemma AnglesWidth()
    ensures Width(ANGLES) == 40 && |ANGLES| == 10 && AllSampled(ANGLES)
  {
    WidthOfFloats(ANGLES_SIGNALS);
  }

  lemma PositionWidth()
    ensures Width(POSITION) == 24 && |POSITION| == 3 && AllSampled(POSITION)
  {
    WidthOfThree(POSITION[0], POSITION[1], POSITION[2]);
  }

  lemma MotionWidth()
    ensures Width(MOTION) == 48 && |MOTION| == 12 && AllSampled(MOTION)
  {
    WidthOfFloats(MOTION_SIGNALS);
  }

  lemma AirWidth()
    ensures Width(AIR) == 48 && |AIR| == 12 && AllSampled(AIR)
  {
    WidthOfFloats(AIR_SIGNALS);
  }

  lemma StatusWidth()
    ensures Width(STATUS) == 14 && |STATUS| == 3 && AllSampled(STATUS)
  {
    WidthOfThree(STATUS[0], STATUS[1], STATUS[2]);
  }

  lemma BodyWidth()
    ensures Width(BODY_ACCELERATION) == 12 && |BODY_ACCELERATION| == 3 && AllSampled(BODY_ACCELERATION)
  {
    WidthOfFloats(BODY_ACCELERATION_SIGNALS);
  }

  lemma SimulatedWidth()
    ensures Width(SIMULATED) == 210 && |SIMULATED| == 46 && AllSampled(SIMULATED)
  {
    ClocksWidth(); AnglesWidth(); PositionWidth(); MotionWidth(); AirWidth(); StatusWidth(); BodyWidth();
    ChainOfSeven(CLOCKS, ANGLES, POSITION, MOTION, AIR, STATUS, BODY_ACCELERATION);
    WidthsOfSeven(CLOCKS, ANGLES, POSITION, MOTION, AIR, STATUS, BODY_ACCELERATION);
  }

  const SIMULATED_HEADER := Header(6, COMMON_MASK, ATTITUDE_MASK)

  lemma SimulatedPayload(c: Bits, a: Bits)
    requires forall b :: 0 <= b < 30 && Selected(c, b) ==> TypeSize(Common, b) >= 0
    requires forall b :: 0 <= b < 30 && Selected(a, b) ==> TypeSize(Attitude, b) >= 0
    requires Width(LayoutFrom(Types(Common), c, 0) + LayoutFrom(Types(Attitude), a, 0)) == 210
    ensures Judge(6, c, a) == Complete(Header(6, c, a), 210)
  {
    SupportedPayload(Common, c, 0);
    SupportedPayload(Attitude, a, 0);
    LayoutFillsPayload(Common, c, 0);
    LayoutFillsPayload(Attitude, a, 0);
    WidthConcat(LayoutFrom(Types(Common), c, 0), LayoutFrom(Types(Attitude), a, 0));
  }

  lemma SimulatedHeaderLayout()
    ensures SIMULATED_HEADER.Layout() == SIMULATED
    ensures Width(SIMULATED_HEADER.Layout()) == 210
  {
    SimulatedLayout();
    SimulatedWidth();
  }

  lemma SimulatedHeader(data: seq<Byte>)
    requires |data| >= 6 && data[..6] == HEADER_BYTES
    ensures ParseHeader(data) == Complete(SIMULATED_HEADER, 210)
  {
    SimulatedHeaderIsJudged(data);
    SimulatedIsAccepted();
  }

  lemma SimulatedTypesAreSupported()
    ensures forall b :: 0 <= b < 30 && Selected(COMMON_MASK, b) ==> TypeSize(Common, b) >= 0
    ensures forall b :: 0 <= b < 30 && Selected(ATTITUDE_MASK, b) ==> TypeSize(Attitude, b) >= 0
  {
    assert forall b :: 0 <= b < 15 && ATTITUDE_MASK[b] ==> b == 6;
  }

  lemma SimulatedIsAccepted()
    ensures Judge(6, COMMON_MASK, ATTITUDE_MASK) == Complete(SIMULATED_HEADER, 210)
  {
    SimulatedHeaderLayout();
    SimulatedTypesAreSupported();
    SimulatedPayload(COMMON_MASK, ATTITUDE_MASK);
  }

  lemma EncodedSize(v: Values)
    ensures |Body(v)| == 216 && |Encoded(v)| == 218
    ensures Encoded(v)[..6] == HEADER_BYTES
  {
    SimulatedWidth();
    assert Encoded(v)[..6] == Body(v)[..6];
  }

  lemma ChecksumOf(body: seq<Byte>)
    requires body != []
    ensures var r := Remainder(body[1..]); Remainder((body + [High(r), Low(r)])[1..]) == Zeros(16)
  {
    var r := Remainder(body[1..]);
    assert (body + [High(r), Low(r)])[1..] == body[1..] + [High(r), Low(r)];
    CheckIsZeroIffAppended(body[1..], High(r), Low(r));
  }

  lemma EncodedChecksum(v: Values)
    ensures Remainder(Encoded(v)[1..]) == Zeros(16)
  {
    ChecksumOf(Body(v));
  }

  /** The decision on 218 bytes that carry the simulator's header. */
  lemma FrontOfSimulated(p: seq<Byte>, rest: seq<Byte>)
    requires |p| == 218 && p[..6] == HEADER_BYTES
    ensures Front(p + rest) == if Remainder(p[1..]) == Zeros(16) then Emit(Packet(p, SIMULATED_HEADER), 218)
      else Emit(CrcError(SYNC), 1)
  {
    var buf := p + rest;
    assert buf[..6] == HEADER_BYTES;
    assert buf[0] == HEADER_BYTES[0];
    SimulatedHeader(buf);
    assert buf[1..218] == p[1..] && buf[..218] == p;
  }

  lemma BehindHeader(front: seq<Byte>, body: seq<Byte>, crc: seq<Byte>)
    ensures ((front + body) + crc)[|front|..] == body + crc
  {
  }

  lemma ReadingsOfPacket(v: Values, fields: seq<Field>, header: Header, front: seq<Byte>, crc: seq<Byte>)
    requires AllSampled(fields) && header.Layout() == fields && header.size == |front|
    ensures PacketReadings((front + EncodeFields(v, fields)) + crc, header) == ReadingsOf(v, fields)
  {
    BehindHeader(front, EncodeFields(v, fields), crc);
    DecodeOfEncode(v, fields, crc);
  }

  lemma EncodedReadings(v: Values)
    ensures AllSampled(SIMULATED)
    ensures PacketReadings(Encoded(v), SIMULATED_HEADER) == ReadingsOf(v, SIMULATED)
  {
    SimulatedWidth();
    SimulatedHeaderLayout();
    var crc := Remainder(Body(v)[1..]);
    ReadingsOfPacket(v, SIMULATED, SIMULATED_HEADER, HEADER_BYTES, [High(crc), Low(crc)]);
  }

  /** The bytes of a list of packets, and the segments the parser should make of them. */
  function Packets(vs: seq<Values>): (packets: seq<seq<Byte>>)
    ensures |packets| == |vs|
  {
    seq(|vs|, i requires 0 <= i < |vs| => Encoded(vs[i]))
  }

  function PacketSegments(vs: seq<Values>): (segments: seq<Segment>)
    ensures |segments| == |vs|
  {
    seq(|vs|, i requires 0 <= i < |vs| => Packet(Encoded(vs[i]), SIMULATED_HEADER))
  }

  /** Any concatenation of encoded packets is parsed packet by packet: none is
      lost or rejected, and what follows is parsed as if it stood alone. */
  lemma EncodedStreamIsParsed(vs: seq<Values>, rest: seq<Byte>)
    ensures Scan(Front, Join(Packets(vs)) + rest) == Prepend(PacketSegments(vs), Scan(Front, rest))
  {
    forall i | 0 <= i < |vs| ensures |Packets(vs)[i]| == 218 {
      EncodedSize(vs[i]);
    }
    forall i, later {:trigger Front(Packets(vs)[i] + later)} | 0 <= i < |vs|
      ensures Front(Packets(vs)[i] + later) == Emit(PacketSegments(vs)[i], 218)
    {
      FrontOfEncoded(vs[i], later);
    }
    ScanParts(Front, Packets(vs), PacketSegments(vs), rest);
  }

  lemma FrontOfEncoded(v: Values, later: seq<Byte>)
    ensures Front(Encoded(v) + later) == Emit(Packet(Encoded(v), SIMULATED_HEADER), 218)
  {
    EncodedSize(v);
    EncodedChecksum(v);
    FrontOfSimulated(Encoded(v), later);
  }

  /** Round trip: a stream of packets cut anyhow and fed to a fresh parser yields
      46 readings a packet with every raw field as encoded, and nothing else. */
  lemma RoundTrip(vs: seq<Values>, chunks: seq<seq<Byte>>)
    requires Join(chunks) == Join(Packets(vs))
    ensures ScanChunks(Front, [], chunks) == Trace(PacketSegments(vs), [])
    ensures CountFrom(Tally(0, 0, 0), PacketSegments(vs)) == Tally(|vs|, 0, 0)
    ensures |SIMULATED| == 46 && AllSampled(SIMULATED)
    ensures forall i :: 0 <= i < |vs| ==> PacketSegments(vs)[i].Readings() == ReadingsOf(vs[i], SIMULATED)
  {
    ChunksGiveThePackets(vs, chunks);
    PacketsAreCounted(Tally(0, 0, 0), vs);
    SimulatedWidth();
    forall i | 0 <= i < |vs| ensures PacketSegments(vs)[i].Readings() == ReadingsOf(vs[i], SIMULATED) {
      EncodedReadings(vs[i]);
    }
  }

  lemma ChunksGiveThePackets(vs: seq<Values>, chunks: seq<seq<Byte>>)
    requires Join(chunks) == Join(Packets(vs))
    ensures ScanChunks(Front, [], chunks) == Trace(PacketSegments(vs), [])
  {
    CutsFromNothing(chunks);
    WholeStreamIsParsed(vs);
  }

  lemma WholeStreamIsParsed(vs: seq<Values>)
    ensures Scan(Front, Join(Packets(vs))) == Trace(PacketSegments(vs), [])
  {
    EncodedStreamIsParsed(vs, []);
    ScanNothing(Front, []);
    assert Join(Packets(vs)) + [] == Join(Packets(vs)) && PacketSegments(vs) + [] == PacketSegments(vs);
  }

  lemma {:induction false} PacketsAreCounted(t: Tally, vs: seq<Values>)
    ensures CountFrom(t, PacketSegments(vs)) == t.(valid := t.valid + |vs|)
    decreases |vs|
  {
    if vs != [] {
      FirstIsCounted(t, vs);
      PacketsAreCounted(t.(valid := t.valid + 1), vs[1..]);
    }
  }

  lemma FirstIsCounted(t: Tally, vs: seq<Values>)
    requires vs != []
    ensures CountFrom(t, PacketSegments(vs)) == CountFrom(t.(valid := t.valid + 1), PacketSegments(vs[1..]))
  {
    CountPacket(t, PacketSegments(vs));
    assert PacketSegments(vs)[1..] == PacketSegments(vs[1..]);
  }

  lemma CountPacket(t: Tally, segments: seq<Segment>)
    requires segments != [] && segments[0].Packet?
    ensures CountFrom(t, segments) == CountFrom(t.(valid := t.valid + 1), segments[1..])
  {
  }

  /** A packet with one or two adjacent payload or checksum bytes altered is
      rejected at its own offset, whatever follows it. */
  lemma AlteredPacketIsRejected(v: Values, received: seq<Byte>, at: nat, rest: seq<Byte>)
    requires |received| == |Encoded(v)| && received != Encoded(v)
    requires 6 <= at
    requires forall i :: 0 <= i < |received| && i != at && i != at + 1 ==> received[i] == Encoded(v)[i]
    ensures Front(received + rest) == Emit(CrcError(SYNC), 1)
  {
    EncodedSize(v);
    EncodedChecksum(v);
    AlteredCheckFails(Encoded(v), received, at);
    FrontOfSimulated(received, rest);
  }

  lemma AlteredCheckFails(p: seq<Byte>, received: seq<Byte>, at: nat)
    requires |p| == |received| == 218 && received != p && 6 <= at && Remainder(p[1..]) == Zeros(16)
    requires forall i :: 0 <= i < 218 && i != at && i != at + 1 ==> received[i] == p[i]
    ensures received[..6] == p[..6] && Remainder(received[1..]) != Zeros(16)
  {
    var k :| 0 <= k < 218 && received[k] != p[k];
    assert p[1..][k - 1] != received[1..][k - 1];
    TwoByteChangeIsDetected(p[1..], received[1..], at - 1);
  }

  // ---- Fault injection -------------------------------------------------------

  function FlipLowest(b: Byte): Byte { [!b[0]] + b[1..] }

  /** What tick number `count` sends. */
  function Generated(v: Values, count: nat, dropEvery: nat, corruptCrcEvery: nat): Option<seq<Byte>> {
    var p := Encoded(v);
    if dropEvery > 0 && count % dropEvery == 0 then None
    else if corruptCrcEvery > 0 && count % corruptCrcEvery == 0 && |p| > 8
    then Some(p[|p| - 3 := FlipLowest(p[|p| - 3])])
    else Some(p)
  }

  class Simulator {
    var paused: bool
    var generatedCount: nat
    var dropEvery: nat
    var corruptCrcEvery: nat

    method GeneratePacket(v: Values) returns (packet: Option<seq<Byte>>)
      modifies this`generatedCount
      ensures paused ==> packet == None && generatedCount == old(generatedCount)
      ensures !paused ==> generatedCount == old(generatedCount) + 1
      ensures !paused ==> packet == Generated(v, generatedCount, dropEvery, corruptCrcEvery)
    {
      if paused { return None; }
      generatedCount := generatedCount + 1;
      if dropEvery > 0 && generatedCount % dropEvery == 0 { return None; }
      var p: seq<Byte> := EncodePacket(v);
      if corruptCrcEvery > 0 && generatedCount % corruptCrcEvery == 0 && |p| > 8 {
        p := p[|p| - 3 := FlipLowest(p[|p| - 3])];
      }
      return Some(p);
    }
  }

  /** Of the packets the simulator sends, the parser takes an intact one whole and
      rejects every corrupted one at its own offset. */
  lemma GeneratedPacketVerdict(v: Values, count: nat, dropEvery: nat, corruptCrcEvery: nat, rest: seq<Byte>)
    requires Generated(v, count, dropEvery, corruptCrcEvery).Some?
    ensures var p := Generated(v, count, dropEvery, corruptCrcEvery).value;
      Front(p + rest) ==
        if corruptCrcEvery > 0 && count % corruptCrcEvery == 0 then Emit(CrcError(SYNC), 1)
        else Emit(Packet(Encoded(v), SIMULATED_HEADER), 218)
  {
    EncodedSize(v);
    EncodedChecksum(v);
    var sent := Generated(v, count, dropEvery, corruptCrcEvery).value;
    if corruptCrcEvery > 0 && count % corruptCrcEvery == 0 {
      assert sent[215] == FlipLowest(Encoded(v)[215]);
      assert FlipLowest(Encoded(v)[215])[0] != Encoded(v)[215][0];
      AlteredPacketIsRejected(v, sent, 215, rest);
    } else {
      FrontOfSimulated(sent, rest);
    }
  }
}
