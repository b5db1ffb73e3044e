/** What a VN-300 binary packet can carry: the size of every selectable type and
    the fields the parser reads from it. */
module Vn300Layout {
  import opened Bits

  datatype Group = Common | Attitude

  /** The signals of the parser, `VN300.time_startup` and so on. */
  datatype Signal =
    | Yaw | Pitch | Roll | QuatX | QuatY | QuatZ | QuatS | AngularRateX | AngularRateY | AngularRateZ
    | VelocityNorth | VelocityEast | VelocityDown | AccelX | AccelY | AccelZ | UncompAccelX | UncompAccelY
    | UncompAccelZ | UncompGyroX | UncompGyroY | UncompGyroZ | MagX | MagY | MagZ | Temperature | Pressure
    | DeltaTime | DeltaThetaX | DeltaThetaY | DeltaThetaZ | DeltaVelocityX | DeltaVelocityY | DeltaVelocityZ
    | LinBodyAccelX | LinBodyAccelY | LinBodyAccelZ | Latitude | Longitude | Altitude | InsStatus
    | SyncInCount | TimeStartup | TimeGps | TimeSyncIn | TimeGpsPps

  /** How the raw bits of a field become a number. */
  datatype Kind = Nanoseconds64 | Float32 | Float64 | Unsigned16 | Unsigned32

  /** A field that becomes a sample, or bytes the parser steps over. */
  datatype Field = Sampled(signal: Signal, kind: Kind) | Skipped(bytes: nat)

  /** One decoded field: its raw little-endian bits. */
  datatype Reading = Reading(signal: Signal, kind: Kind, raw: Bits)

  function KindBytes(kind: Kind): (n: nat)
    ensures n > 0
  {
    match kind
    case Nanoseconds64 | Float64 => 8
    case Float32 | Unsigned32 => 4
    case Unsigned16 => 2
  }

  function FieldBytes(field: Field): nat {
    match field
    case Sampled(_, kind) => KindBytes(kind)
    case Skipped(bytes) => bytes
  }

  function Width(fields: seq<Field>): nat {
    if fields == [] then 0 else FieldBytes(fields[0]) + Width(fields[1..])
  }

  /** The size in bytes of a type, or -1 when the type is not supported. */
  function TypeSize(group: Group, bit: nat): int {
    match group
    case Common =>
      if bit < 15 then [8, 8, 8, 12, 16, 12, 24, 12, 12, 24, 20, 28, 2, 4, 8][bit] else -1
    case Attitude =>
      if bit < 14 then [-1, 12, 16, 36, 12, 12, 12, 12, 12, -1, -1, -1, 12, 4][bit] else -1
  }

  function Clock(signal: Signal): seq<Field> { [Sampled(signal, Nanoseconds64)] }

  function Floats(signals: seq<Signal>): (fields: seq<Field>)
    ensures |fields| == |signals|
  {
    seq(|signals|, i requires 0 <= i < |signals| => Sampled(signals[i], Float32))
  }

  /** The signals of the Common types that are lists of floats. */
  function CommonFloats(bit: nat): seq<Signal> {
    match bit
    case 3 => [Yaw, Pitch, Roll]
    case 4 => [QuatX, QuatY, QuatZ, QuatS]
    case 5 => [AngularRateX, AngularRateY, AngularRateZ]
    case 7 => [VelocityNorth, VelocityEast, VelocityDown]
    case 8 => [AccelX, AccelY, AccelZ]
    case 9 => [UncompAccelX, UncompAccelY, UncompAccelZ, UncompGyroX, UncompGyroY, UncompGyroZ]
    case 10 => [MagX, MagY, MagZ, Temperature, Pressure]
    case 11 => [DeltaTime, DeltaThetaX, DeltaThetaY, DeltaThetaZ, DeltaVelocityX, DeltaVelocityY, DeltaVelocityZ]
    case _ => []
  }

  function CommonFields(bit: nat): seq<Field> {
    match bit
    case 0 => Clock(TimeStartup)
    case 1 => Clock(TimeGps)
    case 2 => Clock(TimeSyncIn)
    case 6 => [Sampled(Latitude, Float64), Sampled(Longitude, Float64), Sampled(Altitude, Float64)]
    case 12 => [Sampled(InsStatus, Unsigned16)]
    case 13 => [Sampled(SyncInCount, Unsigned32)]
    case 14 => Clock(TimeGpsPps)
    case _ => Floats(CommonFloats(bit))
  }

  function AttitudeFields(bit: nat): seq<Field> {
    if bit == 6 then Floats([LinBodyAccelX, LinBodyAccelY, LinBodyAccelZ])
    else [Skipped(if TypeSize(Attitude, bit) < 0 then 0 else TypeSize(Attitude, bit))]
  }

  /** The fields of each type of a group. */
  function Types(group: Group): nat -> seq<Field> {
    match group
    case Common => CommonFields
    case Attitude => AttitudeFields
  }

  lemma {:induction false} WidthOfFloats(signals: seq<Signal>)
    ensures Width(Floats(signals)) == 4 * |signals|
  {
    if signals != [] {
      assert Floats(signals)[1..] == Floats(signals[1..]);
      WidthOfFloats(signals[1..]);
    }
  }

  lemma WidthOfOne(field: Field)
    ensures Width([field]) == FieldBytes(field)
  {
    assert [field][1..] == [];
  }

  lemma WidthOfThree(a: Field, b: Field, c: Field)
    ensures Width([a, b, c]) == FieldBytes(a) + FieldBytes(b) + FieldBytes(c)
  {
    assert [a, b, c][1..] == [b, c];
    assert [b, c][1..] == [c];
    WidthOfOne(c);
  }

  /** The fields of a supported type fill exactly the size the header announces. */
  lemma TypeFieldsFillTheType(group: Group, bit: nat)
    requires TypeSize(group, bit) >= 0
    ensures Width(Types(group)(bit)) == TypeSize(group, bit)
  {
    match group {
      case Common => CommonFieldsFillTheType(bit);
      case Attitude =>
        WidthOfFloats([LinBodyAccelX, LinBodyAccelY, LinBodyAccelZ]);
        WidthOfOne(Skipped(TypeSize(Attitude, bit)));
    }
  }

  lemma CommonFieldsFillTheType(bit: nat)
    requires bit < 15
    ensures Width(CommonFields(bit)) == TypeSize(Common, bit)
  {
    if bit == 6 {
      WidthOfThree(Sampled(Latitude, Float64), Sampled(Longitude, Float64), Sampled(Altitude, Float64));
    } else if 3 <= bit < 12 {
      WidthOfFloats(CommonFloats(bit));
    } else {
      WidthOfOne(CommonFields(bit)[0]);
    }
  }

  predicate Selected(mask: Bits, bit: nat) { bit < |mask| && mask[bit] }

  /** The fields of the selected types from `bit` on, in the order they are sent. */
  function LayoutFrom(types: nat -> seq<Field>, mask: Bits, bit: nat): seq<Field>
    decreases 30 - bit
  {
    if bit >= 30 then []
    else if Selected(mask, bit) then types(bit) + LayoutFrom(types, mask, bit + 1)
    else LayoutFrom(types, mask, bit + 1)
  }

  /** The bytes of the selected types from `bit` on, or -1 if one is unsupported. */
  function PayloadFrom(group: Group, mask: Bits, bit: nat): (total: int)
    ensures total >= -1
    decreases 30 - bit
  {
    if bit >= 30 then 0
    else if !Selected(mask, bit) then PayloadFrom(group, mask, bit + 1)
    else if TypeSize(group, bit) < 0 || PayloadFrom(group, mask, bit + 1) < 0 then -1
    else TypeSize(group, bit) + PayloadFrom(group, mask, bit + 1)
  }

  lemma {:induction false} WidthConcat(a: seq<Field>, b: seq<Field>)
    ensures Width(a + b) == Width(a) + Width(b)
  {
    if a == [] {
      assert a + b == b;
    } else {
      assert (a + b)[1..] == a[1..] + b;
      WidthConcat(a[1..], b);
    }
  }

  /** The decode walk over the selected types covers the announced payload exactly. */
  lemma {:induction false} LayoutFillsPayload(group: Group, mask: Bits, bit: nat)
    requires PayloadFrom(group, mask, bit) >= 0
    ensures Width(LayoutFrom(Types(group), mask, bit)) == PayloadFrom(group, mask, bit)
    decreases 30 - bit
  {
    if bit < 30 {
      LayoutFillsPayload(group, mask, bit + 1);
      if Selected(mask, bit) {
        TypeFieldsFillTheType(group, bit);
        WidthConcat(Types(group)(bit), LayoutFrom(Types(group), mask, bit + 1));
      }
    }
  }

  /** The most bytes the types from `bit` on can add. */
  function Ceiling(group: Group, bit: nat): nat {
    match group
    case Common =>
      if bit < 15 then [198, 190, 182, 174, 162, 146, 134, 110, 98, 86, 62, 42, 14, 12, 8][bit] else 0
    case Attitude =>
      if bit < 14 then [140, 140, 128, 112, 76, 64, 52, 40, 28, 16, 16, 16, 16, 4][bit] else 0
  }

  lemma {:induction false} PayloadIsBounded(group: Group, mask: Bits, bit: nat)
    ensures PayloadFrom(group, mask, bit) <= Ceiling(group, bit)
    decreases 30 - bit
  {
    if bit < 30 {
      PayloadIsBounded(group, mask, bit + 1);
      CeilingFalls(group, bit);
    }
  }

  lemma CeilingFalls(group: Group, bit: nat)
    ensures Ceiling(group, bit)
      == Ceiling(group, bit + 1) + if TypeSize(group, bit) >= 0 then TypeSize(group, bit) else 0
  {
    match group {
      case Common => CommonCeilingFalls(bit);
      case Attitude => AttitudeCeilingFalls(bit);
    }
  }

  lemma CommonCeilingFalls(bit: nat)
    ensures Ceiling(Common, bit)
      == Ceiling(Common, bit + 1) + if TypeSize(Common, bit) >= 0 then TypeSize(Common, bit) else 0
  {
  }

  lemma AttitudeCeilingFalls(bit: nat)
    ensures Ceiling(Attitude, bit)
      == Ceiling(Attitude, bit + 1) + if TypeSize(Attitude, bit) >= 0 then TypeSize(Attitude, bit) else 0
  {
  }

  function Concat(bytes: seq<Byte>): (bits: Bits)
    ensures |bits| == 8 * |bytes|
  {
    if bytes == [] then [] else bytes[0] + Concat(bytes[1..])
  }

  /** The samples read from a payload laid out as `fields`. */
  function Decode(fields: seq<Field>, payload: seq<Byte>): seq<Reading>
    requires Width(fields) <= |payload|
  {
    if fields == [] then []
    else
      var n := FieldBytes(fields[0]);
      var rest := Decode(fields[1..], payload[n..]);
      match fields[0]
      case Sampled(signal, kind) => [Reading(signal, kind, Concat(payload[..n]))] + rest
      case Skipped(_) => rest
  }

  lemma {:induction false} DecodeConcat(a: seq<Field>, b: seq<Field>, payload: seq<Byte>)
    requires Width(a) + Width(b) <= |payload|
    ensures Width(a + b) == Width(a) + Width(b)
    ensures Decode(a + b, payload) == Decode(a, payload) + Decode(b, payload[Width(a)..])
  {
    WidthConcat(a, b);
    if a == [] {
      assert a + b == b;
      assert payload[0..] == payload;
    } else {
      var n := FieldBytes(a[0]);
      assert (a + b)[1..] == a[1..] + b;
      DecodeConcat(a[1..], b, payload[n..]);
      DropTwice(payload, n, Width(a[1..]));
      DecodeFirst(a + b, payload);
      DecodeFirst(a, payload);
      Regroup(FirstReading(a[0], payload[..n]), Decode(a[1..], payload[n..]), Decode(b, payload[Width(a)..]));
    }
  }

  function FirstReading(field: Field, bytes: seq<Byte>): seq<Reading> {
    match field
    case Sampled(signal, kind) => [Reading(signal, kind, Concat(bytes))]
    case Skipped(_) => []
  }

  lemma DecodeFirst(fields: seq<Field>, payload: seq<Byte>)
    requires fields != [] && Width(fields) <= |payload|
    ensures var n := FieldBytes(fields[0]);
      Decode(fields, payload) == FirstReading(fields[0], payload[..n]) + Decode(fields[1..], payload[n..])
  {
  }

  lemma DropTwice<T>(s: seq<T>, m: nat, n: nat)
    requires m + n <= |s|
    ensures s[m..][n..] == s[m + n..]
  {
  }

  lemma Regroup<T>(a: seq<T>, b: seq<T>, c: seq<T>)
    ensures a + (b + c) == (a + b) + c
  {
  }
}
