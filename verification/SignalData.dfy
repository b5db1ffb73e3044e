/** Signal definitions and samples as the logger hands them to the dash. */
module SignalData {
  /** A UTF-16 code unit. */
  type CodeUnit = x: int | 0 <= x < 0x1_0000

  /** A `QString`: a null string is distinct on the wire but equally empty. */
  datatype QString = Null | Text(units: seq<CodeUnit>)
  {
    predicate IsEmpty() { Null? || units == [] }

    /** What comparison and hashing see of a string. */
    function Key(): seq<CodeUnit> { if Null? then [] else units }
  }

  /** The 64 bits of an IEEE 754 double, read as a number. */
  type DoubleBits = x: int | 0 <= x < 0x1_0000_0000_0000_0000
  type UInt64 = x: int | 0 <= x < 0x1_0000_0000_0000_0000
  type Int64 = x: int | -0x8000_0000_0000_0000 <= x < 0x8000_0000_0000_0000

  datatype Width = W8 | W16 | W32 | W64

  /** A `QVariant`.  Floats and values convertible to double carry the double they
      convert to. */
  datatype Variant =
    | Invalid
    | Boolean(on: bool)
    | Signed(width: Width, number: Int64)
    | Unsigned(width: Width, count: UInt64)
    | String(text: QString)
    | Double(bits: DoubleBits)
    | Float(asDouble: DoubleBits)
    | Convertible(toDouble: DoubleBits)
    | Unconvertible

  datatype Source = Can | Vn300 | Replay | Derived

  datatype Definition = Definition(name: QString, unit: QString)

  datatype Sample = Sample(name: QString, value: Variant, unit: QString, timestampNs: Int64, source: Source)
}
