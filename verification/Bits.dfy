/** Machine words as bit lists, least significant bit first: a little-endian
    integer is then simply the concatenation of its bytes. */
module Bits {
  type Bits = seq<bool>
  type Byte = b: seq<bool> | |b| == 8 witness [false, false, false, false, false, false, false, false]
  type Word = w: seq<bool> | |w| == 16
    witness [false, false, false, false, false, false, false, false,
             false, false, false, false, false, false, false, false]

  function Zeros(n: nat): (z: Bits)
    ensures |z| == n && forall i :: 0 <= i < n ==> !z[i]
  {
    seq(n, i => false)
  }

  function Xor(a: Bits, b: Bits): (x: Bits)
    requires |a| == |b|
    ensures |x| == |a| && forall i :: 0 <= i < |x| ==> x[i] == (a[i] != b[i])
  {
    seq(|a|, i requires 0 <= i < |a| => a[i] != b[i])
  }

  /** `a << k`, cut to the width of `a`. */
  function Shl(a: Bits, k: nat): (x: Bits)
    ensures |x| == |a| && forall i :: 0 <= i < |x| ==> x[i] == (k <= i && a[i - k])
  {
    seq(|a|, i requires 0 <= i < |a| => k <= i && a[i - k])
  }

  /** `a >> k` with zeros shifted in. */
  function Shr(a: Bits, k: nat): (x: Bits)
    ensures |x| == |a| && forall i :: 0 <= i < |x| ==> x[i] == (i + k < |a| && a[i + k])
  {
    seq(|a|, i requires 0 <= i < |a| => i + k < |a| && a[i + k])
  }

  /** A byte zero-extended to sixteen bits. */
  function Widen(b: Byte): (w: Word)
    ensures forall i :: 0 <= i < 16 ==> w[i] == (i < 8 && b[i])
  {
    b + Zeros(8)
  }

  /** The sixteen-bit word whose bytes are `lo`, `hi`. */
  function LittleEndian(lo: Byte, hi: Byte): Word {
    var low: Bits := lo;
    low + hi
  }

  function Low(w: Word): Byte { w[..8] }

  function High(w: Word): Byte { w[8..] }
}
