/** The VN-300 packet checksum: the generator x^16 + x^12 + x^5 + 1 of section 2
    of ITU-T Recommendation V.41 with initial value 0, most significant bit
    first.  The reference is the bit-serial division register; the program's
    byte-swap loop is proved to compute it. */
module Crc {
  import opened Bits

  const GENERATOR: Word :=
    [true, false, false, false, false, true, false, false, false, false, false, false, true, false, false, false]

  /** One step of the division register: shift one message bit in. */
  function Step(r: Word, bit: bool): Word {
    if r[15] != bit then Xor(Shl(r, 1), GENERATOR) else Shl(r, 1)
  }

  /** The register after the message `bits`, first bit first. */
  function Divide(r: Word, bits: Bits): Word
    decreases |bits|
  {
    if bits == [] then r else Divide(Step(r, bits[0]), bits[1..])
  }

  /** The bits of a byte in transmission order. */
  function MsbFirst(b: Byte): (m: Bits)
    ensures |m| == 8
  {
    seq(8, i requires 0 <= i < 8 => b[7 - i])
  }

  function MessageBits(data: seq<Byte>): (m: Bits)
    ensures |m| == 8 * |data|
  {
    if data == [] then [] else MsbFirst(data[0]) + MessageBits(data[1..])
  }

  /** The checksum of `data`. */
  function Remainder(data: seq<Byte>): Word {
    Divide(Zeros(16), MessageBits(data))
  }

  lemma StepAt(r: Word, bit: bool)
    ensures forall i :: 0 <= i < 16 ==>
      Step(r, bit)[i] == ((0 < i && r[i - 1]) != (r[15] != bit && (i == 0 || i == 5 || i == 12)))
  {
  }

  lemma {:induction false} DivideConcat(r: Word, a: Bits, b: Bits)
    ensures Divide(r, a + b) == Divide(Divide(r, a), b)
    decreases |a|
  {
    if a == [] {
      assert a + b == b;
    } else {
      assert (a + b)[1..] == a[1..] + b;
      DivideConcat(Step(r, a[0]), a[1..], b);
    }
  }

  lemma {:induction false} MessageBitsConcat(a: seq<Byte>, b: seq<Byte>)
    ensures MessageBits(a + b) == MessageBits(a) + MessageBits(b)
  {
    if a == [] {
      assert a + b == b;
    } else {
      assert (a + b)[1..] == a[1..] + b;
      MessageBitsConcat(a[1..], b);
    }
  }

  lemma RemainderConcat(a: seq<Byte>, b: seq<Byte>)
    ensures Remainder(a + b) == Divide(Remainder(a), MessageBits(b))
  {
    MessageBitsConcat(a, b);
    DivideConcat(Zeros(16), MessageBits(a), MessageBits(b));
  }

  lemma OneByte(b: Byte)
    ensures MessageBits([b]) == MsbFirst(b)
  {
    assert [b][1..] == [];
    assert MsbFirst(b) + [] == MsbFirst(b);
  }

  // ---- The byte-swap loop ----------------------------------------------------

  function Shifts(r: Word, n: nat): Word
    decreases n
  {
    if n == 0 then r else Shifts(Step(r, false), n - 1)
  }

  lemma {:induction false} ShiftsAdd(r: Word, m: nat, n: nat)
    ensures Shifts(r, m + n) == Shifts(Shifts(r, m), n)
    decreases m
  {
    if m > 0 {
      ShiftsAdd(Step(r, false), m - 1, n);
    }
  }

  /** `bits` placed at the top of a register, first bit topmost. */
  function Aligned(bits: Bits): (w: Word)
    requires |bits| <= 16
    ensures forall i :: 0 <= i < 16 ==> w[i] == (15 - i < |bits| && bits[15 - i])
  {
    seq(16, i requires 0 <= i < 16 => 15 - i < |bits| && bits[15 - i])
  }

  lemma StepAligned(r: Word, bits: Bits)
    requires 0 < |bits| <= 16
    ensures Step(Xor(r, Aligned(bits)), false) == Xor(Step(r, bits[0]), Aligned(bits[1..]))
  {
    var x := Xor(r, Aligned(bits));
    StepAt(r, bits[0]);
    StepAt(x, false);
    assert forall i {:trigger Aligned(bits[1..])[i]} :: 0 < i < 16 ==> Aligned(bits[1..])[i] == Aligned(bits)[i - 1];
  }

  /** Up to sixteen message bits may be added to the register all at once. */
  lemma {:induction false} DivideAligned(r: Word, bits: Bits)
    requires |bits| <= 16
    ensures Divide(r, bits) == Shifts(Xor(r, Aligned(bits)), |bits|)
    decreases |bits|
  {
    var x := Xor(r, Aligned(bits));
    if bits == [] {
      assert x == r;
    } else {
      var s := Step(r, bits[0]);
      DivideAligned(s, bits[1..]);
      StepAligned(r, bits);
    }
  }

  lemma TwoShifts(r: Word)
    ensures var s := Shifts(r, 2); forall i :: 0 <= i < 16 ==>
      s[i] == (((2 <= i && r[i - 2]) != (i < 2 && r[14 + i])) !=
        ((5 <= i < 7 && r[9 + i]) != (12 <= i < 14 && r[2 + i])))
  {
    var a := Step(r, false);
    assert Shifts(r, 2) == Step(a, false) by { assert Shifts(a, 1) == Shifts(Step(a, false), 0); }
    StepAt(r, false);
    StepAt(a, false);
  }

  /** The register after four shifts, bit by bit. */
  ghost predicate FourShifted(r: Word, s: Word) {
    forall i {:trigger s[i]} :: 0 <= i < 16 ==>
      s[i] == (((4 <= i && r[i - 4]) != (i < 4 && r[12 + i])) != ((5 <= i < 9 && r[7 + i]) != (12 <= i && r[i])))
  }

  lemma FourShifts(r: Word)
    ensures FourShifted(r, Shifts(r, 4))
  {
    ShiftsAdd(r, 2, 2);
    TwoShifts(r);
    TwoShifts(Shifts(r, 2));
  }

  /** The register after eight shifts, bit by bit. */
  ghost predicate EightShifted(x: Word, z: Word) {
    forall i {:trigger z[i]} :: 0 <= i < 16 ==>
      z[i] == if i < 4 then x[8 + i] != x[12 + i]
              else if i == 4 then x[12]
              else if i < 8 then (x[8 + i] != x[3 + i]) != x[7 + i]
              else if i == 8 then (x[0] != x[11]) != x[15]
              else if i < 12 then x[i - 8] != x[3 + i]
              else if i == 12 then (x[4] != x[8]) != (x[12] != x[15])
              else (x[i - 8] != x[i - 4]) != x[i]
  }

  lemma EightShiftsOfFour(x: Word, y: Word, z: Word)
    requires FourShifted(x, y) && FourShifted(y, z)
    ensures EightShifted(x, z)
  {
    forall i {:trigger z[i]} | 0 <= i < 16
      ensures z[i]
        == (((4 <= i && y[i - 4]) != (i < 4 && y[12 + i])) != ((5 <= i < 9 && y[7 + i]) != (12 <= i && y[i])))
      ensures 4 <= i ==> y[i - 4] == (((8 <= i && x[i - 8]) != (i < 8 && x[8 + i])) != (9 <= i < 13 && x[3 + i]))
    {
    }
  }

  lemma EightShifts(x: Word)
    ensures EightShifted(x, Shifts(x, 8))
  {
    ShiftsAdd(x, 4, 4);
    FourShifts(x);
    FourShifts(Shifts(x, 4));
    EightShiftsOfFour(x, Shifts(x, 4), Shifts(x, 8));
  }

  lemma SwapStepBits(x: Word, s: Word, t: Word, u: Word, v: Word)
    requires s == x[8..] + x[..8]
    requires forall i {:trigger t[i]} :: 0 <= i < 16 ==> t[i] == (s[i] != (i < 4 && s[i + 4]))
    requires forall i {:trigger u[i]} :: 0 <= i < 16 ==> u[i] == (t[i] != (12 <= i && t[i - 12]))
    requires forall i {:trigger v[i]} :: 0 <= i < 16 ==> v[i] == (u[i] != (5 <= i < 13 && u[i - 5]))
    ensures EightShifted(x, v)
  {
  }

  lemma SwapStepIsEightShifts(r: Word, b: Byte, x: Word, s: Word, t: Word, u: Word, v: Word)
    requires x == Xor(r, Aligned(MsbFirst(b)))
    requires s == Xor(Xor(Shr(r, 8), Shl(r, 8)), Widen(b))
    requires t == Xor(s, Widen(Shr(Low(s), 4)))
    requires u == Xor(t, Shl(t, 12))
    requires v == Xor(u, Shl(Widen(Low(u)), 5))
    ensures EightShifted(x, v)
  {
    assert s == x[8..] + x[..8];
    SwapStepBits(x, s, t, u, v);
  }

  lemma SwapStepDivides(r: Word, b: Byte, s: Word, t: Word, u: Word, v: Word)
    requires s == Xor(Xor(Shr(r, 8), Shl(r, 8)), Widen(b))
    requires t == Xor(s, Widen(Shr(Low(s), 4)))
    requires u == Xor(t, Shl(t, 12))
    requires v == Xor(u, Shl(Widen(Low(u)), 5))
    ensures v == Divide(r, MsbFirst(b))
  {
    var x := Xor(r, Aligned(MsbFirst(b)));
    DivideAligned(r, MsbFirst(b));
    SwapStepIsEightShifts(r, b, x, s, t, u, v);
    EightShifts(x);
    assert forall i :: 0 <= i < 16 ==> v[i] == Shifts(x, 8)[i];
  }

  /** The loop body of the checksum: five updates of the register. */
  method SwapStep(r: Word, b: Byte) returns (crc: Word)
    ensures crc == Divide(r, MsbFirst(b))
  {
    crc := Xor(Shr(r, 8), Shl(r, 8));
    crc := Xor(crc, Widen(b));
    ghost var s := crc;
    crc := Xor(crc, Widen(Shr(Low(crc), 4)));
    ghost var t := crc;
    crc := Xor(crc, Shl(crc, 12));
    ghost var u := crc;
    crc := Xor(crc, Shl(Widen(Low(crc)), 5));
    SwapStepDivides(r, b, s, t, u, crc);
  }

  lemma RemainderExtend(data: seq<Byte>, i: nat)
    requires i < |data|
    ensures Remainder(data[..i + 1]) == Divide(Remainder(data[..i]), MsbFirst(data[i]))
  {
    assert data[..i + 1] == data[..i] + [data[i]];
    RemainderConcat(data[..i], [data[i]]);
    OneByte(data[i]);
  }

  method CalculateCrc(data: seq<Byte>) returns (crc: Word)
    ensures crc == Remainder(data)
  {
    crc := Zeros(16);
    for i := 0 to |data|
      invariant crc == Remainder(data[..i])
    {
      RemainderExtend(data, i);
      crc := SwapStep(crc, data[i]);
    }
    assert data[..|data|] == data;
  }

  // ---- Algebra ---------------------------------------------------------------

  lemma StepLinear(r: Word, s: Word, a: bool, b: bool)
    ensures Step(Xor(r, s), a != b) == Xor(Step(r, a), Step(s, b))
  {
    StepAt(r, a);
    StepAt(s, b);
    StepAt(Xor(r, s), a != b);
  }

  lemma {:induction false} DivideLinear(r: Word, s: Word, a: Bits, b: Bits)
    requires |a| == |b|
    ensures Divide(Xor(r, s), Xor(a, b)) == Xor(Divide(r, a), Divide(s, b))
    decreases |a|
  {
    if a != [] {
      StepLinear(r, s, a[0], b[0]);
      assert Xor(a, b)[1..] == Xor(a[1..], b[1..]);
      DivideLinear(Step(r, a[0]), Step(s, b[0]), a[1..], b[1..]);
    }
  }

  function XorBytes(a: seq<Byte>, b: seq<Byte>): (x: seq<Byte>)
    requires |a| == |b|
    ensures |x| == |a|
  {
    seq(|a|, i requires 0 <= i < |a| => Xor(a[i], b[i]))
  }

  lemma {:induction false} MessageBitsXor(a: seq<Byte>, b: seq<Byte>)
    requires |a| == |b|
    ensures MessageBits(XorBytes(a, b)) == Xor(MessageBits(a), MessageBits(b))
  {
    if a != [] {
      assert XorBytes(a, b)[1..] == XorBytes(a[1..], b[1..]);
      MessageBitsXor(a[1..], b[1..]);
      assert MsbFirst(Xor(a[0], b[0])) == Xor(MsbFirst(a[0]), MsbFirst(b[0]));
      var p, q := MessageBits(a[1..]), MessageBits(b[1..]);
      assert Xor(MsbFirst(a[0]) + p, MsbFirst(b[0]) + q) == Xor(MsbFirst(a[0]), MsbFirst(b[0])) + Xor(p, q);
    }
  }

  /** The checksum is linear over messages of equal length. */
  lemma RemainderLinear(a: seq<Byte>, b: seq<Byte>)
    requires |a| == |b|
    ensures Remainder(XorBytes(a, b)) == Xor(Remainder(a), Remainder(b))
  {
    MessageBitsXor(a, b);
    assert Xor(Zeros(16), Zeros(16)) == Zeros(16);
    DivideLinear(Zeros(16), Zeros(16), MessageBits(a), MessageBits(b));
  }

  lemma {:induction false} ShiftsOfZero(n: nat)
    ensures Shifts(Zeros(16), n) == Zeros(16)
  {
    if n > 0 {
      assert Step(Zeros(16), false) == Zeros(16);
      ShiftsOfZero(n - 1);
    }
  }

  /** No shift maps a non-zero register to zero. */
  lemma {:induction false} ShiftsKeepNonZero(r: Word, n: nat)
    requires Shifts(r, n) == Zeros(16)
    ensures r == Zeros(16)
    decreases n
  {
    if n > 0 {
      var s := Step(r, false);
      ShiftsKeepNonZero(s, n - 1);
      StepAt(r, false);
      assert !s[0];
      forall i | 0 <= i < 16 ensures !r[i] {
        if i < 15 { assert !s[i + 1]; }
      }
    }
  }

  /** Sixteen message bits bring the register to zero exactly when they are its own bits. */
  lemma DivideToZero(r: Word, bits: Bits)
    requires |bits| <= 16
    ensures Divide(r, bits) == Zeros(16) <==> r == Aligned(bits)
  {
    DivideAligned(r, bits);
    var x := Xor(r, Aligned(bits));
    if r == Aligned(bits) {
      assert x == Zeros(16);
      ShiftsOfZero(|bits|);
    } else {
      var i :| 0 <= i < 16 && r[i] != Aligned(bits)[i];
      assert x[i];
      if Divide(r, bits) == Zeros(16) {
        ShiftsKeepNonZero(x, |bits|);
      }
    }
  }

  /** The check over data and two further bytes is zero exactly when those bytes
      are the checksum of the data, most significant byte first. */
  lemma CheckIsZeroIffAppended(data: seq<Byte>, hi: Byte, lo: Byte)
    ensures Remainder(data + [hi, lo]) == Zeros(16) <==> hi == High(Remainder(data)) && lo == Low(Remainder(data))
  {
    var r := Remainder(data);
    RemainderConcat(data, [hi, lo]);
    TwoBytes(hi, lo);
    DivideToZero(r, MsbFirst(hi) + MsbFirst(lo));
    AlignedBytes(hi, lo);
    JoinedIff(r, hi, lo);
  }

  lemma TwoBytes(hi: Byte, lo: Byte)
    ensures MessageBits([hi, lo]) == MsbFirst(hi) + MsbFirst(lo)
  {
    OneByte(lo);
    assert [hi, lo][1..] == [lo];
  }

  lemma AlignedBytes(hi: Byte, lo: Byte)
    ensures Aligned(MsbFirst(hi) + MsbFirst(lo)) == lo + hi
  {
  }

  lemma JoinedIff(r: Word, hi: Byte, lo: Byte)
    ensures r == lo + hi <==> hi == High(r) && lo == Low(r)
  {
    assert r == Low(r) + High(r);
    assert (lo + hi)[..8] == lo && (lo + hi)[8..] == hi;
  }

  lemma {:induction false} DivideZeros(n: nat)
    ensures Divide(Zeros(16), Zeros(n)) == Zeros(16)
  {
    if n > 0 {
      assert Zeros(n)[1..] == Zeros(n - 1);
      assert Step(Zeros(16), false) == Zeros(16);
      DivideZeros(n - 1);
    }
  }

  lemma {:induction false} DivideByZeros(r: Word, n: nat)
    ensures Divide(r, Zeros(n)) == Shifts(r, n)
    decreases n
  {
    if n > 0 {
      DivideByZero(r, n);
      DivideByZeros(Step(r, false), n - 1);
    }
  }

  lemma DivideByZero(r: Word, n: nat)
    requires n > 0
    ensures Divide(r, Zeros(n)) == Divide(Step(r, false), Zeros(n - 1))
  {
    assert Zeros(n)[1..] == Zeros(n - 1);
  }

  /** Errors confined to sixteen consecutive message bits, starting at bit `from`. */
  ghost predicate IsBurst(error: Bits, from: nat) {
    && (exists i :: 0 <= i < |error| && error[i])
    && forall i :: 0 <= i < |error| && error[i] ==> from <= i < from + 16
  }

  lemma BurstHasRemainder(error: Bits, from: nat)
    requires IsBurst(error, from)
    ensures Divide(Zeros(16), error) != Zeros(16)
  {
    var k :| 0 <= k < |error| && error[k];
    var to := if from + 16 <= |error| then from + 16 else |error|;
    var burst := error[from..to];
    var after := |error| - to;
    assert error == Zeros(from) + (burst + Zeros(after));
    DivideBetweenZeros(from, burst, after);
    BurstIsNotZero(burst, k - from);
    var r := Divide(Zeros(16), burst);
    if Shifts(r, after) == Zeros(16) {
      ShiftsKeepNonZero(r, after);
    }
  }

  /** Zeros before a burst change nothing; zeros behind it shift its remainder. */
  lemma DivideBetweenZeros(before: nat, burst: Bits, after: nat)
    ensures Divide(Zeros(16), Zeros(before) + (burst + Zeros(after))) == Shifts(Divide(Zeros(16), burst), after)
  {
    DivideConcat(Zeros(16), Zeros(before), burst + Zeros(after));
    DivideZeros(before);
    DivideConcat(Zeros(16), burst, Zeros(after));
    DivideByZeros(Divide(Zeros(16), burst), after);
  }

  lemma BurstIsNotZero(burst: Bits, k: nat)
    requires k < |burst| <= 16 && burst[k]
    ensures Divide(Zeros(16), burst) != Zeros(16)
  {
    assert Aligned(burst)[15 - k];
    DivideToZero(Zeros(16), burst);
  }

  /** Every corruption confined to sixteen consecutive bits of a packet whose
      check is zero makes the check non-zero. */
  lemma BurstIsDetected(data: seq<Byte>, received: seq<Byte>, from: nat)
    requires |data| == |received|
    requires Remainder(data) == Zeros(16)
    requires IsBurst(Xor(MessageBits(data), MessageBits(received)), from)
    ensures Remainder(received) != Zeros(16)
  {
    var error := Xor(MessageBits(data), MessageBits(received));
    BurstHasRemainder(error, from);
    assert Xor(Zeros(16), Zeros(16)) == Zeros(16);
    DivideLinear(Zeros(16), Zeros(16), MessageBits(data), MessageBits(received));
  }

  /** In particular any change of one or both of two adjacent bytes. */
  lemma TwoByteChangeIsDetected(data: seq<Byte>, received: seq<Byte>, at: nat)
    requires |data| == |received| && data != received
    requires Remainder(data) == Zeros(16)
    requires forall i :: 0 <= i < |data| && i != at && i != at + 1 ==> data[i] == received[i]
    ensures Remainder(received) != Zeros(16)
  {
    var error := Xor(MessageBits(data), MessageBits(received));
    forall i | 0 <= i < |error|
      ensures error[i] == (data[i / 8][7 - i % 8] != received[i / 8][7 - i % 8])
    {
      MessageBitAt(data, i);
      MessageBitAt(received, i);
    }
    var k :| 0 <= k < |data| && data[k] != received[k];
    var j :| 0 <= j < 8 && data[k][j] != received[k][j];
    assert error[8 * k + (7 - j)];
    BurstIsDetected(data, received, 8 * at);
  }

  lemma {:induction false} MessageBitAt(data: seq<Byte>, i: nat)
    requires i < 8 * |data|
    ensures MessageBits(data)[i] == data[i / 8][7 - i % 8]
  {
    if i >= 8 {
      MessageBitAt(data[1..], i - 8);
      assert (i - 8) / 8 == i / 8 - 1 && (i - 8) % 8 == i % 8;
    }
  }
}
