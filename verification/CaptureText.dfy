/** What the two capture formats have in common: runs of characters, numerals,
    timestamps and bytes in hexadecimal. */
module CaptureText {
  // ---- Characters ------------------------------------------------------------

  predicate IsSpace(c: char) { c == ' ' || '\t' <= c <= '\r' }
  predicate IsSolid(c: char) { !IsSpace(c) }
  predicate IsDecimal(c: char) { '0' <= c <= '9' }
  predicate IsHex(c: char) { IsDecimal(c) || 'a' <= c <= 'f' || 'A' <= c <= 'F' }

  ghost predicate All(p: char -> bool, s: string) { forall i :: 0 <= i < |s| ==> p(s[i]) }

  /** The length of the longest run at the front. */
  function Run(p: char -> bool, s: string): (n: nat)
    ensures n <= |s|
    ensures forall i :: 0 <= i < n ==> p(s[i])
    ensures n < |s| ==> !p(s[n])
  {
    if s == [] || !p(s[0]) then 0 else 1 + Run(p, s[1..])
  }

  /** A run that ends where it should is found whole. */
  lemma RunOf(p: char -> bool, run: string, rest: string)
    requires All(p, run) && (rest != [] ==> !p(rest[0]))
    ensures Run(p, run + rest) == |run|
    ensures (run + rest)[..|run|] == run && (run + rest)[|run|..] == rest
  {
    var all := run + rest;
    assert forall i :: 0 <= i < |run| ==> p(all[i]);
    assert rest != [] ==> all[|run|] == rest[0];
  }

  function TrimLeft(s: string): string { s[Run(IsSpace, s)..] }

  function TrimRight(s: string): string {
    if s == [] || !IsSpace(s[|s| - 1]) then s else TrimRight(s[..|s| - 1])
  }

  function Trim(s: string): string { TrimRight(TrimLeft(s)) }

  lemma TrimNothing(s: string)
    requires s != [] && !IsSpace(s[0]) && !IsSpace(s[|s| - 1])
    ensures Trim(s) == s
  {
  }

  // ---- Numerals --------------------------------------------------------------

  function DigitChar(d: nat, upper: bool): (c: char)
    requires d < 16
    ensures IsHex(c) && (d < 10 ==> IsDecimal(c))
    ensures DigitValue(c) == d
  {
    if d < 10 then ('0' as int + d) as char
    else if upper then ('A' as int + (d - 10)) as char
    else ('a' as int + (d - 10)) as char
  }

  function DigitValue(c: char): (d: nat)
    requires IsHex(c)
    ensures d < 16 && (IsDecimal(c) ==> d < 10)
  {
    if IsDecimal(c) then c as int - '0' as int
    else if c <= 'F' then c as int - 'A' as int + 10
    else c as int - 'a' as int + 10
  }

  function Decimal(n: nat): string {
    if n < 10 then [DigitChar(n, true)] else Decimal(n / 10) + [DigitChar(n % 10, true)]
  }

  function Hex(n: nat): string {
    if n < 16 then [DigitChar(n, false)] else Hex(n / 16) + [DigitChar(n % 16, false)]
  }

  function DecimalValue(s: string): nat
    requires All(IsDecimal, s)
  {
    if s == [] then 0 else 10 * DecimalValue(s[..|s| - 1]) + DigitValue(s[|s| - 1])
  }

  function HexValue(s: string): nat
    requires All(IsHex, s)
  {
    if s == [] then 0 else 16 * HexValue(s[..|s| - 1]) + DigitValue(s[|s| - 1])
  }

  lemma {:induction false} DecimalBack(n: nat)
    ensures Decimal(n) != [] && All(IsDecimal, Decimal(n)) && DecimalValue(Decimal(n)) == n
    decreases n
  {
    if n < 10 {
      assert Decimal(n)[..0] == [];
    } else {
      DecimalBack(n / 10);
      var front := Decimal(n / 10);
      assert Decimal(n)[..|front|] == front;
    }
  }

  lemma {:induction false} HexBack(n: nat)
    ensures Hex(n) != [] && All(IsHex, Hex(n)) && HexValue(Hex(n)) == n
    decreases n
  {
    if n < 16 {
      assert Hex(n)[..0] == [];
    } else {
      HexBack(n / 16);
      var front := Hex(n / 16);
      assert Hex(n)[..|front|] == front;
    }
  }

  function Zeros(count: nat): (s: string)
    ensures |s| == count && forall i :: 0 <= i < count ==> s[i] == '0'
  {
    seq(count, _ => '0')
  }

  function Padded(s: string, width: nat): string {
    if |s| < width then Zeros(width - |s|) + s else s
  }

  lemma {:induction false} DecimalZeros(count: nat, s: string)
    requires All(IsDecimal, s)
    ensures All(IsDecimal, Zeros(count) + s) && DecimalValue(Zeros(count) + s) == DecimalValue(s)
  {
    var all := Zeros(count) + s;
    if s != [] {
      DecimalZeros(count, s[..|s| - 1]);
      assert all[..|all| - 1] == Zeros(count) + s[..|s| - 1];
    } else if count > 0 {
      DecimalZeros(count - 1, s);
      assert all[..count - 1] == Zeros(count - 1) + s;
    }
  }

  lemma {:induction false} HexZeros(count: nat, s: string)
    requires All(IsHex, s)
    ensures All(IsHex, Zeros(count) + s) && HexValue(Zeros(count) + s) == HexValue(s)
  {
    var all := Zeros(count) + s;
    if s != [] {
      HexZeros(count, s[..|s| - 1]);
      assert all[..|all| - 1] == Zeros(count) + s[..|s| - 1];
    } else if count > 0 {
      HexZeros(count - 1, s);
      assert all[..count - 1] == Zeros(count - 1) + s;
    }
  }

  function PowerOfTen(k: nat): nat { if k == 0 then 1 else 10 * PowerOfTen(k - 1) }

  lemma {:induction false} DecimalIsShort(n: nat, k: nat)
    requires k > 0 && n < PowerOfTen(k)
    ensures |Decimal(n)| <= k
    decreases k
  {
    assert PowerOfTen(1) == 10 * PowerOfTen(0) == 10;
    if n >= 10 {
      DecimalIsShort(n / 10, k - 1);
    }
  }

  predicate IsLowerHex(c: char) { '0' <= c <= '9' || 'a' <= c <= 'f' }

  predicate IsUpperHex(c: char) { '0' <= c <= '9' || 'A' <= c <= 'F' }

  function PowerOfSixteen(k: nat): nat { if k == 0 then 1 else 16 * PowerOfSixteen(k - 1) }

  lemma {:induction false} HexIsShort(n: nat, k: nat)
    requires k > 0 && n < PowerOfSixteen(k)
    ensures |Hex(n)| <= k && All(IsLowerHex, Hex(n))
    decreases k
  {
    assert PowerOfSixteen(1) == 16 * PowerOfSixteen(0) == 16;
    if n >= 16 {
      HexIsShort(n / 16, k - 1);
    }
  }

  // ---- Timestamps ------------------------------------------------------------

  const NS_PER_SECOND := 1_000_000_000
  const LARGEST_SECONDS := 0x7FFF_FFFF_FFFF_FFFF

  /** `Stamp` is a timestamp as matched: whole seconds and up to nine further digits. */
  datatype Stamp = Stamp(seconds: string, fraction: string)

  datatype Matched<+T> = NoMatch | Matched(value: T, rest: string)

  ghost predicate ValidStamp(s: Stamp) {
    s.seconds != [] && All(IsDecimal, s.seconds) && All(IsDecimal, s.fraction) && |s.fraction| <= 9
  }

  /** Digits, and after them the expected character. */
  function TakeDigits(s: string, next: char): Matched<string> {
    var n := Run(IsDecimal, s);
    if n < |s| && s[n] == next then Matched(s[..n], s[n + 1..]) else NoMatch
  }

  /** `(seconds)` or `(seconds.fraction)`; at most one way to match exists. */
  function TakeStamp(s: string): (r: Matched<Stamp>)
    ensures r.Matched? ==> ValidStamp(r.value)
  {
    if s == [] || s[0] != '(' then NoMatch
    else
      match TakeDigits(s[1..], ')')
      case Matched(seconds, rest) => if seconds == [] then NoMatch else Matched(Stamp(seconds, []), rest)
      case NoMatch =>
        match TakeDigits(s[1..], '.')
        case NoMatch => NoMatch
        case Matched(seconds, afterPoint) =>
          match TakeDigits(afterPoint, ')')
          case NoMatch => NoMatch
          case Matched(fraction, rest) =>
            if seconds == [] || !(1 <= |fraction| <= 9) then NoMatch else Matched(Stamp(seconds, fraction), rest)
  }

  /** The fraction is filled up with zeros on the right. */
  function Nanoseconds(s: Stamp): (n: nat)
    requires ValidStamp(s)
  {
    DecimalValue(s.fraction + Zeros(9 - |s.fraction|))
  }

  predicate SecondsFit(s: Stamp)
    requires ValidStamp(s)
  {
    DecimalValue(s.seconds) <= LARGEST_SECONDS
  }

  function TimeOf(s: Stamp): nat
    requires ValidStamp(s)
  {
    DecimalValue(s.seconds) * NS_PER_SECOND + Nanoseconds(s)
  }

  function FormatStamp(timestampNs: nat): string {
    "(" + Decimal(timestampNs / NS_PER_SECOND) + "." + Padded(Decimal(timestampNs % NS_PER_SECOND), 9) + ")"
  }

  function StampOf(timestampNs: nat): Stamp {
    Stamp(Decimal(timestampNs / NS_PER_SECOND), Padded(Decimal(timestampNs % NS_PER_SECOND), 9))
  }

  lemma TenToTheNine()
    ensures PowerOfTen(9) == NS_PER_SECOND
  {
    assert PowerOfTen(3) == 1000;
    assert PowerOfTen(6) == 1_000_000;
  }

  lemma NanosecondsBack(n: nat)
    requires n < NS_PER_SECOND
    ensures var p := Padded(Decimal(n), 9);
      |p| == 9 && All(IsDecimal, p) && DecimalValue(p) == n
  {
    TenToTheNine();
    DecimalBack(n);
    DecimalIsShort(n, 9);
    DecimalZeros(9 - |Decimal(n)|, Decimal(n));
  }

  lemma StampBack(timestampNs: nat)
    ensures ValidStamp(StampOf(timestampNs)) && TimeOf(StampOf(timestampNs)) == timestampNs
    ensures DecimalValue(StampOf(timestampNs).seconds) == timestampNs / NS_PER_SECOND
  {
    DecimalBack(timestampNs / NS_PER_SECOND);
    NanosecondsBack(timestampNs % NS_PER_SECOND);
    var s := StampOf(timestampNs);
    assert s.fraction + Zeros(9 - |s.fraction|) == s.fraction;
  }

  lemma TakeDigitsOf(digits: string, c: char, rest: string, next: char)
    requires All(IsDecimal, digits) && !IsDecimal(c)
    ensures TakeDigits(digits + [c] + rest, next) == if c == next then Matched(digits, rest) else NoMatch
  {
    var s := digits + [c] + rest;
    assert s == digits + ([c] + rest);
    RunOf(IsDecimal, digits, [c] + rest);
    assert s[|digits| + 1..] == rest;
  }

  lemma TakeStampOf(seconds: string, fraction: string, rest: string)
    requires seconds != [] && All(IsDecimal, seconds) && All(IsDecimal, fraction) && 1 <= |fraction| <= 9
    ensures TakeStamp(['('] + (seconds + ['.'] + (fraction + [')'] + rest))) == Matched(Stamp(seconds, fraction), rest)
  {
    var afterPoint := fraction + [')'] + rest;
    var open := seconds + ['.'] + afterPoint;
    TakeDigitsOf(seconds, '.', afterPoint, ')');
    TakeDigitsOf(seconds, '.', afterPoint, '.');
    TakeDigitsOf(fraction, ')', rest, ')');
    TakeStampAfter(open, seconds, afterPoint, fraction, rest);
    Nested(['('], seconds, ['.'], fraction, [')'], rest);
  }

  lemma Nested(a: string, b: string, c: string, d: string, e: string, f: string)
    ensures a + (b + (c + (d + (e + f)))) == a + (b + c + (d + e + f))
  {
    assert d + (e + f) == d + e + f;
    assert b + (c + (d + e + f)) == b + c + (d + e + f);
  }

  lemma TakeStampAfter(open: string, seconds: string, afterPoint: string, fraction: string, rest: string)
    requires TakeDigits(open, ')').NoMatch? && TakeDigits(open, '.') == Matched(seconds, afterPoint)
    requires TakeDigits(afterPoint, ')') == Matched(fraction, rest)
    requires seconds != [] && 1 <= |fraction| <= 9
    ensures TakeStamp(['('] + open) == Matched(Stamp(seconds, fraction), rest)
  {
    assert (['('] + open)[1..] == open;
  }

  lemma Regroup(seconds: string, fraction: string, rest: string)
    ensures ("(" + seconds + "." + fraction + ")") + rest == ['('] + (seconds + ['.'] + (fraction + [')'] + rest))
  {
  }

  lemma TakeStampBack(timestampNs: nat, rest: string)
    ensures TakeStamp(FormatStamp(timestampNs) + rest) == Matched(StampOf(timestampNs), rest)
  {
    StampBack(timestampNs);
    NanosecondsBack(timestampNs % NS_PER_SECOND);
    var s := StampOf(timestampNs);
    TakeStampOf(s.seconds, s.fraction, rest);
    Regroup(s.seconds, s.fraction, rest);
  }

  // ---- Bytes -----------------------------------------------------------------

  type Octet = x: int | 0 <= x < 256

  function ToHex(bytes: seq<Octet>): (s: string)
    ensures |s| == 2 * |bytes|
  {
    if bytes == [] then []
    else [DigitChar(bytes[0] / 16, true), DigitChar(bytes[0] % 16, true)] + ToHex(bytes[1..])
  }

  function FromHex(s: string): (bytes: seq<Octet>)
    requires All(IsHex, s) && |s| % 2 == 0
    ensures |bytes| * 2 == |s|
    decreases |s|
  {
    if s == [] then []
    else [16 * DigitValue(s[0]) + DigitValue(s[1])] + FromHex(s[2..])
  }

  lemma {:induction false} HexBytesBack(bytes: seq<Octet>)
    ensures All(IsHex, ToHex(bytes)) && |ToHex(bytes)| % 2 == 0 && FromHex(ToHex(bytes)) == bytes
  {
    if bytes != [] {
      HexBytesBack(bytes[1..]);
      var s := ToHex(bytes);
      assert s[2..] == ToHex(bytes[1..]);
      var b := bytes[0];
      assert 16 * (b / 16) + b % 16 == b;
    }
  }

  lemma {:induction false} BytesInUpperHex(bytes: seq<Octet>)
    ensures All(IsUpperHex, ToHex(bytes))
  {
    if bytes != [] { BytesInUpperHex(bytes[1..]); }
  }

  // ---- Short fractions -------------------------------------------------------

  lemma {:induction false} ZerosBehind(s: string, count: nat)
    requires All(IsDecimal, s)
    ensures All(IsDecimal, s + Zeros(count))
    ensures DecimalValue(s + Zeros(count)) == DecimalValue(s) * PowerOfTen(count)
    decreases count
  {
    if count == 0 {
      assert s + Zeros(0) == s;
    } else {
      var all := s + Zeros(count);
      assert all[..|all| - 1] == s + Zeros(count - 1) && all[|all| - 1] == '0';
      ZerosBehind(s, count - 1);
      TenTimes(DecimalValue(s), PowerOfTen(count - 1));
    }
  }

  lemma TenTimes(a: nat, b: nat)
    ensures 10 * (a * b) == a * (10 * b)
  {
  }

  /** Fewer than nine digits are the leading digits of the fraction. */
  lemma FractionIsDecimal(s: Stamp)
    requires ValidStamp(s)
    ensures |s.fraction| <= 9 && Nanoseconds(s) == DecimalValue(s.fraction) * PowerOfTen(9 - |s.fraction|)
    ensures TimeOf(s) == DecimalValue(s.seconds) * 1_000_000_000 + Nanoseconds(s)
  {
    ZerosBehind(s.fraction, 9 - |s.fraction|);
  }
}
