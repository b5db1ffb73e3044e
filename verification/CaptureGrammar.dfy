/** The lines the two parsers take, given as a grammar: the regular expressions of the
    source, with every way to match them. */
module CaptureGrammar {
  import opened CaptureText
  import opened CandumpCodec
  import Vn300LogCodec

  // ---- Characters and white space --------------------------------------------

  lemma SpaceIs(c: char)
    ensures IsSpace(c) <==> c in [' ', '\t', '\n', 11 as char, 12 as char, '\r']
  {
  }

  /** Digits have their usual values, in either case. */
  lemma DigitIs(c: char, d: nat)
    requires d < 16
    ensures IsHex(c) && DigitValue(c) == d <==> c == "0123456789abcdef"[d] || c == "0123456789ABCDEF"[d]
  {
  }

  /** Each byte is two digits, the high one first. */
  lemma {:induction false} ByteIs(s: string, k: nat)
    requires All(IsHex, s) && |s| % 2 == 0 && 2 * k + 1 < |s|
    ensures k < |FromHex(s)| && FromHex(s)[k] == 16 * DigitValue(s[2 * k]) + DigitValue(s[2 * k + 1])
    decreases k
  {
    if k > 0 {
      ByteIs(s[2..], k - 1);
    }
  }

  ghost predicate SolidEnds(text: string) {
    text != [] ==> !IsSpace(text[0]) && !IsSpace(text[|text| - 1])
  }

  /** Trimming takes the white space off both ends and nothing else. */
  lemma TrimIs(left: string, text: string, right: string)
    requires All(IsSpace, left) && All(IsSpace, right) && SolidEnds(text)
    ensures Trim(left + text + right) == text
  {
    var line := left + text + right;
    if text == [] {
      assert line == left + right;
      assert All(IsSpace, line);
      RunOf(IsSpace, line, []);
      assert line == line + [];
    } else {
      assert line == left + (text + right);
      RunOf(IsSpace, left, text + right);
      TrimRightIs(text, right);
    }
  }

  lemma {:induction false} TrimRightIs(text: string, right: string)
    requires All(IsSpace, right) && (text != [] ==> !IsSpace(text[|text| - 1]))
    ensures TrimRight(text + right) == text
    decreases |right|
  {
    if right == [] {
      assert text + right == text;
    } else {
      var line := text + right;
      assert line[..|line| - 1] == text + right[..|right| - 1];
      TrimRightIs(text, right[..|right| - 1]);
    }
  }

  /** Every line is such a text between such ends. */
  lemma EveryLineTrims(line: string) returns (left: string, right: string)
    ensures line == left + Trim(line) + right
    ensures All(IsSpace, left) && All(IsSpace, right) && SolidEnds(Trim(line))
  {
    var n := Run(IsSpace, line);
    left := line[..n];
    right := TrimmedRight(line[n..]);
    Joined(line, n, TrimLeft(line), Trim(line), right);
    if Trim(line) != [] { assert Trim(line)[0] == TrimLeft(line)[0] == line[n]; }
  }

  lemma Joined(line: string, n: nat, rest: string, text: string, right: string)
    requires n <= |line| && rest == line[n..] && rest == text + right
    ensures line == line[..n] + text + right
  {
  }

  lemma {:induction false} TrimmedRight(s: string) returns (right: string)
    ensures s == TrimRight(s) + right && All(IsSpace, right)
    ensures TrimRight(s) != [] ==> !IsSpace(TrimRight(s)[|TrimRight(s)| - 1])
  {
    if s == [] || !IsSpace(s[|s| - 1]) {
      right := [];
    } else {
      right := TrimmedRight(s[..|s| - 1]);
      right := right + [s[|s| - 1]];
    }
  }

  // ---- Parts of a line -------------------------------------------------------

  function StampText(s: Stamp): string {
    "(" + s.seconds + (if s.fraction == [] then "" else "." + s.fraction) + ")"
  }

  lemma DigitsIff(s: string, next: char, digits: string, rest: string)
    requires !IsDecimal(next)
    ensures TakeDigits(s, next) == Matched(digits, rest) <==> All(IsDecimal, digits) && s == digits + [next] + rest
  {
    if All(IsDecimal, digits) && s == digits + [next] + rest { TakeDigitsOf(digits, next, rest, next); }
  }

  lemma ShortRegroup(seconds: string, rest: string)
    ensures ("(" + seconds + "" + ")") + rest == ['('] + (seconds + [')'] + rest)
  {
  }

  lemma LongRegroup(seconds: string, fraction: string, rest: string)
    ensures ("(" + seconds + ("." + fraction) + ")") + rest == ['('] + (seconds + ['.'] + (fraction + [')'] + rest))
  {
    assert "(" + seconds + ("." + fraction) == "(" + seconds + "." + fraction;
    Regroup(seconds, fraction, rest);
  }

  lemma StampIsTaken(stamp: Stamp, rest: string)
    requires ValidStamp(stamp)
    ensures TakeStamp(StampText(stamp) + rest) == Matched(stamp, rest)
  {
    if stamp.fraction == [] {
      var open := stamp.seconds + [')'] + rest;
      ShortRegroup(stamp.seconds, rest);
      TakeDigitsOf(stamp.seconds, ')', rest, ')');
      assert (['('] + open)[1..] == open;
    } else {
      TakeStampOf(stamp.seconds, stamp.fraction, rest);
      LongRegroup(stamp.seconds, stamp.fraction, rest);
    }
  }

  lemma TakenIsStamp(s: string)
    requires TakeStamp(s).Matched?
    ensures s == StampText(TakeStamp(s).value) + TakeStamp(s).rest
  {
    var stamp, rest := TakeStamp(s).value, TakeStamp(s).rest;
    var open := s[1..];
    assert s == ['('] + open;
    if TakeDigits(open, ')').Matched? {
      DigitsIff(open, ')', stamp.seconds, rest);
      ShortRegroup(stamp.seconds, rest);
    } else {
      var afterPoint := TakeDigits(open, '.').rest;
      DigitsIff(open, '.', stamp.seconds, afterPoint);
      DigitsIff(afterPoint, ')', stamp.fraction, rest);
      LongRegroup(stamp.seconds, stamp.fraction, rest);
    }
  }

  lemma TokenIsTaken(p: char -> bool, gap: string, token: string, rest: string)
    requires gap != [] && All(IsSpace, gap) && token != [] && All(p, token) && !IsSpace(token[0])
    requires rest != [] ==> !p(rest[0])
    ensures TakeToken(p, gap + (token + rest)) == Matched(token, rest)
  {
    RunOf(IsSpace, gap, token + rest);
    RunOf(p, token, rest);
  }

  lemma TakenIsToken(p: char -> bool, s: string) returns (gap: string)
    requires TakeToken(p, s).Matched?
    ensures gap != [] && All(IsSpace, gap)
    ensures s == gap + (TakeToken(p, s).value + TakeToken(p, s).rest)
  {
    gap := s[..Run(IsSpace, s)];
  }

  lemma PayloadIsTaken(payload: string, tail: string)
    requires All(IsHex, payload) && All(IsSpace, tail)
    ensures TakePayload("#" + (payload + tail)) == Matched(payload, [])
  {
    var s := "#" + (payload + tail);
    assert s[1..] == payload + tail;
    RunOf(IsHex, payload, tail);
    RunOf(IsSpace, tail, []);
    assert tail + [] == tail;
  }

  lemma TakenIsPayload(s: string) returns (tail: string)
    requires TakePayload(s).Matched?
    ensures All(IsSpace, tail) && s == "#" + (TakePayload(s).value + tail)
  {
    tail := s[1..][Run(IsHex, s[1..])..];
  }

  // ---- CAN captures ----------------------------------------------------------

  /** The line says these fields: `gap`, `middle` and `tail` are its white space. */
  ghost predicate Spells(text: string, f: Fields, gap: string, middle: string, tail: string) {
    && ValidFields(f) && gap != [] && middle != []
    && All(IsSpace, gap) && All(IsSpace, middle) && All(IsSpace, tail)
    && text == StampText(f.stamp) + (gap + (f.interfaceName + (middle + (f.id + ("#" + (f.payload + tail))))))
  }

  ghost predicate Spelled(text: string, f: Fields) {
    exists gap, middle, tail :: Spells(text, f, gap, middle, tail)
  }

  lemma SpelledIsTaken(text: string, f: Fields, gap: string, middle: string, tail: string)
    requires Spells(text, f, gap, middle, tail)
    ensures TakeFields(text) == Matched(f, [])
  {
    var afterName := middle + (f.id + ("#" + (f.payload + tail)));
    StampIsTaken(f.stamp, gap + (f.interfaceName + afterName));
    assert afterName[0] == middle[0];
    TokenIsTaken(IsSolid, gap, f.interfaceName, afterName);
    FrameIsTaken(middle, f.id, f.payload, tail);
  }

  lemma FrameIsTaken(gap: string, id: string, payload: string, tail: string)
    requires gap != [] && All(IsSpace, gap) && All(IsSpace, tail)
    requires id != [] && All(IsHex, id) && All(IsHex, payload)
    ensures TakeFrame(gap + (id + ("#" + (payload + tail)))) == Matched((id, payload), [])
  {
    var afterId := "#" + (payload + tail);
    assert afterId[0] == '#';
    TokenIsTaken(IsHex, gap, id, afterId);
    PayloadIsTaken(payload, tail);
  }

  lemma TakenIsSpelled(text: string)
    requires TakeFields(text).Matched?
    ensures Spelled(text, TakeFields(text).value)
  {
    var f := TakeFields(text).value;
    var afterStamp := TakeStamp(text).rest;
    TakenIsStamp(text);
    var gap := TakenIsToken(IsSolid, afterStamp);
    var afterName := TakeToken(IsSolid, afterStamp).rest;
    var middle := TakenIsToken(IsHex, afterName);
    var tail := TakenIsPayload(TakeToken(IsHex, afterName).rest);
    assert Spells(text, f, gap, middle, tail);
  }

  /** The parser finds the fields of a line exactly when it has some, and then there is
      only one way to read it. */
  lemma FieldsIff(text: string, f: Fields)
    ensures TakeFields(text).Matched? && TakeFields(text).value == f <==> Spelled(text, f)
  {
    if TakeFields(text).Matched? { TakenIsSpelled(text); }
    if Spelled(text, f) {
      var gap, middle, tail :| Spells(text, f, gap, middle, tail);
      SpelledIsTaken(text, f, gap, middle, tail);
    }
  }

  /** What becomes of a line: comments and empty lines are passed over, a line that spells
      no fields is invalid, and one that does is out of range, has a bad payload or is the
      record its fields say. */
  lemma LineIs(left: string, text: string, right: string)
    requires All(IsSpace, left) && All(IsSpace, right) && SolidEnds(text)
    ensures var outcome := CandumpCodec.ParseLine(left + text + right);
      && (outcome.Ignored? <==> text == [] || text[0] == ';')
      && (outcome.InvalidLine? <==> text != [] && text[0] != ';' && forall f :: !Spelled(text, f))
      && (forall f :: Spelled(text, f) ==> outcome == Meant(f))
  {
    TrimIs(left, text, right);
    var taken := TakeFields(text);
    if taken.Matched? {
      TakenIsSpelled(text);
      StartsWithBracket(text);
      Meaning(taken.value);
    }
    forall f | Spelled(text, f) ensures taken.Matched? && taken.value == f { FieldsIff(text, f); }
  }

  lemma StartsWithBracket(text: string)
    requires TakeFields(text).Matched?
    ensures text != [] && text[0] == '('
  {
  }

  /** What fields mean. */
  ghost function Meant(f: Fields): CandumpCodec.Outcome {
    if !ValidFields(f) then CandumpCodec.InvalidLine
    else if DecimalValue(f.stamp.seconds) >= 0x8000_0000_0000_0000 || HexValue(f.id) >= 0x2000_0000 then OutOfRange
    else if |f.payload| % 2 == 1 || |f.payload| >= 18 then BadPayload
    else
      var id := HexValue(f.id);
      var time := 1_000_000_000 * DecimalValue(f.stamp.seconds)
        + DecimalValue(f.stamp.fraction) * PowerOfTen(9 - |f.stamp.fraction|);
      CandumpCodec.Parsed(CandumpCodec.Record(CanFrame(id, FromHex(f.payload), id >= 0x800), time, f.interfaceName))
  }

  lemma Meaning(f: Fields)
    requires ValidFields(f)
    ensures Interpret(f) == Meant(f)
  {
    FractionIsDecimal(f.stamp);
  }

  // ---- VN300 captures --------------------------------------------------------

  ghost predicate PacketSpells(text: string, stamp: Stamp, hex: string, gap: string, tail: string) {
    && ValidStamp(stamp) && hex != [] && All(IsHex, hex) && gap != [] && All(IsSpace, gap) && All(IsSpace, tail)
    && text == StampText(stamp) + (gap + (hex + tail))
  }

  ghost predicate PacketSpelled(text: string, stamp: Stamp, hex: string) {
    exists gap, tail :: PacketSpells(text, stamp, hex, gap, tail)
  }

  lemma PacketIsTaken(text: string, stamp: Stamp, hex: string, gap: string, tail: string)
    requires PacketSpells(text, stamp, hex, gap, tail)
    ensures Vn300LogCodec.TakeFields(text) == Matched((stamp, hex), [])
  {
    StampIsTaken(stamp, gap + (hex + tail));
    TokenIsTaken(IsHex, gap, hex, tail);
    RunOf(IsSpace, tail, []);
    assert tail + [] == tail;
  }

  lemma TakenIsPacket(text: string)
    requires Vn300LogCodec.TakeFields(text).Matched?
    ensures var (stamp, hex) := Vn300LogCodec.TakeFields(text).value;
      PacketSpelled(text, stamp, hex)
  {
    var (stamp, hex) := Vn300LogCodec.TakeFields(text).value;
    var afterStamp := TakeStamp(text).rest;
    TakenIsStamp(text);
    var gap := TakenIsToken(IsHex, afterStamp);
    assert PacketSpells(text, stamp, hex, gap, TakeToken(IsHex, afterStamp).rest);
  }

  ghost function PacketMeant(stamp: Stamp, hex: string): Vn300LogCodec.Outcome {
    if !ValidStamp(stamp) || !All(IsHex, hex) || |hex| < 2 || |hex| % 2 == 1
       || DecimalValue(stamp.seconds) >= 0x8000_0000_0000_0000
       || !(hex[0] in "fF" && hex[1] in "aA")
    then Vn300LogCodec.InvalidRecord
    else
      var time := 1_000_000_000 * DecimalValue(stamp.seconds)
        + DecimalValue(stamp.fraction) * PowerOfTen(9 - |stamp.fraction|);
      Vn300LogCodec.Parsed(Vn300LogCodec.Record(FromHex(hex), time))
  }

  /** The same for the lines of a VN300 capture, whose packets begin with FA. */
  lemma PacketLineIs(left: string, text: string, right: string)
    requires All(IsSpace, left) && All(IsSpace, right) && SolidEnds(text)
    ensures var outcome := Vn300LogCodec.ParseLine(left + text + right);
      && (outcome.Ignored? <==> text == [] || text[0] == ';')
      && (outcome.InvalidLine? <==> text != [] && text[0] != ';' && forall s, h :: !PacketSpelled(text, s, h))
      && (forall s, h :: PacketSpelled(text, s, h) ==> outcome == PacketMeant(s, h))
  {
    TrimIs(left, text, right);
    var taken := Vn300LogCodec.TakeFields(text);
    if taken.Matched? {
      TakenIsPacket(text);
      assert text[0] == '(';
      PacketMeaning(taken.value.0, taken.value.1);
    }
    forall s, h | PacketSpelled(text, s, h) ensures taken.Matched? && taken.value == (s, h) {
      var gap, tail :| PacketSpells(text, s, h, gap, tail);
      PacketIsTaken(text, s, h, gap, tail);
    }
  }

  lemma PacketMeaning(stamp: Stamp, hex: string)
    requires ValidStamp(stamp) && hex != [] && All(IsHex, hex)
    ensures PacketMeant(stamp, hex) ==
      if !SecondsFit(stamp) || |hex| % 2 != 0 || FromHex(hex)[0] != Vn300LogCodec.SYNC then Vn300LogCodec.InvalidRecord
      else Vn300LogCodec.Parsed(Vn300LogCodec.Record(FromHex(hex), TimeOf(stamp)))
  {
    FractionIsDecimal(stamp);
    if |hex| % 2 == 0 { FirstByteIs(hex); }
  }

  lemma FirstByteIs(hex: string)
    requires |hex| >= 2 && |hex| % 2 == 0 && All(IsHex, hex)
    ensures FromHex(hex)[0] == 0xFA <==> hex[0] in "fF" && hex[1] in "aA"
  {
    ByteIs(hex, 0);
    DigitIs(hex[0], 15);
    DigitIs(hex[1], 10);
  }
}
