/** Lines of a candump capture. */
module CandumpCodec {
  import opened CaptureText

  const LARGEST_ID := 0x1FFF_FFFF
  const LARGEST_STANDARD_ID := 0x7FF

  datatype CanFrame = CanFrame(id: nat, payload: seq<Octet>, extendedFormat: bool)

  datatype Record = Record(frame: CanFrame, timestampNs: nat, interfaceName: string)

  /** The groups of a line that matches. */
  datatype Fields = Fields(stamp: Stamp, interfaceName: string, id: string, payload: string)

  datatype Outcome = Ignored | InvalidLine | OutOfRange | BadPayload | Parsed(record: Record)

  // ---- Parsing ---------------------------------------------------------------

  /** At least one white space, then a longest run of at least one character. */
  function TakeToken(p: char -> bool, s: string): (r: Matched<string>)
    ensures r.Matched? ==> r.value != [] && All(p, r.value)
  {
    var gap := Run(IsSpace, s);
    var rest := s[gap..];
    var n := Run(p, rest);
    if gap == 0 || n == 0 then NoMatch else Matched(rest[..n], rest[n..])
  }

  /** `#`, the payload digits and nothing but white space after them. */
  function TakePayload(s: string): (r: Matched<string>)
    ensures r.Matched? ==> All(IsHex, r.value)
  {
    if s == [] || s[0] != '#' then NoMatch
    else
      var n := Run(IsHex, s[1..]);
      var rest := s[1..][n..];
      if Run(IsSpace, rest) < |rest| then NoMatch else Matched(s[1..][..n], [])
  }

  /** White space, the identifier and the payload. */
  function TakeFrame(s: string): (r: Matched<(string, string)>)
    ensures r.Matched? ==> r.value.0 != [] && All(IsHex, r.value.0) && All(IsHex, r.value.1)
  {
    match TakeToken(IsHex, s)
    case NoMatch => NoMatch
    case Matched(id, afterId) =>
      match TakePayload(afterId)
      case NoMatch => NoMatch
      case Matched(payload, rest) => Matched((id, payload), rest)
  }

  function TakeFields(s: string): (r: Matched<Fields>)
    ensures r.Matched? ==> ValidFields(r.value)
  {
    match TakeStamp(s)
    case NoMatch => NoMatch
    case Matched(stamp, afterStamp) =>
      match TakeToken(IsSolid, afterStamp)
      case NoMatch => NoMatch
      case Matched(name, afterName) =>
        match TakeFrame(afterName)
        case NoMatch => NoMatch
        case Matched((id, payload), rest) => Matched(Fields(stamp, name, id, payload), rest)
  }

  ghost predicate ValidFields(f: Fields) {
    && ValidStamp(f.stamp) && f.interfaceName != [] && All(IsSolid, f.interfaceName)
    && f.id != [] && All(IsHex, f.id) && All(IsHex, f.payload)
  }

  function Interpret(f: Fields): Outcome
    requires ValidFields(f)
  {
    if !SecondsFit(f.stamp) || HexValue(f.id) > LARGEST_ID then OutOfRange
    else if |f.payload| % 2 != 0 || |f.payload| > 16 then BadPayload
    else
      var id := HexValue(f.id);
      Parsed(Record(CanFrame(id, FromHex(f.payload), id > LARGEST_STANDARD_ID), TimeOf(f.stamp), f.interfaceName))
  }

  function Read(m: Matched<Fields>): Outcome
    requires m.Matched? ==> ValidFields(m.value)
  {
    if m.NoMatch? then InvalidLine else Interpret(m.value)
  }

  function ParseLine(line: string): Outcome {
    var text := Trim(line);
    if text == [] || text[0] == ';' then Ignored else Read(TakeFields(text))
  }

  // ---- Formatting ------------------------------------------------------------

  function IdText(r: Record): string { Padded(Hex(r.frame.id), if r.frame.extendedFormat then 8 else 3) }

  function FormatLine(r: Record): string {
    var name := if r.interfaceName == [] then "can0" else r.interfaceName;
    FormatStamp(r.timestampNs) + (" " + name + (" " + IdText(r) + ("#" + ToHex(r.frame.payload))))
  }

  // ---- Round trips -----------------------------------------------------------

  /** What a capture line can carry. */
  ghost predicate Recordable(r: Record) {
    && r.interfaceName != [] && All(IsSolid, r.interfaceName) && '%' !in r.interfaceName
    && r.frame.id <= LARGEST_ID && r.frame.extendedFormat == (r.frame.id > LARGEST_STANDARD_ID)
    && |r.frame.payload| <= 8
    && r.timestampNs / NS_PER_SECOND <= LARGEST_SECONDS
  }

  lemma IdTextBack(r: Record)
    ensures IdText(r) != [] && All(IsHex, IdText(r)) && HexValue(IdText(r)) == r.frame.id
  {
    HexBack(r.frame.id);
    var hex, width := Hex(r.frame.id), if r.frame.extendedFormat then 8 else 3;
    if |hex| < width { HexZeros(width - |hex|, hex); }
  }

  lemma TakeTokenOf(p: char -> bool, token: string, rest: string)
    requires token != [] && All(p, token) && !IsSpace(token[0]) && (rest != [] ==> !p(rest[0]))
    ensures TakeToken(p, " " + token + rest) == Matched(token, rest)
  {
    var s := " " + token + rest;
    assert s == " " + (token + rest);
    RunOf(IsSpace, " ", token + rest);
    RunOf(p, token, rest);
  }

  lemma SolidHex(s: string)
    requires All(IsHex, s)
    ensures forall i :: 0 <= i < |s| ==> !IsSpace(s[i])
  {
  }

  lemma TakeFrameBack(id: string, payload: string)
    requires id != [] && All(IsHex, id) && All(IsHex, payload)
    ensures TakeFrame(" " + id + ("#" + payload)) == Matched((id, payload), [])
  {
    var afterId := "#" + payload;
    SolidHex(id);
    TakeTokenOf(IsHex, id, afterId);
    assert afterId[1..] == payload + [];
    RunOf(IsHex, payload, []);
  }

  lemma TakeFieldsBack(stamp: nat, name: string, id: string, payload: string)
    requires name != [] && All(IsSolid, name) && id != [] && All(IsHex, id) && All(IsHex, payload)
    ensures var line := FormatStamp(stamp) + (" " + name + (" " + id + ("#" + payload)));
      TakeFields(line) == Matched(Fields(StampOf(stamp), name, id, payload), [])
  {
    var afterName := " " + id + ("#" + payload);
    TakeStampBack(stamp, " " + name + afterName);
    TakeTokenOf(IsSolid, name, afterName);
    TakeFrameBack(id, payload);
  }

  lemma LastOf(a: string, b: string)
    requires b != []
    ensures a + b != [] && (a + b)[|a + b| - 1] == b[|b| - 1]
  {
  }

  lemma EndsSolid(stamp: string, name: string, id: string, payload: string)
    requires All(IsHex, payload)
    ensures var line := stamp + (" " + name + (" " + id + ("#" + payload)));
      line != [] && !IsSpace(line[|line| - 1])
  {
    var end := "#" + payload;
    LastOf(" " + id, end);
    LastOf(" " + name, " " + id + end);
    LastOf(stamp, " " + name + (" " + id + end));
    if payload != [] { LastOf("#", payload); }
  }

  lemma FormattedIsTrim(r: Record)
    ensures Trim(FormatLine(r)) == FormatLine(r) && FormatLine(r) != [] && FormatLine(r)[0] == '('
  {
    HexBytesBack(r.frame.payload);
    var name := if r.interfaceName == [] then "can0" else r.interfaceName;
    EndsSolid(FormatStamp(r.timestampNs), name, IdText(r), ToHex(r.frame.payload));
    StartsOpen(r);
    TrimNothing(FormatLine(r));
  }

  lemma StartsOpen(r: Record)
    ensures FormatLine(r) != [] && FormatLine(r)[0] == '('
  {
  }

  function FieldsOf(r: Record): Fields {
    Fields(StampOf(r.timestampNs), r.interfaceName, IdText(r), ToHex(r.frame.payload))
  }

  lemma FieldsBack(r: Record)
    requires Recordable(r)
    ensures TakeFields(FormatLine(r)) == Matched(FieldsOf(r), [])
  {
    IdTextBack(r);
    HexBytesBack(r.frame.payload);
    TakeFieldsBack(r.timestampNs, r.interfaceName, IdText(r), ToHex(r.frame.payload));
  }

  lemma InterpretBack(r: Record)
    requires Recordable(r)
    ensures ValidFields(FieldsOf(r)) && Interpret(FieldsOf(r)) == Parsed(r)
  {
    IdTextBack(r);
    HexBytesBack(r.frame.payload);
    StampBack(r.timestampNs);
  }

  /** Every recordable frame is read back as it was written. */
  lemma RoundTrip(r: Record)
    requires Recordable(r)
    ensures ParseLine(FormatLine(r)) == Parsed(r)
  {
    FormattedIsTrim(r);
    FieldsBack(r);
    InterpretBack(r);
  }

  /** A frame without an interface name is written, and so read back, as "can0". */
  lemma NamelessIsCan0(r: Record)
    requires r.interfaceName == [] && Recordable(r.(interfaceName := "can0"))
    ensures ParseLine(FormatLine(r)) == Parsed(r.(interfaceName := "can0"))
  {
    RoundTrip(r.(interfaceName := "can0"));
  }

  /** The layout of a line: nine digits of fraction, the identifier in three lower-case
      digits or eight, and two upper-case digits for each byte. */
  ghost predicate LaidOut(line: string, r: Record, stamp: Stamp, id: string, payload: string) {
    && line == "(" + stamp.seconds + "." + stamp.fraction + ")"
               + (" " + r.interfaceName + (" " + id + ("#" + payload)))
    && All(IsDecimal, stamp.seconds) && All(IsDecimal, stamp.fraction) && |stamp.fraction| == 9
    && All(IsLowerHex, id) && |id| == (if r.frame.id > 0x7FF then 8 else 3)
    && All(IsUpperHex, payload) && |payload| == 2 * |r.frame.payload|
  }

  /** Every recordable frame is written like that. */
  lemma LineLayout(r: Record)
    requires Recordable(r)
    ensures exists stamp, id, payload :: LaidOut(FormatLine(r), r, stamp, id, payload)
  {
    IdWidth(r);
    BytesInUpperHex(r.frame.payload);
    NineDigits(r.timestampNs);
    LineIsParts(r, StampOf(r.timestampNs));
    assert LaidOut(FormatLine(r), r, StampOf(r.timestampNs), IdText(r), ToHex(r.frame.payload));
  }

  lemma LineIsParts(r: Record, stamp: Stamp)
    requires Recordable(r) && stamp == StampOf(r.timestampNs)
    ensures FormatLine(r) == "(" + stamp.seconds + "." + stamp.fraction + ")"
                             + (" " + r.interfaceName + (" " + IdText(r) + ("#" + ToHex(r.frame.payload))))
  {
  }

  lemma NineDigits(timestampNs: nat)
    ensures |StampOf(timestampNs).fraction| == 9
    ensures All(IsDecimal, StampOf(timestampNs).seconds) && All(IsDecimal, StampOf(timestampNs).fraction)
  {
    NanosecondsBack(timestampNs % NS_PER_SECOND);
    DecimalBack(timestampNs / NS_PER_SECOND);
  }

  lemma IdWidth(r: Record)
    requires Recordable(r)
    ensures |IdText(r)| == (if r.frame.id > 0x7FF then 8 else 3) && All(IsLowerHex, IdText(r))
  {
    assert PowerOfSixteen(3) == 0x1000 && PowerOfSixteen(8) == 0x1_0000_0000 by {
      assert PowerOfSixteen(2) == 16 * PowerOfSixteen(1) && PowerOfSixteen(4) == 16 * PowerOfSixteen(3);
      assert PowerOfSixteen(6) == 16 * PowerOfSixteen(5) && PowerOfSixteen(7) == 16 * PowerOfSixteen(6);
    }
    HexIsShort(r.frame.id, if r.frame.id > 0x7FF then 8 else 3);
  }

  lemma ParsedIsRecordable(line: string)
    requires ParseLine(line).Parsed? && '%' !in ParseLine(line).record.interfaceName
    ensures Recordable(ParseLine(line).record)
  {
    var fields := TakeFields(Trim(line)).value;
    SecondsOfTime(fields.stamp);
  }

  /** The fraction never carries into the seconds. */
  lemma SecondsOfTime(s: Stamp)
    requires ValidStamp(s)
    ensures TimeOf(s) / NS_PER_SECOND == DecimalValue(s.seconds)
  {
    NanosecondsAreFewer(s);
  }

  lemma NanosecondsAreFewer(s: Stamp)
    requires ValidStamp(s)
    ensures Nanoseconds(s) < NS_PER_SECOND
  {
    TenToTheNine();
    DecimalIsBounded(s.fraction + Zeros(9 - |s.fraction|));
  }

  lemma {:induction false} DecimalIsBounded(s: string)
    requires All(IsDecimal, s)
    ensures DecimalValue(s) < PowerOfTen(|s|)
  {
    if s != [] { DecimalIsBounded(s[..|s| - 1]); }
  }

  /** Formatting what was parsed gives a canonical line: it is read as the same record,
      and formatting that again changes nothing. */
  lemma FormattingIsCanonical(line: string)
    requires ParseLine(line).Parsed? && '%' !in ParseLine(line).record.interfaceName
    ensures var canonical := FormatLine(ParseLine(line).record);
      && ParseLine(canonical) == ParseLine(line)
      && FormatLine(ParseLine(canonical).record) == canonical
  {
    ParsedIsRecordable(line);
    RoundTrip(ParseLine(line).record);
  }
}
