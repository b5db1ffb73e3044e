/** Lines of a VN300 capture. */
module Vn300LogCodec {
  import opened CaptureText
  import CandumpCodec

  const SYNC := 0xFA

  datatype Record = Record(packet: seq<Octet>, timestampNs: nat)

  datatype Outcome = Ignored | InvalidLine | InvalidRecord | Parsed(record: Record)

  function TakeFields(s: string): (r: Matched<(Stamp, string)>)
    ensures r.Matched? ==> ValidStamp(r.value.0) && r.value.1 != [] && All(IsHex, r.value.1)
  {
    match TakeStamp(s)
    case NoMatch => NoMatch
    case Matched(stamp, afterStamp) =>
      match CandumpCodec.TakeToken(IsHex, afterStamp)
      case NoMatch => NoMatch
      case Matched(hex, rest) => if Run(IsSpace, rest) < |rest| then NoMatch else Matched((stamp, hex), [])
  }

  function ParseLine(line: string): Outcome {
    var text := Trim(line);
    if text == [] || text[0] == ';' then Ignored
    else
      match TakeFields(text)
      case NoMatch => InvalidLine
      case Matched((stamp, hex), _) =>
        if !SecondsFit(stamp) || |hex| % 2 != 0 || FromHex(hex)[0] != SYNC then InvalidRecord
        else Parsed(Record(FromHex(hex), TimeOf(stamp)))
  }

  function FormatLine(r: Record): string {
    FormatStamp(r.timestampNs) + " " + ToHex(r.packet)
  }

  /** A packet that begins with the sync byte. */
  ghost predicate Recordable(r: Record) {
    r.packet != [] && r.packet[0] == SYNC && r.timestampNs / NS_PER_SECOND <= LARGEST_SECONDS
  }

  lemma TakeFieldsBack(stamp: nat, hex: string)
    requires hex != [] && All(IsHex, hex)
    ensures TakeFields(FormatStamp(stamp) + (" " + hex + [])) == Matched((StampOf(stamp), hex), [])
  {
    TakeStampBack(stamp, " " + hex + []);
    CandumpCodec.SolidHex(hex);
    CandumpCodec.TakeTokenOf(IsHex, hex, []);
  }

  /** Every packet that begins with the sync byte is read back as it was written. */
  lemma RoundTrip(r: Record)
    requires Recordable(r)
    ensures ParseLine(FormatLine(r)) == Parsed(r)
  {
    HexBytesBack(r.packet);
    StampBack(r.timestampNs);
    var hex := ToHex(r.packet);
    var line := FormatLine(r);
    assert line == FormatStamp(r.timestampNs) + (" " + hex + []);
    TakeFieldsBack(r.timestampNs, hex);
    assert line[0] == '(' && line[|line| - 1] == hex[|hex| - 1];
    CandumpCodec.SolidHex(hex);
    TrimNothing(line);
  }

  lemma ParsedIsRecordable(line: string)
    requires ParseLine(line).Parsed?
    ensures Recordable(ParseLine(line).record)
  {
    CandumpCodec.SecondsOfTime(TakeFields(Trim(line)).value.0);
  }

  /** Formatting what was parsed gives a canonical line. */
  lemma FormattingIsCanonical(line: string)
    requires ParseLine(line).Parsed?
    ensures var canonical := FormatLine(ParseLine(line).record);
      && ParseLine(canonical) == ParseLine(line)
      && FormatLine(ParseLine(canonical).record) == canonical
  {
    ParsedIsRecordable(line);
    RoundTrip(ParseLine(line).record);
  }
}
