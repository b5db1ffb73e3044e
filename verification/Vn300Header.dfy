/** The variable-length packet header: group bytes, then type words for the
    active groups, each list continued by the top bit of its last element. */
module Vn300Header {
  import opened Bits
  import opened Vn300Layout

  const MAXIMUM_PACKET_SIZE := 1024

  /** `size` counts the header bytes including the sync byte. */
  datatype Header = Header(size: nat, common: Bits, attitude: Bits)
  {
    function Layout(): seq<Field> {
      LayoutFrom(Types(Common), common, 0) + LayoutFrom(Types(Attitude), attitude, 0)
    }
  }

  datatype Verdict = Incomplete | Invalid | Complete(header: Header, payloadSize: nat)

  /** What reading a list of bytes or words gave: its bits and the next cursor. */
  datatype ListRead = Short | Overlong | Read(bits: Bits, cursor: nat)

  function ReadGroups(data: seq<Byte>, cursor: nat, index: nat, groups: Bits): ListRead
    requires index <= 4
    decreases 4 - index
  {
    if cursor >= |data| then Short
    else if index >= 4 then Overlong
    else if data[cursor][7] then ReadGroups(data, cursor + 1, index + 1, groups + data[cursor][..7])
    else Read(groups + data[cursor][..7], cursor + 1)
  }

  function ReadTypes(data: seq<Byte>, cursor: nat, index: nat, mask: Bits): ListRead
    requires index <= 2
    decreases 2 - index
  {
    if cursor + 2 > |data| then Short
    else if index >= 2 then Overlong
    else
      var word := LittleEndian(data[cursor], data[cursor + 1]);
      if word[15] then ReadTypes(data, cursor + 2, index + 1, mask + word[..15])
      else Read(mask + word[..15], cursor + 2)
  }

  /** The type words of the active groups from `group` on. */
  function ReadMasks(data: seq<Byte>, cursor: nat, groups: Bits, group: nat, common: Bits, attitude: Bits): Verdict
    decreases 28 - group
  {
    if group >= 28 then Judge(cursor, common, attitude)
    else if !Selected(groups, group) then ReadMasks(data, cursor, groups, group + 1, common, attitude)
    else if group != 0 && group != 4 then Invalid
    else
      match ReadTypes(data, cursor, 0, [])
      case Short => Incomplete
      case Overlong => Invalid
      case Read(mask, next) =>
        if group == 0 then ReadMasks(data, next, groups, group + 1, mask, attitude)
        else ReadMasks(data, next, groups, group + 1, common, mask)
  }

  /** The verdict on a header whose masks are known. */
  function Judge(cursor: nat, common: Bits, attitude: Bits): Verdict {
    var c, a := PayloadFrom(Common, common, 0), PayloadFrom(Attitude, attitude, 0);
    if c < 0 || a < 0 then Invalid
    else if c + a == 0 || cursor + (c + a) + 2 > MAXIMUM_PACKET_SIZE then Invalid
    else Complete(Header(cursor, common, attitude), c + a)
  }

  function ParseHeader(data: seq<Byte>): Verdict {
    match ReadGroups(data, 1, 0, [])
    case Short => Incomplete
    case Overlong => Invalid
    case Read(groups, cursor) => ReadMasks(data, cursor, groups, 0, [], [])
  }

  // ---- More bytes never change a verdict -------------------------------------

  lemma {:induction false} GroupsStable(data: seq<Byte>, more: seq<Byte>, cursor: nat, index: nat, groups: Bits)
    requires index <= 4
    requires !ReadGroups(data, cursor, index, groups).Short?
    ensures ReadGroups(data + more, cursor, index, groups) == ReadGroups(data, cursor, index, groups)
    decreases 4 - index
  {
    if index < 4 && data[cursor][7] {
      GroupsStable(data, more, cursor + 1, index + 1, groups + data[cursor][..7]);
    }
  }

  lemma {:induction false} TypesStable(data: seq<Byte>, more: seq<Byte>, cursor: nat, index: nat, mask: Bits)
    requires index <= 2
    requires !ReadTypes(data, cursor, index, mask).Short?
    ensures ReadTypes(data + more, cursor, index, mask) == ReadTypes(data, cursor, index, mask)
    decreases 2 - index
  {
    if index < 2 {
      var word := LittleEndian(data[cursor], data[cursor + 1]);
      if word[15] {
        TypesStable(data, more, cursor + 2, index + 1, mask + word[..15]);
      }
    }
  }

  lemma {:induction false} MasksStable(
    data: seq<Byte>, more: seq<Byte>, cursor: nat, groups: Bits, group: nat, common: Bits, attitude: Bits)
    requires !ReadMasks(data, cursor, groups, group, common, attitude).Incomplete?
    ensures ReadMasks(data + more, cursor, groups, group, common, attitude)
         == ReadMasks(data, cursor, groups, group, common, attitude)
    decreases 28 - group
  {
    if group < 28 {
      if !Selected(groups, group) {
        MasksStable(data, more, cursor, groups, group + 1, common, attitude);
      } else if group == 0 || group == 4 {
        TypesStable(data, more, cursor, 0, []);
        var types := ReadTypes(data, cursor, 0, []);
        if types.Read? {
          if group == 0 {
            MasksStable(data, more, types.cursor, groups, group + 1, types.bits, attitude);
          } else {
            MasksStable(data, more, types.cursor, groups, group + 1, common, types.bits);
          }
        }
      }
    }
  }

  /** A Complete or Invalid verdict survives every continuation of the stream. */
  lemma VerdictIsStable(data: seq<Byte>, more: seq<Byte>)
    requires !ParseHeader(data).Incomplete?
    ensures ParseHeader(data + more) == ParseHeader(data)
  {
    GroupsStable(data, more, 1, 0, []);
    var groups := ReadGroups(data, 1, 0, []);
    if groups.Read? {
      MasksStable(data, more, groups.cursor, groups.bits, 0, [], []);
    }
  }

  // ---- Bounds ----------------------------------------------------------------

  lemma {:induction false} GroupsBound(data: seq<Byte>, cursor: nat, index: nat, groups: Bits)
    requires index <= 4 && cursor == index + 1
    ensures var r := ReadGroups(data, cursor, index, groups);
      && (r.Short? ==> |data| < 6)
      && (r.Read? ==> cursor < r.cursor <= 5 && r.cursor <= |data|)
    decreases 4 - index
  {
    if index < 4 && cursor < |data| && data[cursor][7] {
      GroupsBound(data, cursor + 1, index + 1, groups + data[cursor][..7]);
    }
  }

  lemma TypesBound(data: seq<Byte>, cursor: nat)
    ensures var r := ReadTypes(data, cursor, 0, []);
      && (r.Short? ==> |data| < cursor + 6)
      && (r.Read? ==> cursor + 2 <= r.cursor <= cursor + 4 && r.cursor <= |data| && |r.bits| <= 30)
  {
    if cursor + 2 <= |data| {
      var word := LittleEndian(data[cursor], data[cursor + 1]);
      if word[15] && cursor + 4 <= |data| {
        var mask := [] + word[..15];
        assert ReadTypes(data, cursor, 0, []) == ReadTypes(data, cursor + 2, 1, mask);
      }
    }
  }

  lemma {:induction false} MasksBound(
    data: seq<Byte>, cursor: nat, groups: Bits, group: nat, common: Bits, attitude: Bits)
    requires cursor <= |data|
    requires cursor <= if group <= 0 then 5 else if group <= 4 then 9 else 13
    ensures var v := ReadMasks(data, cursor, groups, group, common, attitude);
      && (v.Incomplete? ==> |data| < 15)
      && (v.Complete? ==> cursor <= v.header.size <= 13 && v.header.size <= |data|)
      && (v.Complete? ==> v == Judge(v.header.size, v.header.common, v.header.attitude))
    decreases 28 - group
  {
    if group < 28 {
      if !Selected(groups, group) {
        MasksBound(data, cursor, groups, group + 1, common, attitude);
      } else if group == 0 || group == 4 {
        TypesBound(data, cursor);
        var types := ReadTypes(data, cursor, 0, []);
        if types.Read? {
          if group == 0 {
            MasksBound(data, types.cursor, groups, group + 1, types.bits, attitude);
          } else {
            MasksBound(data, types.cursor, groups, group + 1, common, types.bits);
          }
        }
      }
    }
  }

  /** Fifteen bytes always decide the header; an accepted header has at most 13
      bytes and announces a payload of 1 to 338 bytes, so a packet never has
      more than 353 bytes; the layout it selects fills the payload exactly. */
  lemma HeaderBounds(data: seq<Byte>)
    ensures ParseHeader(data).Incomplete? ==> |data| < 15
    ensures ParseHeader(data).Complete? ==>
      var v := ParseHeader(data);
      && 2 <= v.header.size <= 13 && v.header.size <= |data|
      && 1 <= v.payloadSize <= 338
      && Width(v.header.Layout()) == v.payloadSize
  {
    GroupsBound(data, 1, 0, []);
    var groups := ReadGroups(data, 1, 0, []);
    if groups.Read? {
      MasksBound(data, groups.cursor, groups.bits, 0, [], []);
      var v := ParseHeader(data);
      if v.Complete? {
        PayloadIsBounded(Common, v.header.common, 0);
        PayloadIsBounded(Attitude, v.header.attitude, 0);
        LayoutFillsPayload(Common, v.header.common, 0);
        LayoutFillsPayload(Attitude, v.header.attitude, 0);
        WidthConcat(LayoutFrom(Types(Common), v.header.common, 0), LayoutFrom(Types(Attitude), v.header.attitude, 0));
      }
    }
  }

  /** The size guard is dead code: without it every header gets the same verdict. */
  lemma SizeGuardNeverFires(cursor: nat, common: Bits, attitude: Bits)
    requires cursor <= 13
    requires PayloadFrom(Common, common, 0) >= 0 && PayloadFrom(Attitude, attitude, 0) >= 0
    ensures Judge(cursor, common, attitude).Invalid?
       <==> PayloadFrom(Common, common, 0) + PayloadFrom(Attitude, attitude, 0) == 0
  {
    PayloadIsBounded(Common, common, 0);
    PayloadIsBounded(Attitude, attitude, 0);
  }

  // ---- The parser's loops ----------------------------------------------------

  method ReadGroupBytes(data: seq<Byte>) returns (r: ListRead)
    ensures r == ReadGroups(data, 1, 0, [])
  {
    var cursor: nat, index: nat, groups: Bits, extension := 1, 0, [], true;
    while extension
      invariant index <= 4
      invariant extension ==> ReadGroups(data, 1, 0, []) == ReadGroups(data, cursor, index, groups)
      invariant !extension ==> ReadGroups(data, 1, 0, []) == Read(groups, cursor)
      decreases 4 - index, extension
    {
      if cursor >= |data| { return Short; }
      if index >= 4 { return Overlong; }
      var byte := data[cursor];
      cursor := cursor + 1;
      extension := byte[7];
      groups := groups + byte[..7];
      index := index + 1;
    }
    return Read(groups, cursor);
  }

  method ReadTypeWords(data: seq<Byte>, start: nat) returns (r: ListRead)
    ensures r == ReadTypes(data, start, 0, [])
  {
    var cursor: nat, index: nat, mask: Bits, extension := start, 0, [], true;
    while extension
      invariant index <= 2
      invariant extension ==> ReadTypes(data, start, 0, []) == ReadTypes(data, cursor, index, mask)
      invariant !extension ==> ReadTypes(data, start, 0, []) == Read(mask, cursor)
      decreases 2 - index, extension
    {
      if cursor + 2 > |data| { return Short; }
      if index >= 2 { return Overlong; }
      var word := LittleEndian(data[cursor], data[cursor + 1]);
      cursor := cursor + 2;
      extension := word[15];
      mask := mask + word[..15];
      index := index + 1;
    }
    return Read(mask, cursor);
  }

  method SumTypeSizes(group: Group, mask: Bits) returns (total: int)
    ensures total == PayloadFrom(group, mask, 0)
  {
    total := 0;
    for bit := 0 to 30
      invariant total >= 0
      invariant PayloadFrom(group, mask, 0) ==
        if PayloadFrom(group, mask, bit) < 0 then -1 else total + PayloadFrom(group, mask, bit)
    {
      if Selected(mask, bit) {
        var size := TypeSize(group, bit);
        if size < 0 { return -1; }
        total := total + size;
      }
    }
  }

  method DecideHeader(data: seq<Byte>) returns (v: Verdict)
    ensures v == ParseHeader(data)
  {
    var read := ReadGroupBytes(data);
    if read.Short? { return Incomplete; }
    if read.Overlong? { return Invalid; }
    var groups, cursor: nat := read.bits, read.cursor;
    var common: Bits, attitude: Bits := [], [];
    for group := 0 to 28
      invariant ParseHeader(data) == ReadMasks(data, cursor, groups, group, common, attitude)
    {
      if Selected(groups, group) {
        if group != 0 && group != 4 { return Invalid; }
        var types := ReadTypeWords(data, cursor);
        if types.Short? { return Incomplete; }
        if types.Overlong? { return Invalid; }
        cursor := types.cursor;
        if group == 0 { common := types.bits; } else { attitude := types.bits; }
      }
    }
    var c := SumTypeSizes(Common, common);
    if c < 0 { return Invalid; }
    var a := SumTypeSizes(Attitude, attitude);
    if a < 0 { return Invalid; }
    if c + a == 0 || cursor + (c + a) + 2 > MAXIMUM_PACKET_SIZE { return Invalid; }
    return Complete(Header(cursor, common, attitude), c + a);
  }
}
