/** The ACARS block parser: a pure fixed-offset field extractor over an assembled block.

    Layout of a block of length n (offsets into the decoder's buffer):
      0 mode | 1..7 aircraft address | 8 technical ack | 9..10 label | 11 block id |
      12 start of text (optional) | downlink: 13..16 message sequence number, 17..22 flight id,
      23.. text | uplink: 13.. text | n-1 suffix (ETX or ETB). */
module BlockParser {
  import opened Ascii

  /** The decoded block. An absent optional field is the empty sequence. */
  datatype AcarsBlock = AcarsBlock(
    raw: seq<byte>,
    mode: byte,
    address: seq<byte>,
    ackId: byte,
    msgLabel: seq<byte>,
    blkId: byte,
    endOfPreamble: byte,
    text: seq<byte>,
    suffix: byte,
    isUplink: bool,
    isMultiblock: bool,
    msn: seq<byte>,
    flightId: seq<byte>,
    sublabel: seq<byte>)

  /** The label "H1", whose messages carry a sublabel. */
  const H1: seq<byte> := [0x48, 0x31]

  /** Block identifiers of ground-to-aircraft blocks. */
  predicate IsUplinkId(blkId: byte) {
    blkId >= 0x40 || blkId == NUL
  }

  /** The text: present only after a start of text, from offset 23 (downlink) or 13
      (uplink) up to the byte before the suffix, and only when the block is longer than 25
      or 15 bytes. */
  function TextField(b: seq<byte>, blockLen: int, endOfPreamble: byte, isUplink: bool): (t: seq<byte>)
    requires |b| >= 26 && 1 <= blockLen <= |b|
    ensures t != [] ==> endOfPreamble == STX && |t| >= 2
    ensures t != [] ==> blockLen - 1 - |t| == (if isUplink then 13 else 23)
    ensures t != [] ==> t == b[blockLen - 1 - |t|..blockLen - 1]
    ensures endOfPreamble == STX && !isUplink && blockLen > 25 ==> t == b[23..blockLen - 1]
    ensures endOfPreamble == STX && isUplink && blockLen > 15 ==> t == b[13..blockLen - 1]
  {
    if endOfPreamble != STX then []
    else if !isUplink then (if blockLen > 25 then b[23..blockLen - 1] else [])
    else (if blockLen > 15 then b[13..blockLen - 1] else [])
  }

  /** The downlink fields at offsets 13..16 (sequence number) and 17..22 (flight id), read
      only when a start of text follows a downlink block id. */
  function DownlinkFields(b: seq<byte>, endOfPreamble: byte, isUplink: bool): (r: (seq<byte>, seq<byte>))
    requires |b| >= 23
    ensures r.0 != [] <==> endOfPreamble == STX && !isUplink
    ensures r.0 != [] ==> r.0 == b[13..17] && r.1 == b[17..23]
    ensures r.0 == [] ==> r.1 == []
  {
    if endOfPreamble == STX && !isUplink then (b[13..17], b[17..23]) else ([], [])
  }

  /** The sublabel at offsets 24..25, read only for the label "H1". */
  function Sublabel(b: seq<byte>, msgLabel: seq<byte>): (r: seq<byte>)
    requires |b| >= 26
    ensures |r| == (if msgLabel == H1 then 2 else 0)
  {
    if msgLabel == H1 then b[24..26] else []
  }

  /** Extracts the fields of the block `b[..blockLen]`. The fixed offsets up to 25 are read
      whatever `blockLen` is, so the buffer must hold at least 26 bytes. */
  function Build(b: seq<byte>, blockLen: int): (r: AcarsBlock)
    requires |b| >= 26 && 1 <= blockLen <= |b|
    ensures r.raw == b && |r.address| == 7 && |r.msgLabel| == 2
    ensures r.msn != [] <==> r.endOfPreamble == STX && !r.isUplink
    ensures r.msn != [] ==> |r.msn| == 4 && |r.flightId| == 6
    ensures r.msn == [] ==> r.flightId == []
    ensures r.text != [] ==> r.endOfPreamble == STX && |r.text| >= 2
    ensures r.text != [] ==> blockLen - 1 - |r.text| == (if r.isUplink then 13 else 23)
    ensures r.text != [] ==> r.text == b[blockLen - 1 - |r.text|..blockLen - 1]
    ensures |r.sublabel| == (if r.msgLabel == H1 then 2 else 0)
  {
    var isUplink := IsUplinkId(b[11]);
    var suffix := b[blockLen - 1];
    var downlink := DownlinkFields(b, b[12], isUplink);
    AcarsBlock(
      raw := b,
      mode := b[0],
      address := b[1..8],
      ackId := b[8],
      msgLabel := b[9..11],
      blkId := b[11],
      endOfPreamble := b[12],
      text := TextField(b, blockLen, b[12], isUplink),
      suffix := suffix,
      isUplink := isUplink,
      isMultiblock := suffix == ETB,
      msn := downlink.0,
      flightId := downlink.1,
      sublabel := Sublabel(b, b[9..11]))
  }

  /** The direction flag depends on the block id alone, the multiblock flag on the suffix alone,
      and the sublabel on the label and offsets 24..25 alone, whatever the preamble and the
      direction. */
  lemma FlagsIndependent(b1: seq<byte>, n1: int, b2: seq<byte>, n2: int)
    requires |b1| >= 26 && 1 <= n1 <= |b1|
    requires |b2| >= 26 && 1 <= n2 <= |b2|
    ensures b1[11] == b2[11] ==> Build(b1, n1).isUplink == Build(b2, n2).isUplink
    ensures b1[n1 - 1] == b2[n2 - 1] ==> Build(b1, n1).isMultiblock == Build(b2, n2).isMultiblock
    ensures Build(b1, n1).isUplink <==> (b1[11] >= 0x40 || b1[11] == NUL)
    ensures Build(b1, n1).isMultiblock <==> b1[n1 - 1] == ETB
    ensures b1[9..11] == b2[9..11] && b1[24..26] == b2[24..26] ==> Build(b1, n1).sublabel == Build(b2, n2).sublabel
    ensures Build(b1, n1).sublabel == (if b1[9..11] == H1 then b1[24..26] else [])
  {
  }

  // ---------------------------------------------------------------------------------------
  // A sender's view of a block, used to state what the parser recovers.

  /** What follows the block id: nothing (the suffix sits at offset 12), or a start of text
      followed by the downlink or uplink fields. */
  datatype Body =
    | NoText
    | DownlinkText(msn: seq<byte>, flightId: seq<byte>, text: seq<byte>)
    | UplinkText(text: seq<byte>)

  datatype Message = Message(
    mode: byte,
    address: seq<byte>,
    ackId: byte,
    msgLabel: seq<byte>,
    blkId: byte,
    body: Body,
    suffix: byte)

  /** Field widths fixed by the layout; the direction of a body agrees with the block id. */
  predicate WellFormed(m: Message) {
    |m.address| == 7 && |m.msgLabel| == 2 && IsDelimiter(m.suffix) &&
    match m.body
    case NoText => true
    case DownlinkText(msn, flightId, _) => |msn| == 4 && |flightId| == 6 && !IsUplinkId(m.blkId)
    case UplinkText(_) => IsUplinkId(m.blkId)
  }

  function BodyBytes(body: Body): seq<byte> {
    match body
    case NoText => []
    case DownlinkText(msn, flightId, text) => [STX] + msn + flightId + text
    case UplinkText(text) => [STX] + text
  }

  /** The bytes of a block, suffix included, as they appear in the decoder's buffer. */
  function Encode(m: Message): (r: seq<byte>)
    requires WellFormed(m)
    ensures |r| == 13 + |BodyBytes(m.body)| && r[|r| - 1] == m.suffix
  {
    [m.mode] + m.address + [m.ackId] + m.msgLabel + [m.blkId] + BodyBytes(m.body) + [m.suffix]
  }

  function BodyText(body: Body): seq<byte> {
    match body
    case NoText => []
    case DownlinkText(_, _, text) => text
    case UplinkText(text) => text
  }

  /** The fixed fields and the flags of an encoded block, followed in the buffer by any bytes. */
  lemma BuildEncodeHeader(m: Message, tail: seq<byte>)
    requires WellFormed(m)
    requires |Encode(m) + tail| >= 26
    ensures var b := Encode(m) + tail;
            var r := Build(b, |Encode(m)|);
            r.raw == b &&
            r.mode == m.mode && r.address == m.address && r.ackId == m.ackId &&
            r.msgLabel == m.msgLabel && r.blkId == m.blkId && r.suffix == m.suffix &&
            r.isUplink == IsUplinkId(m.blkId) && r.isMultiblock == (m.suffix == ETB) &&
            r.sublabel == (if m.msgLabel == H1 then b[24..26] else [])
  {
    var e := Encode(m);
    var b := e + tail;
    var head := [m.mode] + m.address + [m.ackId] + m.msgLabel + [m.blkId];
    assert |head| == 12;
    assert e == head + BodyBytes(m.body) + [m.suffix];
    assert b[0] == m.mode && b[1..8] == m.address && b[8] == m.ackId;
    assert b[9..11] == m.msgLabel && b[11] == m.blkId;
    assert b[|e| - 1] == m.suffix;
  }

  /** Where the body of an encoded block sits: after the twelve header bytes. */
  lemma EncodeLayout(m: Message, tail: seq<byte>)
    requires WellFormed(m)
    ensures var b := Encode(m) + tail;
            b[11] == m.blkId && b[12..|Encode(m)| - 1] == BodyBytes(m.body) &&
            (m.body.NoText? ==> b[12] == m.suffix)
  {
    var e := Encode(m);
    var head := [m.mode] + m.address + [m.ackId] + m.msgLabel + [m.blkId];
    assert |head| == 12;
    assert e == head + BodyBytes(m.body) + [m.suffix];
  }

  /** A block without text: its preamble delimiter is the suffix, so no optional field is set. */
  lemma BuildEncodeNoText(m: Message, tail: seq<byte>)
    requires WellFormed(m) && m.body.NoText?
    requires |Encode(m) + tail| >= 26
    ensures var r := Build(Encode(m) + tail, |Encode(m)|);
            r.endOfPreamble == m.suffix && r.msn == [] && r.flightId == [] && r.text == []
  {
    EncodeLayout(m, tail);
  }

  /** A downlink block: sequence number, flight id, and the text when it has two bytes or more. */
  lemma BuildEncodeDownlink(m: Message, tail: seq<byte>)
    requires WellFormed(m) && m.body.DownlinkText?
    requires |Encode(m) + tail| >= 26
    ensures var r := Build(Encode(m) + tail, |Encode(m)|);
            r.endOfPreamble == STX && r.msn == m.body.msn && r.flightId == m.body.flightId &&
            r.text == (if |m.body.text| >= 2 then m.body.text else [])
  {
    EncodeLayout(m, tail);
    var b := Encode(m) + tail;
    var n := |Encode(m)|;
    var body := BodyBytes(m.body);
    assert body == [STX] + m.body.msn + m.body.flightId + m.body.text;
    assert b[12..n - 1] == body;
    assert b[12] == body[0] == STX;
    assert b[13..17] == body[1..5] == m.body.msn;
    assert b[17..23] == body[5..11] == m.body.flightId;
    if n > 25 {
      assert b[23..n - 1] == body[11..] == m.body.text;
    }
  }

  /** An uplink block: the text when it has two bytes or more. */
  lemma BuildEncodeUplink(m: Message, tail: seq<byte>)
    requires WellFormed(m) && m.body.UplinkText?
    requires |Encode(m) + tail| >= 26
    ensures var r := Build(Encode(m) + tail, |Encode(m)|);
            r.endOfPreamble == STX && r.msn == [] && r.flightId == [] &&
            r.text == (if |m.body.text| >= 2 then m.body.text else [])
  {
    EncodeLayout(m, tail);
    var b := Encode(m) + tail;
    var n := |Encode(m)|;
    var body := BodyBytes(m.body);
    assert body == [STX] + m.body.text;
    assert b[12..n - 1] == body;
    assert b[12] == body[0] == STX;
    if n > 15 {
      assert b[13..n - 1] == body[1..] == m.body.text;
    }
  }

  /** Parsing an encoded block, followed in the buffer by any bytes at all, recovers every
      field of the message. A text of a single byte is not recovered: the parser only takes
      the text when the block is longer than 25 (downlink) or 15 (uplink) bytes. */
  lemma BuildEncode(m: Message, tail: seq<byte>)
    requires WellFormed(m)
    requires |Encode(m) + tail| >= 26
    ensures var b := Encode(m) + tail;
            var r := Build(b, |Encode(m)|);
            r.raw == b &&
            r.mode == m.mode && r.address == m.address && r.ackId == m.ackId &&
            r.msgLabel == m.msgLabel && r.blkId == m.blkId && r.suffix == m.suffix &&
            r.isUplink == IsUplinkId(m.blkId) && r.isMultiblock == (m.suffix == ETB) &&
            r.endOfPreamble == (if m.body.NoText? then m.suffix else STX) &&
            r.msn == (if m.body.DownlinkText? then m.body.msn else []) &&
            r.flightId == (if m.body.DownlinkText? then m.body.flightId else []) &&
            r.text == (if |BodyText(m.body)| >= 2 then BodyText(m.body) else []) &&
            r.sublabel == (if m.msgLabel == H1 then b[24..26] else [])
  {
    BuildEncodeHeader(m, tail);
    match m.body {
      case NoText => BuildEncodeNoText(m, tail);
      case DownlinkText(_, _, _) => BuildEncodeDownlink(m, tail);
      case UplinkText(_) => BuildEncodeUplink(m, tail);
    }
  }
}
