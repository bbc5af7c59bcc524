/** The message format of src/octopus/msgs/msg.go on values: what the parsers make of a byte
    string, and what the builder produces. The methods of class `Msg` are proved against these
    functions, and the theorems about the format are stated about them. */
module MsgFormat {
  import opened Bytes
  import opened Crc
  import opened MsgKeys
  import Aes

  const FRAME_HEADER_LEN := 24
  const DATA_HEADER_LEN := 16
  const GUID_LEN := 16

  /** The fields of a message that are numbers, flags, texts or copied keys. */
  datatype Fields = Fields(
    fin: bool, mask: bool, ver: byte, short: bool, opcode: byte,
    reserve: byte, sequence: u16, time: u32,
    dstId: u64, dstMac: string, srcId: u64, srcMac: string,
    read: bool, ack: bool, dataFormat: byte, keyLevel: byte, encryptType: byte,
    dataSeq: byte, msgId: u16, length: nat, headCheck: byte, check: byte,
    rk: Option<seq<byte>>, rkXorMz: Option<seq<byte>>)

  /** The fields of a newly made message. */
  const BLANK := Fields(
    false, false, 0, false, 0, 0, 0, 0, 0, "", 0, "",
    false, false, 0, 0, 0, 0, 0, 0, 0, 0, None, None)

  datatype Error =
    | Empty
    | WrongOpcode
    | TooShort
    | NoSecret
    | WrongLength
    | WrongHeaderChecksum
    | WrongBodyChecksum
    | CannotDecrypt
    | PlaintextTooShort

  // ----- single bytes -----

  // The masks 0x07, 0x80, 0x40, 0x30, 0x08, 0x0c and 0x03.
  function OpcodeOf(b: byte): (r: byte) ensures r < 8 { b % 8 }
  predicate TopFlag(b: byte) { b / 128 == 1 }
  predicate SecondFlag(b: byte) { b / 64 % 2 == 1 }
  function UpperPair(b: byte): byte { b / 16 % 4 }
  predicate ShortFlag(b: byte) { b / 8 % 2 == 1 }
  function LowerPair(b: byte): byte { b / 4 % 4 }
  function LastPair(b: byte): (r: byte) ensures r < 4 { b % 4 }

  function Flag(on: bool, weight: nat): nat {
    if on then weight else 0
  }

  /** The first byte of the frame header. The parts have no bit in common, so OR is a sum. */
  function FrameByte(f: Fields): byte {
    hide OpcodeOf, LastPair;
    Flag(f.fin, 128) + Flag(f.mask, 64) + 16 * LastPair(f.ver) + Flag(f.short, 8) + OpcodeOf(f.opcode)
  }

  /** The first byte of the data header. */
  function DataByte(f: Fields): byte {
    hide LastPair;
    Flag(f.read, 128) + Flag(f.ack, 64) + 16 * LastPair(f.dataFormat) + 4 * LastPair(f.keyLevel)
    + LastPair(f.encryptType)
  }

  function HexDigit(n: nat): char
    requires n < 16
  {
    "0123456789abcdef"[n]
  }

  function Hex(s: seq<byte>): string {
    if |s| == 0 then "" else [HexDigit(s[0] / 16), HexDigit(s[0] % 16)] + Hex(s[1..])
  }

  // ----- layout -----

  predicate KnownOpcode(op: byte) {
    op == 2 || op == 3 || op == 1 || op == 5
  }

  /** Where the data header starts. */
  function Offset(op: byte): (n: nat)
    ensures n == 24 || n == 40
  {
    if op == 3 then FRAME_HEADER_LEN + GUID_LEN else FRAME_HEADER_LEN
  }

  /** Where the masked part ends; it starts at 8. */
  function MaskedEnd(op: byte): (n: nat)
    ensures n == 32 || n == 40
  {
    if op == 3 then 40 else 32
  }

  function WithMask(on: bool, op: byte, s: seq<byte>): (t: seq<byte>)
    requires |s| >= 40
    ensures |t| == |s|
  {
    if on then MaskRange(s, 8, MaskedEnd(op), 4) else s
  }

  // ----- parsing -----

  /** The checks made before anything else is read. */
  function Refused(s: seq<byte>): (e: Option<Error>)
    ensures e == None ==> |s| > 0 && |s| >= Offset(OpcodeOf(s[0])) + 16 && KnownOpcode(OpcodeOf(s[0]))
  {
    if |s| == 0 then Some(Empty)
    else if !KnownOpcode(OpcodeOf(s[0])) then Some(WrongOpcode)
    else if |s| < Offset(OpcodeOf(s[0])) + DATA_HEADER_LEN then Some(TooShort)
    else None
  }

  /** A refused string still leaves its opcode behind, when there is one. */
  function RefusedFields(f: Fields, s: seq<byte>): Fields {
    if |s| == 0 then f else f.(opcode := OpcodeOf(s[0]))
  }

  /** The first byte. Flags are only ever set, never cleared. */
  function FirstByteFields(f: Fields, b: byte): (r: Fields) {
    f.(opcode := OpcodeOf(b),
       fin := f.fin || TopFlag(b),
       mask := f.mask || SecondFlag(b),
       ver := UpperPair(b),
       short := f.short || ShortFlag(b))
  }

  /** The first eight bytes. */
  function FlagFields(f: Fields, s: seq<byte>): Fields
    requires |s| >= 8
  {
    FirstByteFields(f, s[0]).(reserve := s[1], sequence := Get16(s[2..4]), time := Get32(s[4..8]))
  }

  function AddressFields(f: Fields, u: seq<byte>): Fields
    requires |u| >= 24
  {
    f.(dstId := Get64(u[8..16]), dstMac := Hex(u[8..16]),
       srcId := Get64(u[16..24]), srcMac := Hex(u[16..24]))
  }

  /** The unmasked bytes, as the parsers see them between masking and the deferred masking. */
  function Clear(f: Fields, s: seq<byte>): (u: seq<byte>)
    requires Refused(s) == None
    ensures |u| == |s|
  {
    WithMask(FlagFields(f, s).mask, OpcodeOf(s[0]), s)
  }

  /** What FrameHeader leaves in the fields. */
  function ParseFrameHeader(f: Fields, s: seq<byte>): (Fields, Option<Error>) {
    if Refused(s).Some? then (RefusedFields(f, s), Refused(s))
    else (AddressFields(FlagFields(f, s), Clear(f, s)), None)
  }

  /** What a slice field refers to afterwards: what it did before, a stretch of the received
      array, new bytes, or nothing. */
  datatype Part = Kept | Wire(lo: nat, hi: nat) | New(bytes: seq<byte>) | Cleared

  predicate PartFits(p: Part, n: nat) {
    p.Wire? ==> p.lo <= p.hi <= n
  }

  /** The contents of a slice field once the received array holds s again. */
  function Resolve(p: Part, s: seq<byte>, before: Option<seq<byte>>): Option<seq<byte>>
    requires PartFits(p, |s|)
  {
    match p
    case Kept => before
    case Wire(lo, hi) => Some(s[lo..hi])
    case New(bytes) => Some(bytes)
    case Cleared => None
  }

  datatype ParsedHeader = ParsedHeader(fields: Fields, guid: Part, err: Option<Error>)

  /** What Header makes of s, given the shared secret. */
  function ParseHeader(c: Aes.Cipher, mz: Option<seq<byte>>, f: Fields, s: seq<byte>): (h: ParsedHeader)
    requires mz.Some? ==> |mz.value| >= 16
    ensures !h.guid.Wire?
  {
    hide Clear, AddressFields, FlagFields, HeaderRest, Refused, OpcodeOf;
    if Refused(s).Some? then ParsedHeader(RefusedFields(f, s), Kept, Refused(s)) else
    var u := Clear(f, s);
    AddressesKeep(FlagFields(f, s), u);
    FlagsDecide(f, s);
    HeaderRest(c, mz, AddressFields(FlagFields(f, s), u), u)
  }

  /** The part of Header that works on the unmasked bytes u. */
  function HeaderRest(c: Aes.Cipher, mz: Option<seq<byte>>, g: Fields, u: seq<byte>): (h: ParsedHeader)
    requires mz.Some? ==> |mz.value| >= 16
    requires |u| >= Offset(g.opcode) + 16
    ensures !h.guid.Wire? && h.fields.mask == g.mask && h.fields.opcode == g.opcode
  {
    hide Aes.Decrypted, RandomKey, SecretKey, LowerPair, Get16;
    var offset := Offset(g.opcode);
    var h := g.(keyLevel := LowerPair(u[offset]));
    if g.opcode == 3 then
      if mz == None then ParsedHeader(h, Kept, Some(NoSecret)) else
      var a := RandomKey(g.sequence, g.srcId, g.time);
      var guid := Aes.Decrypted(c, u[24..40], SecretKey(a, mz.value));
      ParsedHeader(h.(rk := Some(a), msgId := Get16(u[offset + 2..offset + 4])),
                   if guid.Ok? then New(guid.value) else Cleared, None)
    else
      ParsedHeader(h.(msgId := Get16(u[offset + 2..offset + 4])), Kept, None)
  }

  lemma FlagsDecide(f: Fields, s: seq<byte>)
    requires |s| >= 8
    ensures FlagFields(f, s).opcode == OpcodeOf(s[0])
  {
    hide Get16, Get32, OpcodeOf;
  }

  lemma AddressesKeep(f: Fields, u: seq<byte>)
    requires |u| >= 24
    ensures AddressFields(f, u).mask == f.mask && AddressFields(f, u).opcode == f.opcode
  {
    hide Get64, Hex;
  }

  datatype Parsed = Parsed(
    fields: Fields, guid: Part, session: Part, text: Part, cipher: Part, err: Option<Error>)

  /** The first byte of the data header. */
  function DataByteFields(f: Fields, b: byte): Fields {
    f.(read := f.read || TopFlag(b),
       ack := f.ack || SecondFlag(b),
       dataFormat := UpperPair(b),
       keyLevel := LowerPair(b),
       encryptType := LastPair(b))
  }

  /** The data header up to and including the length. */
  function DataFields(f: Fields, u: seq<byte>, offset: nat): Fields
    requires offset + 16 <= |u|
  {
    DataByteFields(f, u[offset]).(
       dataSeq := u[offset + 1],
       msgId := Get16(u[offset + 2..offset + 4]),
       length := Get16(u[offset + 4..offset + 6]))
  }

  function CheckFields(f: Fields, u: seq<byte>, offset: nat): Fields
    requires offset + 16 <= |u|
  {
    f.(headCheck := u[offset + 6], check := u[offset + 7])
  }

  /** Every slice into the received array stays within it. */
  predicate PartsFit(p: Parsed, n: nat) {
    PartFits(p.guid, n) && PartFits(p.session, n) && PartFits(p.text, n) && PartFits(p.cipher, n)
  }

  /** What Binary2Msg makes of s. */
  function ParseBinary(c: Aes.Cipher, mz: Option<seq<byte>>, f: Fields, s: seq<byte>): (p: Parsed)
    requires mz.Some? ==> |mz.value| >= 16
    ensures PartsFit(p, |s|)
  {
    hide Clear, AddressFields, FlagFields, ParseData, Refused, OpcodeOf;
    if Refused(s).Some? then Parsed(RefusedFields(f, s), Kept, Kept, Kept, Kept, Refused(s)) else
    var u := Clear(f, s);
    var g := AddressFields(FlagFields(f, s), u);
    AddressesKeep(FlagFields(f, s), u);
    FlagsDecide(f, s);
    ParseData(c, mz, g, u)
  }

  /** The guid slice Binary2Msg leaves behind. */
  function GuidPart(op: byte): Part {
    if op == 3 then Wire(FRAME_HEADER_LEN, Offset(op)) else Kept
  }

  /** The part of Binary2Msg that works on the unmasked bytes u. */
  function ParseData(c: Aes.Cipher, mz: Option<seq<byte>>, f: Fields, u: seq<byte>): (p: Parsed)
    requires mz.Some? ==> |mz.value| >= 16
    requires |u| >= Offset(f.opcode) + 16
    ensures PartsFit(p, |u|)
    ensures p.fields.mask == f.mask && p.fields.opcode == f.opcode
  {
    hide ParseChecked;
    ParseChecked(c, mz, f, GuidPart(f.opcode), u, Offset(f.opcode))
  }

  /** The data header, its length and checksum, and the body. */
  function ParseChecked(
    c: Aes.Cipher, mz: Option<seq<byte>>, f: Fields, guid: Part, u: seq<byte>, offset: nat): (p: Parsed)
    requires mz.Some? ==> |mz.value| >= 16
    requires offset + 16 <= |u|
    ensures p.guid == guid && (PartFits(guid, |u|) ==> PartsFit(p, |u|))
    ensures p.fields.mask == f.mask && p.fields.opcode == f.opcode
  {
    hide Crc8, Get16, UpperPair, LowerPair, LastPair, TopFlag, SecondFlag, ParseBody;
    var g := DataFields(f, u, offset);
    if g.length != |u| - (offset + 16) then Parsed(g, guid, Kept, Kept, Kept, Some(WrongLength)) else
    var h := CheckFields(g, u, offset);
    if h.headCheck != Crc8(u[..offset + 6]) then
      Parsed(h, guid, Kept, Kept, Kept, Some(WrongHeaderChecksum))
    else
      ParseBody(c, mz, h, guid, u, offset)
  }

  /** The switch over the key level. */
  function ParseBody(
    c: Aes.Cipher, mz: Option<seq<byte>>, f: Fields, guid: Part, u: seq<byte>, offset: nat): (p: Parsed)
    requires mz.Some? ==> |mz.value| >= 16
    requires offset + 16 <= |u|
    ensures p.guid == guid && (PartFits(guid, |u|) ==> PartsFit(p, |u|))
    ensures p.fields.mask == f.mask && p.fields.opcode == f.opcode
  {
    hide RandomKey, SecretKey, Aes.Decrypted, Crc8;
    if f.keyLevel == 0 then
      ParsePlainBody(f, guid, u, offset)
    else if f.keyLevel == 1 then
      var a := RandomKey(f.sequence, f.srcId, f.time);
      var d := Aes.Decrypted(c, u[offset + 8..], a);
      OpenBody(f.(rk := Some(a)), guid, Kept, d, true)
    else if f.keyLevel == 2 then
      Parsed(f, guid, Kept, Kept, Kept, None)
    else if mz == None then
      Parsed(f, guid, Kept, Kept, Kept, Some(NoSecret))
    else
      var a := RandomKey(f.sequence, f.srcId, f.time);
      var key := SecretKey(a, mz.value);
      var d := Aes.Decrypted(c, u[offset + 8..], key);
      OpenBody(f.(rk := Some(a), rkXorMz := Some(key)), guid, Wire(offset + 8, |u|), d, false)
  }

  function ParsePlainBody(f: Fields, guid: Part, u: seq<byte>, offset: nat): (p: Parsed)
    requires offset + 16 <= |u|
    ensures p.guid == guid && (PartFits(guid, |u|) ==> PartsFit(p, |u|)) && p.fields == f
  {
    hide Crc8;
    var session := Wire(offset + 8, offset + 16);
    if f.check != Crc8(u[offset + 8..]) then
      Parsed(f, guid, session, Kept, Kept, Some(WrongBodyChecksum))
    else
      Parsed(f, guid, session, if f.length > 0 then Wire(offset + 16, |u|) else Kept, Kept, None)
  }

  /** A decrypted body: session id, then text. An empty text is only stored at level 1. */
  function OpenBody(
    f: Fields, guid: Part, cipher: Part, d: Result<seq<byte>, Aes.Error>, keepEmpty: bool): (p: Parsed)
    ensures p.fields == f && p.guid == guid && p.cipher == cipher && !p.session.Wire? && !p.text.Wire?
  {
    hide Crc8;
    match d
    case Err(_) => Parsed(f, guid, Kept, Kept, cipher, Some(CannotDecrypt))
    case Ok(aa) =>
      if |aa| < 8 then Parsed(f, guid, Kept, New(aa), cipher, Some(PlaintextTooShort))
      else if f.check != Crc8(aa) then Parsed(f, guid, Kept, Kept, cipher, Some(WrongBodyChecksum))
      else Parsed(f, guid, New(aa[..8]), if keepEmpty || |aa| > 8 then New(aa[8..]) else Kept, cipher, None)
  }

  // ----- building -----

  /** The session id as eight bytes: truncated, or filled up with zeros. */
  function SessionBytes(session: Option<seq<byte>>): (s: seq<byte>)
    ensures |s| == 8
  {
    var t := if session.Some? then session.value else [];
    if |t| >= 8 then t[..8] else t + Zeros(8 - |t|)
  }

  function OrEmpty(s: Option<seq<byte>>): seq<byte> {
    if s.Some? then s.value else []
  }

  /** The key the body is encrypted with. */
  function BodyKey(f: Fields, mz: Option<seq<byte>>): (key: seq<byte>)
    requires Secret(mz, f.keyLevel)
    ensures |key| == 16
  {
    var a := RandomKey(f.sequence, f.srcId, f.time);
    if f.keyLevel == 3 then SecretKey(a, mz.value) else a
  }

  /** The 16 bytes of the guid in a frame: written only at level 3, and only when there is one. */
  function GuidArea(c: Aes.Cipher, f: Fields, mz: Option<seq<byte>>, guid: Option<seq<byte>>): (s: seq<byte>)
    requires Secret(mz, f.keyLevel)
    ensures |s| == Offset(f.opcode) - FRAME_HEADER_LEN
  {
    hide Aes.Encrypted, BodyKey;
    if f.opcode != 3 then []
    else if f.keyLevel != 3 || guid == None then Zeros(16)
    else Aes.Encrypted(c, guid.value, BodyKey(f, mz)).value[..16]
  }

  /** The frame header, up to the guid. */
  function FrameHead(f: Fields): (s: seq<byte>)
    ensures |s| == 24
  {
    [FrameByte(f), f.reserve] + Put16(f.sequence) + Put32(f.time) + Put64(f.dstId) + Put64(f.srcId)
  }

  /** The data header, up to the length. */
  function DataHead(f: Fields): (s: seq<byte>)
    ensures |s| == 4
  {
    [DataByte(f), f.dataSeq] + Put16(f.msgId)
  }

  /** The bytes covered by the header checksum. */
  function Covered(f: Fields, guid: seq<byte>, bodyLength: nat): (s: seq<byte>)
    requires |guid| == Offset(f.opcode) - FRAME_HEADER_LEN
    ensures |s| == Offset(f.opcode) + 6
  {
    FrameHead(f) + guid + DataHead(f) + Put16(Truncate16(bodyLength))
  }

  /** A frame before masking: the covered bytes, the two checksums, and the payload. */
  function PlainFrame(f: Fields, guid: seq<byte>, payload: seq<byte>): (s: seq<byte>)
    requires |guid| == Offset(f.opcode) - FRAME_HEADER_LEN && |payload| >= 8
    ensures |s| == Offset(f.opcode) + 8 + |payload|
  {
    var covered := Covered(f, guid, |payload| - 8);
    covered + [Crc8(covered), f.check] + payload
  }

  /** Key levels 0, 1 and 3 build a frame; level 2 and unknown levels do not. */
  predicate Builds(level: byte) {
    level == 0 || level == 1 || level == 3
  }

  /** The payload: session id and text, or the whole checksum buffer encrypted. */
  function Payload(
    c: Aes.Cipher, f: Fields, mz: Option<seq<byte>>, session: seq<byte>, text: seq<byte>,
    buffer: seq<byte>): (s: seq<byte>)
    requires Secret(mz, f.keyLevel)
    requires |session| == 8
    ensures |s| >= 8
  {
    hide Aes.Encrypted, BodyKey;
    if f.keyLevel == 0 then session + text
    else Aes.Encrypted(c, buffer, BodyKey(f, mz)).value
  }

  /** Everything Msg2Binary works out of a message: the sent fields, the checksum buffer, the guid
      bytes, the payload, and the frame before and after masking. */
  datatype Built = Built(
    fields: Fields, buffer: seq<byte>, area: seq<byte>, payload: seq<byte>, plain: seq<byte>, final: seq<byte>)

  /** What Msg2Binary reads of a message; datacrc is what the checksum buffer already holds. */
  datatype Outgoing = Outgoing(
    fields: Fields, guid: Option<seq<byte>>, session: Option<seq<byte>>, text: Option<seq<byte>>, datacrc: seq<byte>)

  /** Key level 3 needs the shared secret; a secret that is there has at least 16 bytes. */
  predicate Secret(mz: Option<seq<byte>>, level: byte) {
    (mz.Some? ==> |mz.value| >= 16) && (level == 3 ==> mz.Some?)
  }

  /** What Msg2Binary makes of a message; clock is used when no time is set. */
  function Build(c: Aes.Cipher, mz: Option<seq<byte>>, o: Outgoing, clock: u32): (b: Built)
    requires Builds(o.fields.keyLevel) && Secret(mz, o.fields.keyLevel)
    ensures b.fields.opcode == o.fields.opcode && b.fields.keyLevel == o.fields.keyLevel && |b.payload| >= 8
    ensures |b.area| == Offset(o.fields.opcode) - FRAME_HEADER_LEN
    ensures |b.final| == |b.plain| == Offset(o.fields.opcode) + 8 + |b.payload|
  {
    hide Payload, GuidArea, SentFields, PlainFrame, WithMask, SessionBytes;
    var f := o.fields;
    var timed := Timed(f, clock);
    var s8, txt := SessionBytes(o.session), OrEmpty(o.text);
    var buffer := o.datacrc + s8 + txt;
    var payload := Payload(c, timed, mz, s8, txt, buffer);
    var area := GuidArea(c, timed, mz, o.guid);
    var sent := SentFields(timed, mz, area, payload, buffer);
    var plain := PlainFrame(sent, area, payload);
    Built(sent, buffer, area, payload, plain, WithMask(f.mask, f.opcode, plain))
  }

  function Timed(f: Fields, clock: u32): Fields {
    f.(time := if f.time == 0 then clock else f.time)
  }

  function KeyFields(f: Fields, mz: Option<seq<byte>>): (r: Fields)
    requires Secret(mz, f.keyLevel)
    ensures r.opcode == f.opcode && r.keyLevel == f.keyLevel
  {
    hide RandomKey, BodyKey;
    f.(rk := if f.keyLevel == 0 then f.rk else Some(RandomKey(f.sequence, f.srcId, f.time)),
       rkXorMz := if f.keyLevel == 3 then Some(BodyKey(f, mz)) else f.rkXorMz)
  }

  function MacFields(f: Fields): (r: Fields)
    ensures r.opcode == f.opcode && r.keyLevel == f.keyLevel
  {
    hide Hex, Put64;
    f.(dstMac := Hex(Put64(f.dstId)), srcMac := Hex(Put64(f.srcId)))
  }

  /** The fields Msg2Binary fills in while building: the names, the keys, the length and the checksums. */
  function SentFields(f: Fields, mz: Option<seq<byte>>, guid: seq<byte>, payload: seq<byte>,
                      buffer: seq<byte>): (r: Fields)
    requires Secret(mz, f.keyLevel)
    requires |guid| == Offset(f.opcode) - FRAME_HEADER_LEN && |payload| >= 8
    ensures r.opcode == f.opcode && r.keyLevel == f.keyLevel
  {
    hide Covered, Truncate16, KeyFields, MacFields, Crc8;
    KeyFields(MacFields(f), mz).(
      length := Truncate16(|payload| - 8),
      headCheck := Crc8(Covered(f, guid, |payload| - 8)),
      check := Crc8(buffer))
  }
}
