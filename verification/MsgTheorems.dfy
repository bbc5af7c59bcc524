/** What the message format guarantees: round trips with their exact conditions, transport of the
    guid, and rejection of corrupted frames. */
module MsgTheorems {
  import opened Bytes
  import opened Crc
  import opened MsgKeys
  import opened MsgFormat
  import Aes

  // ----- the packed bytes -----

  lemma HighNibble(a: nat, b: nat, v: nat, w: nat)
    requires a <= 1 && b <= 1 && v <= 3 && w <= 15
    ensures var n := 128 * a + 64 * b + 16 * v + w;
            n / 128 == a && n / 64 % 2 == b && n / 16 % 4 == v
  {
    var n := 128 * a + 64 * b + 16 * v + w;
    assert n / 64 == 2 * a + b;
    assert n / 16 == 4 * (2 * a + b) + v;
  }

  lemma LowNibble(h: nat, s: nat, o: nat)
    requires s <= 1 && o < 8
    ensures var n := 16 * h + 8 * s + o; n / 8 % 2 == s && n % 8 == o
  {
    assert (16 * h + 8 * s + o) / 8 == 2 * h + s;
  }

  lemma LowPairs(h: nat, k: nat, e: nat)
    requires k <= 3 && e <= 3
    ensures var n := 16 * h + 4 * k + e; n / 4 % 4 == k && n % 4 == e
  {
    assert (16 * h + 4 * k + e) / 4 == 4 * h + k;
  }

  lemma FrameByteDecodes(f: Fields)
    ensures var b := FrameByte(f);
            && OpcodeOf(b) == OpcodeOf(f.opcode)
            && TopFlag(b) == f.fin
            && SecondFlag(b) == f.mask
            && UpperPair(b) == LastPair(f.ver)
            && ShortFlag(b) == f.short
  {
    var a, m, v, s := Flag(f.fin, 1), Flag(f.mask, 1), LastPair(f.ver), Flag(f.short, 1);
    var o := OpcodeOf(f.opcode);
    hide LastPair, OpcodeOf;
    HighNibble(a, m, v, 8 * s + o);
    LowNibble(8 * a + 4 * m + v, s, o);
    OpcodeIsRemainder(FrameByte(f));
  }

  lemma OpcodeIsRemainder(b: byte)
    ensures OpcodeOf(b) == b % 8
  {}

  lemma LastPairIsRemainder(b: byte)
    ensures LastPair(b) == b % 4
  {}

  lemma DataByteDecodes(f: Fields)
    ensures var b := DataByte(f);
            && TopFlag(b) == f.read
            && SecondFlag(b) == f.ack
            && UpperPair(b) == LastPair(f.dataFormat)
            && LowerPair(b) == LastPair(f.keyLevel)
            && LastPair(b) == LastPair(f.encryptType)
  {
    var a, m, v := Flag(f.read, 1), Flag(f.ack, 1), LastPair(f.dataFormat);
    var k, e := LastPair(f.keyLevel), LastPair(f.encryptType);
    hide LastPair;
    HighNibble(a, m, v, 4 * k + e);
    LowPairs(8 * a + 4 * m + v, k, e);
    LastPairIsRemainder(DataByte(f));
  }

  // ----- the layout of a frame -----

  /** The pieces of the frame header in s. */
  ghost predicate FrameHeaderAt(s: seq<byte>, f: Fields) {
    && |s| >= 40
    && s[0] == FrameByte(f) && s[1] == f.reserve
    && s[2..4] == Put16(f.sequence) && s[4..8] == Put32(f.time)
    && s[8..16] == Put64(f.dstId) && s[16..24] == Put64(f.srcId)
  }

  /** The pieces of the data header in s, at its offset. */
  ghost predicate DataHeaderAt(s: seq<byte>, f: Fields, payload: seq<byte>, offset: nat) {
    && |s| == offset + 8 + |payload|
    && |payload| >= 8
    && s[offset] == DataByte(f) && s[offset + 1] == f.dataSeq
    && s[offset + 2..offset + 4] == Put16(f.msgId)
    && s[offset + 4..offset + 6] == Put16(Truncate16(|payload| - 8))
    && s[offset + 7] == f.check
    && s[offset + 8..] == payload
  }

  lemma CoveredPieces(f: Fields, guid: seq<byte>, n: nat)
    requires |guid| == Offset(f.opcode) - FRAME_HEADER_LEN
    ensures var s, offset := Covered(f, guid, n), Offset(f.opcode);
            && s[0] == FrameByte(f) && s[1] == f.reserve
            && s[2..4] == Put16(f.sequence) && s[4..8] == Put32(f.time)
            && s[8..16] == Put64(f.dstId) && s[16..24] == Put64(f.srcId)
            && s[24..offset] == guid
            && s[offset] == DataByte(f) && s[offset + 1] == f.dataSeq
            && s[offset + 2..offset + 4] == Put16(f.msgId)
            && s[offset + 4..offset + 6] == Put16(Truncate16(n))
  {
    hide FrameByte, DataByte, Put16, Put32, Put64, Truncate16;
    var head, tail := FrameHead(f), DataHead(f) + Put16(Truncate16(n));
    assert Covered(f, guid, n) == head + guid + tail;
    assert head[2..4] == Put16(f.sequence) && head[4..8] == Put32(f.time);
    assert head[8..16] == Put64(f.dstId) && head[16..24] == Put64(f.srcId);
    assert tail[2..4] == Put16(f.msgId) && tail[4..6] == Put16(Truncate16(n));
    Embedded(head, guid, tail, 2, 4);
    Embedded(head, guid, tail, 4, 8);
    Embedded(head, guid, tail, 8, 16);
    Embedded(head, guid, tail, 16, 24);
  }

  lemma Embedded(head: seq<byte>, guid: seq<byte>, tail: seq<byte>, from: nat, to: nat)
    requires from <= to <= |head|
    ensures (head + guid + tail)[from..to] == head[from..to]
  {}

  lemma PlainFramePieces(f: Fields, guid: seq<byte>, payload: seq<byte>)
    requires |guid| == Offset(f.opcode) - FRAME_HEADER_LEN && |payload| >= 8
    ensures var s, offset := PlainFrame(f, guid, payload), Offset(f.opcode);
            && FrameHeaderAt(s, f)
            && DataHeaderAt(s, f, payload, offset)
            && s[24..offset] == guid
            && s[..offset + 6] == Covered(f, guid, |payload| - 8)
            && s[offset + 6] == Crc8(s[..offset + 6])
  {
    hide FrameByte, DataByte, Put16, Put32, Put64, Truncate16, Crc8, Covered;
    var n, offset := |payload| - 8, Offset(f.opcode);
    var covered := Covered(f, guid, n);
    var s := PlainFrame(f, guid, payload);
    CoveredPieces(f, guid, n);
    assert s[..offset + 6] == covered;
    Prefixed(s, covered, 2, 4);
    Prefixed(s, covered, 4, 8);
    Prefixed(s, covered, 8, 16);
    Prefixed(s, covered, 16, 24);
    Prefixed(s, covered, 24, offset);
    Prefixed(s, covered, offset + 2, offset + 4);
    Prefixed(s, covered, offset + 4, offset + 6);
  }

  lemma Prefixed(s: seq<byte>, p: seq<byte>, from: nat, to: nat)
    requires p <= s && from <= to <= |p|
    ensures s[from..to] == p[from..to]
  {}

  // ----- unmasking -----

  /** A masked frame shows its first eight bytes, and clears to the frame before masking. */
  lemma ClearOfMasked(f: Fields, s: seq<byte>)
    requires |s| >= Offset(f.opcode) + 16 && KnownOpcode(f.opcode)
    requires s[0] == FrameByte(f)
    ensures var w := WithMask(f.mask, f.opcode, s);
            && w[..8] == s[..8]
            && Refused(w) == None
            && Clear(BLANK, w) == s
  {
    hide MaskRange, Get16, Get32;
    var w := WithMask(f.mask, f.opcode, s);
    MaskKeeps(s, 8, MaskedEnd(f.opcode), 4, 0, 8);
    assert w[..8] == s[..8] && s[..8][0] == s[0] && w[..8][0] == w[0];
    FrameByteDecodes(f);
    MaskInvolution(s, 8, MaskedEnd(f.opcode), 4);
  }

  // ----- parsing what was built -----

  /** The fields as they arrive: two-bit fields reduced to two bits, and keys only where used. */
  function Received(sent: Fields): Fields {
    sent.(ver := LastPair(sent.ver), dataFormat := LastPair(sent.dataFormat), encryptType := LastPair(sent.encryptType),
          rk := if sent.keyLevel == 0 then None else sent.rk,
          rkXorMz := if sent.keyLevel == 3 then sent.rkXorMz else None)
  }

  /** The fields after the frame header of a frame from f has been read into a new message. */
  function HeaderRead(f: Fields): Fields {
    hide Hex, Put64, LastPair;
    BLANK.(opcode := f.opcode, fin := f.fin, mask := f.mask, ver := LastPair(f.ver), short := f.short,
           reserve := f.reserve, sequence := f.sequence, time := f.time,
           dstId := f.dstId, dstMac := Hex(Put64(f.dstId)), srcId := f.srcId, srcMac := Hex(Put64(f.srcId)))
  }

  lemma FrameHeaderRead(f: Fields, s: seq<byte>, w: seq<byte>)
    requires FrameHeaderAt(s, f) && KnownOpcode(f.opcode)
    requires |w| == |s| && w[..8] == s[..8]
    ensures AddressFields(FlagFields(BLANK, w), s) == HeaderRead(f)
  {
    hide FrameByte, Put16, Put32, Put64, Get16, Get32, Get64, Hex, OpcodeOf, LastPair, UpperPair;
    hide TopFlag, SecondFlag, ShortFlag;
    FrameByteDecodes(f);
    OpcodeIsRemainder(f.opcode);
    assert w[0] == w[..8][0] && w[1] == w[..8][1] && s[0] == s[..8][0] && s[1] == s[..8][1];
    assert w[2..4] == w[..8][2..4] && w[4..8] == w[..8][4..8];
    assert s[2..4] == s[..8][2..4] && s[4..8] == s[..8][4..8];
    Get16OfPut(f.sequence);
    Get32OfPut(f.time);
    Get64OfPut(f.dstId);
    Get64OfPut(f.srcId);
  }

  /** The fields once the data header has been read too. */
  function DataRead(f: Fields, headCheck: byte, n: nat): Fields {
    hide HeaderRead, LastPair, Truncate16;
    HeaderRead(f).(
      read := f.read, ack := f.ack, dataFormat := LastPair(f.dataFormat), keyLevel := f.keyLevel,
      encryptType := LastPair(f.encryptType), dataSeq := f.dataSeq, msgId := f.msgId,
      length := Truncate16(n), headCheck := headCheck, check := f.check)
  }

  lemma DataHeaderRead(f: Fields, s: seq<byte>, payload: seq<byte>, offset: nat)
    requires DataHeaderAt(s, f, payload, offset) && f.keyLevel < 4
    ensures CheckFields(DataFields(HeaderRead(f), s, offset), s, offset)
         == DataRead(f, s[offset + 6], |payload| - 8)
  {
    hide DataByte, Put16, Get16, Hex, Put64, LastPair, UpperPair, LowerPair, TopFlag, SecondFlag, Truncate16;
    DataByteDecodes(f);
    SmallPair(f.keyLevel);
    Get16OfPut(f.msgId);
    Get16OfPut(Truncate16(|payload| - 8));
  }

  lemma SmallPair(b: byte)
    requires b < 4
    ensures LastPair(b) == b
  {}

  /** Reading a frame built from f: it fails on the length, or the body decides. */
  lemma ParsePlainFrame(c: Aes.Cipher, mz: Option<seq<byte>>, f: Fields, guid: seq<byte>, payload: seq<byte>)
    requires mz.Some? ==> |mz.value| >= 16
    requires |guid| == Offset(f.opcode) - FRAME_HEADER_LEN && |payload| >= 8
    requires f.keyLevel < 4 && KnownOpcode(f.opcode)
    ensures var s, offset := PlainFrame(f, guid, payload), Offset(f.opcode);
            var area := GuidPart(f.opcode);
            var p := ParseChecked(c, mz, HeaderRead(f), area, s, offset);
            if |payload| - 8 < 0x1_0000 then
              p == ParseBody(c, mz, DataRead(f, s[offset + 6], |payload| - 8), area, s, offset)
            else
              p.err == Some(WrongLength)
  {
    hide PlainFrame, HeaderRead, DataRead, ParseBody, Crc8, Covered;
    hide DataFields, CheckFields;
    var s, offset := PlainFrame(f, guid, payload), Offset(f.opcode);
    PlainFramePieces(f, guid, payload);
    DataHeaderRead(f, s, payload, offset);
    DataFieldsKept(HeaderRead(f), s, offset);
    DataReadLength(f, s[offset + 6], |payload| - 8);
    HeaderReadOpcode(f);
  }

  lemma DataFieldsKept(f: Fields, s: seq<byte>, offset: nat)
    requires offset + 16 <= |s|
    ensures var h := CheckFields(DataFields(f, s, offset), s, offset);
            h.length == DataFields(f, s, offset).length && h.headCheck == s[offset + 6]
  {
    hide Get16, UpperPair, LowerPair, LastPair, TopFlag, SecondFlag;
  }

  lemma DataReadLength(f: Fields, headCheck: byte, n: nat)
    ensures DataRead(f, headCheck, n).length == Truncate16(n)
    ensures n >= 0x1_0000 ==> Truncate16(n) != n
  {
    hide HeaderRead, LastPair;
  }

  lemma HeaderReadOpcode(f: Fields)
    ensures HeaderRead(f).opcode == f.opcode
  {
    hide Hex, Put64, LastPair;
  }

  /** The built frame is accepted so far, clears to the frame before masking, and its frame header
      is read back; Binary2Msg and Header go on from there. */
  ghost predicate Arrives(b: Built) {
    && |b.final| == |b.plain| >= Offset(b.fields.opcode) + 16
    && Refused(b.final) == None
    && Clear(BLANK, b.final) == b.plain
    && AddressFields(FlagFields(BLANK, b.final), b.plain) == HeaderRead(b.fields)
  }

  lemma BuiltArrives(c: Aes.Cipher, mz: Option<seq<byte>>, o: Outgoing, clock: u32)
    requires Builds(o.fields.keyLevel) && KnownOpcode(o.fields.opcode) && Secret(mz, o.fields.keyLevel)
    ensures Arrives(Build(c, mz, o, clock))
  {
    hide PlainFrame, Payload, GuidArea, HeaderRead, AddressFields, FlagFields, Covered, Crc8;
    var b := Build(c, mz, o, clock);
    PlainFramePieces(b.fields, b.area, b.payload);
    SentKept(Timed(o.fields, clock), mz, b.area, b.payload, b.buffer);
    ClearOfMasked(b.fields, b.plain);
    FrameHeaderRead(b.fields, b.plain, b.final);
  }

  lemma ParseArrived(c: Aes.Cipher, mz: Option<seq<byte>>, b: Built)
    requires Arrives(b) && (mz.Some? ==> |mz.value| >= 16)
    ensures ParseBinary(c, mz, BLANK, b.final)
         == ParseChecked(c, mz, HeaderRead(b.fields), GuidPart(b.fields.opcode), b.plain, Offset(b.fields.opcode))
  {
    hide ParseChecked, HeaderRead, AddressFields, FlagFields, Clear;
    HeaderReadOpcode(b.fields);
  }

  lemma SentKept(f: Fields, mz: Option<seq<byte>>, guid: seq<byte>, payload: seq<byte>, buffer: seq<byte>)
    requires Secret(mz, f.keyLevel)
    requires |guid| == Offset(f.opcode) - FRAME_HEADER_LEN && |payload| >= 8
    ensures var r := SentFields(f, mz, guid, payload, buffer);
            && r.opcode == f.opcode && r.mask == f.mask && r.keyLevel == f.keyLevel
            && r.sequence == f.sequence && r.srcId == f.srcId && r.time == f.time
            && r.check == Crc8(buffer)
  {
    hide Hex, Put64, Covered, Truncate16, Crc8, RandomKey, BodyKey;
  }

  // ----- the round trip -----

  /** The body length fits the 16-bit length field. */
  predicate Fits(b: Built) {
    |b.payload| < 0x1_0000 + 8
  }

  /** A new message holds everything that was sent: the fields, the session id, the text. */
  ghost predicate Delivered(p: Parsed, b: Built, session: seq<byte>, text: seq<byte>) {
    && p.err == None
    && p.fields == Received(b.fields)
    && PartFits(p.session, |b.final|) && Resolve(p.session, b.final, None) == Some(session)
    && PartFits(p.text, |b.final|) && OrEmpty(Resolve(p.text, b.final, None)) == text
  }

  /** The bytes after the data header are outside the masked range. */
  lemma BodyNotMasked(b: Built, from: nat, to: nat)
    requires |b.plain| >= Offset(b.fields.opcode) + 16
    requires b.final == WithMask(b.fields.mask, b.fields.opcode, b.plain)
    requires Offset(b.fields.opcode) + 8 <= from <= to <= |b.plain|
    ensures b.final[from..to] == b.plain[from..to]
  {
    hide MaskRange;
    MaskKeeps(b.plain, 8, MaskedEnd(b.fields.opcode), 4, from, to);
  }

  /** Key level 0: the body is accepted exactly when the stale checksum buffer d does not show. */
  lemma PlainBodyRead(f: Fields, guid: Part, b: Built, d: seq<byte>, session: seq<byte>, text: seq<byte>)
    requires var offset := Offset(b.fields.opcode);
             && |session| == 8 && b.payload == session + text
             && |b.plain| == offset + 8 + |b.payload|
             && b.plain[offset + 8..] == b.payload
             && b.final == WithMask(b.fields.mask, b.fields.opcode, b.plain)
    requires f.check == Crc8(d + session + text) && f.length == |text|
    ensures var offset := Offset(b.fields.opcode);
            var p := ParsePlainBody(f, guid, b.plain, offset);
            && p.fields == f
            && (p.err == None <==> Crc8(d) == 0)
            && PartFits(p.session, |b.final|) && Resolve(p.session, b.final, None) == Some(session)
            && (p.err == None ==> PartFits(p.text, |b.final|) && OrEmpty(Resolve(p.text, b.final, None)) == text)
  {
    hide Crc8, WithMask;
    var offset := Offset(b.fields.opcode);
    assert d + session + text == d + b.payload;
    CrcPrefix(d, b.payload);
    BodyNotMasked(b, offset + 8, offset + 16);
    BodyNotMasked(b, offset + 16, |b.plain|);
    SplitTail(b.plain, offset + 8, session, text);
  }

  lemma SplitTail(s: seq<byte>, at: nat, first: seq<byte>, rest: seq<byte>)
    requires at <= |s| && s[at..] == first + rest
    ensures s[at..at + |first|] == first && s[at + |first|..] == rest
  {
    assert s[at..at + |first|] == s[at..][..|first|];
    assert s[at + |first|..] == s[at..][|first|..];
  }

  /** Key levels 1 and 3: what comes back is the whole checksum buffer, split at eight. */
  lemma SealedBodyRead(
    c: Aes.Cipher, f: Fields, guid: Part, cipher: Part, buffer: seq<byte>, key: seq<byte>, keepEmpty: bool)
    requires |key| == 16 && |buffer| >= 8 && f.check == Crc8(buffer)
    ensures var e := Aes.Encrypted(c, buffer, key).value;
            |e| > 0 &&
            var p := OpenBody(f, guid, cipher, Aes.Decrypted(c, e, key), keepEmpty);
            && p.fields == f && p.err == None && p.guid == guid && p.cipher == cipher
            && p.session == New(buffer[..8])
            && p.text == (if keepEmpty || |buffer| > 8 then New(buffer[8..]) else Kept)
  {
    hide Crc8, Aes.Encrypted, Aes.Decrypted;
    Aes.DecryptOfEncrypt(c, buffer, key);
  }

  lemma SplitExactly(d: seq<byte>, session: seq<byte>, text: seq<byte>)
    requires |session| == 8
    ensures var buffer := d + session + text;
            (buffer[..8] == session && buffer[8..] == text) <==> d == []
  {
    var buffer := d + session + text;
    if d == [] {
      assert buffer == session + text;
    } else {
      assert |buffer[8..]| == |d| + |text|;
    }
  }

  /** How the parts of a built message hang together. */
  ghost predicate Assembled(b: Built) {
    && |b.area| == Offset(b.fields.opcode) - FRAME_HEADER_LEN
    && |b.payload| >= 8
    && b.plain == PlainFrame(b.fields, b.area, b.payload)
    && b.final == WithMask(b.fields.mask, b.fields.opcode, b.plain)
    && b.fields.check == Crc8(b.buffer)
    && b.fields.length == Truncate16(|b.payload| - 8)
    && b.fields.headCheck == Crc8(Covered(b.fields, b.area, |b.payload| - 8))
    && b.fields.dstMac == Hex(Put64(b.fields.dstId))
    && b.fields.srcMac == Hex(Put64(b.fields.srcId))
  }

  lemma CoveredSame(f: Fields, g: Fields, guid: seq<byte>, n: nat)
    requires |guid| == Offset(f.opcode) - FRAME_HEADER_LEN
    requires f.opcode == g.opcode && FrameByte(f) == FrameByte(g) && DataByte(f) == DataByte(g)
    requires f.reserve == g.reserve && f.sequence == g.sequence && f.time == g.time
    requires f.dstId == g.dstId && f.srcId == g.srcId && f.dataSeq == g.dataSeq && f.msgId == g.msgId
    ensures Covered(f, guid, n) == Covered(g, guid, n)
  {
    hide FrameByte, DataByte, Put16, Put32, Put64, Truncate16;
  }

  lemma SentAssembled(f: Fields, mz: Option<seq<byte>>, guid: seq<byte>, payload: seq<byte>, buffer: seq<byte>)
    requires Secret(mz, f.keyLevel)
    requires |guid| == Offset(f.opcode) - FRAME_HEADER_LEN && |payload| >= 8
    ensures var r := SentFields(f, mz, guid, payload, buffer);
            && r.opcode == f.opcode && r.check == Crc8(buffer) && r.length == Truncate16(|payload| - 8)
            && r.headCheck == Crc8(Covered(r, guid, |payload| - 8))
            && r.dstMac == Hex(Put64(r.dstId)) && r.srcMac == Hex(Put64(r.srcId))
  {
    hide Hex, Put64, Covered, Truncate16, Crc8, RandomKey, BodyKey;
    var r := SentFields(f, mz, guid, payload, buffer);
    assert FrameByte(f) == FrameByte(r) && DataByte(f) == DataByte(r);
    CoveredSame(f, r, guid, |payload| - 8);
  }

  lemma BuildAssembles(c: Aes.Cipher, mz: Option<seq<byte>>, o: Outgoing, clock: u32)
    requires Builds(o.fields.keyLevel) && Secret(mz, o.fields.keyLevel)
    ensures var b := Build(c, mz, o, clock);
            && Assembled(b)
            && b.fields.keyLevel == o.fields.keyLevel
            && b.buffer == o.datacrc + SessionBytes(o.session) + OrEmpty(o.text)
            && b.payload == Payload(c, Timed(o.fields, clock), mz, SessionBytes(o.session), OrEmpty(o.text), b.buffer)
  {
    hide PlainFrame, Payload, GuidArea, Covered, Crc8, SentFields, WithMask, Hex, Put64, Truncate16;
    var b := Build(c, mz, o, clock);
    SentAssembled(Timed(o.fields, clock), mz, b.area, b.payload, b.buffer);
    SentKept(Timed(o.fields, clock), mz, b.area, b.payload, b.buffer);
  }

  /** Up to the keys, the fields read back are the fields sent. */
  lemma DataReadIsReceived(b: Built)
    requires Assembled(b) && Fits(b)
    ensures DataRead(b.fields, b.fields.headCheck, |b.payload| - 8)
         == Received(b.fields).(rk := None, rkXorMz := None)
  {
    hide Hex, Put64, LastPair, Truncate16, PlainFrame, WithMask, Covered, Crc8;
  }

  /** Binary2Msg on a built frame that fits: the body decides. */
  lemma ParseFitting(c: Aes.Cipher, mz: Option<seq<byte>>, b: Built)
    requires Assembled(b) && Arrives(b) && (mz.Some? ==> |mz.value| >= 16)
    requires b.fields.keyLevel < 4 && KnownOpcode(b.fields.opcode)
    ensures var offset := Offset(b.fields.opcode);
            var p := ParseBinary(c, mz, BLANK, b.final);
            && |b.plain| == offset + 8 + |b.payload| && b.plain[offset + 8..] == b.payload
            && (!Fits(b) ==> p.err == Some(WrongLength))
            && (Fits(b) ==>
                p == ParseBody(c, mz, Received(b.fields).(rk := None, rkXorMz := None),
                               GuidPart(b.fields.opcode), b.plain, offset))
  {
    hide PlainFrame, HeaderRead, DataRead, ParseBody, ParseChecked, ParseBinary, Received, Arrives, WithMask;
    hide Covered, Crc8;
    var offset := Offset(b.fields.opcode);
    ParseArrived(c, mz, b);
    ParsePlainFrame(c, mz, b.fields, b.area, b.payload);
    PlainFramePieces(b.fields, b.area, b.payload);
    if Fits(b) {
      DataReadIsReceived(b);
    }
  }

  /** Binary2Msg, in a new message with secret mz, returns no error on s. */
  ghost predicate Accepts(c: Aes.Cipher, mz: Option<seq<byte>>, s: seq<byte>)
    requires Secret(mz, 0)
  {
    ParseBinary(c, mz, BLANK, s).err == None
  }

  /** Binary2Msg, in a new message with secret mz, recovers everything that was sent. */
  ghost predicate Delivers(c: Aes.Cipher, mz: Option<seq<byte>>, b: Built, session: seq<byte>, text: seq<byte>)
    requires Secret(mz, 0)
  {
    Delivered(ParseBinary(c, mz, BLANK, b.final), b, session, text)
  }

  lemma DeliverPlain(c: Aes.Cipher, mz: Option<seq<byte>>, b: Built, d: seq<byte>, session: seq<byte>, text: seq<byte>)
    requires Assembled(b) && Arrives(b) && KnownOpcode(b.fields.opcode) && b.fields.keyLevel == 0 && Secret(mz, 0)
    requires |session| == 8 && b.payload == session + text && b.buffer == d + session + text
    ensures Accepts(c, mz, b.final) <==> |text| < 0x1_0000 && Crc8(d) == 0
    ensures Accepts(c, mz, b.final) ==> Delivers(c, mz, b, session, text)
  {
    hide ParseBinary, Arrives, PlainFrame, Crc8, WithMask, ParsePlainBody, Covered, Hex, Put64, LastPair, Received;
    ParseFitting(c, mz, b);
    if Fits(b) {
      var f := Received(b.fields).(rk := None, rkXorMz := None);
      ReceivedKeys(b.fields);
      PlainBodyRead(f, GuidPart(b.fields.opcode), b, d, session, text);
    }
  }

  lemma ReceivedKeys(f: Fields)
    ensures var r, g := Received(f), Received(f).(rk := None, rkXorMz := None);
            && g.check == f.check && g.length == f.length && g.keyLevel == f.keyLevel
            && g.sequence == f.sequence && g.srcId == f.srcId && g.time == f.time
            && (f.keyLevel == 0 ==> r == g)
            && (f.keyLevel == 1 ==> r == g.(rk := f.rk))
            && (f.keyLevel == 3 ==> r == g.(rk := f.rk, rkXorMz := f.rkXorMz))
  {
    hide LastPair;
  }

  /** An encrypted body at level 1 or 3 opens to the checksum buffer. */
  lemma SealedBody(c: Aes.Cipher, mz: Option<seq<byte>>, f: Fields, guid: Part, u: seq<byte>, offset: nat,
                   buffer: seq<byte>)
    requires (f.keyLevel == 1 || f.keyLevel == 3) && Secret(mz, f.keyLevel)
    requires offset + 16 <= |u| && |buffer| >= 8 && f.check == Crc8(buffer)
    requires u[offset + 8..] == Aes.Encrypted(c, buffer, BodyKey(f, mz)).value
    ensures var sealed, a := f.keyLevel == 3, RandomKey(f.sequence, f.srcId, f.time);
            ParseBody(c, mz, f, guid, u, offset) ==
            Parsed(if sealed then f.(rk := Some(a), rkXorMz := Some(BodyKey(f, mz))) else f.(rk := Some(a)),
                   guid, New(buffer[..8]), if sealed && |buffer| == 8 then Kept else New(buffer[8..]),
                   if sealed then Wire(offset + 8, |u|) else Kept, None)
  {
    hide Crc8, RandomKey, SecretKey, Aes.Encrypted, Aes.Decrypted, OpenBody;
    var a, key := RandomKey(f.sequence, f.srcId, f.time), BodyKey(f, mz);
    if f.keyLevel == 3 {
      SealedBodyRead(c, f.(rk := Some(a), rkXorMz := Some(key)), guid, Wire(offset + 8, |u|), buffer, key, false);
    } else {
      SealedBodyRead(c, f.(rk := Some(a)), guid, Kept, buffer, key, true);
    }
  }

  lemma DeliverSealed(c: Aes.Cipher, mz: Option<seq<byte>>, b: Built, d: seq<byte>, session: seq<byte>, text: seq<byte>)
    requires Assembled(b) && Arrives(b) && KnownOpcode(b.fields.opcode)
    requires (b.fields.keyLevel == 1 || b.fields.keyLevel == 3) && Secret(mz, b.fields.keyLevel)
    requires |session| == 8 && b.buffer == d + session + text
    requires b.payload == Aes.Encrypted(c, b.buffer, BodyKey(b.fields, mz)).value
    requires b.fields.rk == Some(RandomKey(b.fields.sequence, b.fields.srcId, b.fields.time))
    requires b.fields.keyLevel == 3 ==> b.fields.rkXorMz == Some(BodyKey(b.fields, mz))
    ensures Accepts(c, mz, b.final) <==> Fits(b)
    ensures Accepts(c, mz, b.final) ==> (Delivers(c, mz, b, session, text) <==> d == [])
    ensures Accepts(c, mz, b.final) ==> ParseBinary(c, mz, BLANK, b.final).fields == Received(b.fields)
  {
    hide ParseBinary, ParseBody, Arrives, PlainFrame, Crc8, WithMask, Covered, Hex, Put64, RandomKey, SecretKey;
    hide Aes.Encrypted, Received;
    ParseFitting(c, mz, b);
    if Fits(b) {
      var g := Received(b.fields).(rk := None, rkXorMz := None);
      ReceivedKeys(b.fields);
      SealedBody(c, mz, g, GuidPart(b.fields.opcode), b.plain, Offset(b.fields.opcode), b.buffer);
      SplitExactly(d, session, text);
    }
  }

  lemma SealedSize(c: Aes.Cipher, f: Fields, mz: Option<seq<byte>>, session: seq<byte>, text: seq<byte>, buffer: seq<byte>)
    requires (f.keyLevel == 1 || f.keyLevel == 3) && Secret(mz, f.keyLevel) && |session| == 8
    ensures |Payload(c, f, mz, session, text, buffer)| == 16 * (|buffer| / 16) + 16
  {
    hide BodyKey, Aes.Encrypted, Aes.Decrypted;
    Aes.DecryptOfEncrypt(c, buffer, BodyKey(f, mz));
  }

  lemma NextMultiple(n: nat)
    ensures 16 * (n / 16) + 16 < 0x1_0000 + 8 <==> n < 0x1_0000
  {
  }

  /** The ciphertext fits the length field exactly when what is encrypted has under 65536 bytes. */
  lemma SealedFits(c: Aes.Cipher, mz: Option<seq<byte>>, o: Outgoing, clock: u32)
    requires (o.fields.keyLevel == 1 || o.fields.keyLevel == 3) && Secret(mz, o.fields.keyLevel)
    ensures Fits(Build(c, mz, o, clock)) <==> |o.datacrc| + 8 + |OrEmpty(o.text)| < 0x1_0000
  {
    hide Build, SessionBytes, Payload, Assembled, OrEmpty;
    var b := Build(c, mz, o, clock);
    BuildAssembles(c, mz, o, clock);
    SealedSize(c, Timed(o.fields, clock), mz, SessionBytes(o.session), OrEmpty(o.text), b.buffer);
    NextMultiple(|b.buffer|);
  }

  /** Key levels 1 and 3: accepted if and only if the left-over checksum buffer, the session id and the
      text have under 65536 bytes together; the session id and the text come back if and only if,
      besides, nothing was left over. */
  lemma RoundTripSealed(c: Aes.Cipher, mz: Option<seq<byte>>, o: Outgoing, clock: u32)
    requires KnownOpcode(o.fields.opcode) && (o.fields.keyLevel == 1 || o.fields.keyLevel == 3)
    requires Secret(mz, o.fields.keyLevel)
    ensures Accepts(c, mz, Build(c, mz, o, clock).final)
       <==> |o.datacrc| + 8 + |OrEmpty(o.text)| < 0x1_0000
    ensures Delivers(c, mz, Build(c, mz, o, clock), SessionBytes(o.session), OrEmpty(o.text))
       <==> o.datacrc == [] && 8 + |OrEmpty(o.text)| < 0x1_0000
    ensures Accepts(c, mz, Build(c, mz, o, clock).final) ==>
              ParseBinary(c, mz, BLANK, Build(c, mz, o, clock).final).fields == Received(Build(c, mz, o, clock).fields)
  {
    hide Build, Arrives, Accepts, Delivers, Assembled, SessionBytes, BodyKey, RandomKey, Aes.Encrypted;
    hide ParseBinary, Received;
    var b := Build(c, mz, o, clock);
    BuildAssembles(c, mz, o, clock);
    BuiltArrives(c, mz, o, clock);
    BuildKeys(c, mz, o, clock);
    DeliverSealed(c, mz, b, o.datacrc, SessionBytes(o.session), OrEmpty(o.text));
    SealedFits(c, mz, o, clock);
    if Delivers(c, mz, b, SessionBytes(o.session), OrEmpty(o.text)) {
      DeliveredIsAccepted(c, mz, b, SessionBytes(o.session), OrEmpty(o.text));
    }
  }

  lemma DeliveredIsAccepted(c: Aes.Cipher, mz: Option<seq<byte>>, b: Built, session: seq<byte>, text: seq<byte>)
    requires Secret(mz, 0) && Delivers(c, mz, b, session, text)
    ensures Accepts(c, mz, b.final)
  {
    hide ParseBinary;
  }

  lemma BuildKeys(c: Aes.Cipher, mz: Option<seq<byte>>, o: Outgoing, clock: u32)
    requires (o.fields.keyLevel == 1 || o.fields.keyLevel == 3) && Secret(mz, o.fields.keyLevel)
    ensures var f := Build(c, mz, o, clock).fields;
            && f.keyLevel == o.fields.keyLevel
            && BodyKey(f, mz) == BodyKey(Timed(o.fields, clock), mz)
            && f.rk == Some(RandomKey(f.sequence, f.srcId, f.time))
            && (f.keyLevel == 3 ==> f.rkXorMz == Some(BodyKey(f, mz)))
  {
    hide PlainFrame, Payload, GuidArea, Covered, Crc8, WithMask, Hex, Put64, Truncate16, RandomKey, SecretKey;
  }

  /** Key level 0: accepted if and only if the text fits the length field and the checksum buffer
      left over from earlier calls has checksum 0; whatever is accepted is complete. */
  lemma RoundTripPlain(c: Aes.Cipher, mz: Option<seq<byte>>, o: Outgoing, clock: u32)
    requires KnownOpcode(o.fields.opcode) && o.fields.keyLevel == 0 && Secret(mz, 0)
    ensures Accepts(c, mz, Build(c, mz, o, clock).final)
       <==> |OrEmpty(o.text)| < 0x1_0000 && Crc8(o.datacrc) == 0
    ensures Accepts(c, mz, Build(c, mz, o, clock).final)
       ==> Delivers(c, mz, Build(c, mz, o, clock), SessionBytes(o.session), OrEmpty(o.text))
  {
    hide Build, Arrives, Accepts, Delivers, Assembled, SessionBytes;
    var b := Build(c, mz, o, clock);
    BuildAssembles(c, mz, o, clock);
    BuiltArrives(c, mz, o, clock);
    DeliverPlain(c, mz, b, o.datacrc, SessionBytes(o.session), OrEmpty(o.text));
  }

  /** The message object after it was sent: its fields are filled in and its checksum buffer has
      grown, and the session id, the text and the guid are as before. */
  function Resent(o: Outgoing, first: Built): Outgoing {
    o.(fields := first.fields, datacrc := first.buffer)
  }

  /** Sending the same message object again. At level 0 the second frame is accepted, and then
      complete, exactly when the text fits and session id and text have checksum 0. At levels 1 and 3
      it is accepted exactly when session id and text, taken twice, have under 65536 bytes, and never
      gives back what was sent. */
  lemma SecondSend(c: Aes.Cipher, mz: Option<seq<byte>>, o: Outgoing, clock: u32, later: u32)
    requires KnownOpcode(o.fields.opcode) && Builds(o.fields.keyLevel) && Secret(mz, o.fields.keyLevel)
    requires o.datacrc == []
    ensures var session, text := SessionBytes(o.session), OrEmpty(o.text);
            var second := Build(c, mz, Resent(o, Build(c, mz, o, clock)), later);
            if o.fields.keyLevel == 0 then
              && (Accepts(c, mz, second.final) <==> |text| < 0x1_0000 && Crc8(session + text) == 0)
              && (Accepts(c, mz, second.final) ==> Delivers(c, mz, second, session, text))
            else
              && (Accepts(c, mz, second.final) <==> 2 * (8 + |text|) < 0x1_0000)
              && !Delivers(c, mz, second, session, text)
  {
    hide Build, Accepts, Delivers, SessionBytes, Crc8, OrEmpty, KnownOpcode, Secret, Resent;
    var first := Build(c, mz, o, clock);
    FirstLeaves(c, mz, o, clock);
    ResentParts(o, first);
    if o.fields.keyLevel == 0 {
      RoundTripPlain(c, mz, Resent(o, first), later);
    } else {
      RoundTripSealed(c, mz, Resent(o, first), later);
    }
  }

  lemma FirstLeaves(c: Aes.Cipher, mz: Option<seq<byte>>, o: Outgoing, clock: u32)
    requires Builds(o.fields.keyLevel) && Secret(mz, o.fields.keyLevel) && o.datacrc == []
    ensures Build(c, mz, o, clock).buffer == SessionBytes(o.session) + OrEmpty(o.text)
  {
    hide Build, Assembled, SessionBytes, OrEmpty;
    BuildAssembles(c, mz, o, clock);
  }

  lemma ResentParts(o: Outgoing, first: Built)
    ensures var again := Resent(o, first);
            && again.fields == first.fields && again.datacrc == first.buffer
            && again.session == o.session && again.text == o.text
  {
  }

  /** A new message with opcode 2 and the one byte 1 as its text. */
  function OneByteMessage(): (o: Outgoing)
    ensures o.fields.opcode == 2 && o.fields.keyLevel == 0
    ensures o.session == None && o.text == Some([1]) && o.datacrc == []
  {
    Outgoing(BLANK.(opcode := 2), None, None, Some([1]), [])
  }

  lemma NoSession()
    ensures SessionBytes(None) == Zeros(8)
  {
  }

  lemma OneByteChecksum()
    ensures Crc8(Zeros(8) + [1]) != 0
  {
    hide Crc8;
    CrcOfZeros(8);
    CrcResidue(Zeros(8), 1);
  }

  /** Its first frame is accepted and its second is not. */
  lemma SecondSendRefused(c: Aes.Cipher, mz: Option<seq<byte>>, clock: u32, later: u32)
    requires Secret(mz, 0)
    ensures var first := Build(c, mz, OneByteMessage(), clock);
            && Accepts(c, mz, first.final)
            && !Accepts(c, mz, Build(c, mz, Resent(OneByteMessage(), first), later).final)
  {
    hide Build, Accepts, Delivers, Crc8, OneByteMessage, SessionBytes;
    NoSession();
    OneByteChecksum();
    CrcOfNothing();
    RoundTripPlain(c, mz, OneByteMessage(), clock);
    SecondSend(c, mz, OneByteMessage(), clock, later);
  }

  lemma CrcOfNothing()
    ensures Crc8([]) == 0
  {
  }

  // ----- the guid -----

  ghost predicate GuidRecovered(h: ParsedHeader, b: Built, g: seq<byte>) {
    && h.err == None
    && PartFits(h.guid, |b.final|) && Resolve(h.guid, b.final, None) == Some(g)
  }

  /** The guids that survive one encrypted block. */
  predicate OneBlockGuid(g: seq<byte>) {
    1 <= |g| <= 15 || (|g| == 16 && g[15] == 0)
  }

  lemma GuidBlock(g: seq<byte>)
    ensures Aes.Unpad(Aes.Pad(g)[..16]) == Ok(g) <==> OneBlockGuid(g)
  {
    hide Aes.PadWidth;
    var p := Aes.Pad(g);
    if |g| < 16 {
      Aes.PadLength(g);
      assert p[..16] == p;
      Aes.UnpadOfPad(g);
    } else {
      assert p[..16] == g[..16];
      if |g| == 16 {
        assert g[..16] == g;
      }
    }
  }

  /** Header reads the guid out of the clear frame with the key of level 3. */
  lemma HeaderOfArrived(c: Aes.Cipher, mz: Option<seq<byte>>, b: Built)
    requires Assembled(b) && Arrives(b) && Secret(mz, 3)
    requires b.fields.opcode == 3 && b.fields.keyLevel == 3
    ensures var h := ParseHeader(c, mz, BLANK, b.final);
            var d := Aes.Decrypted(c, b.area, BodyKey(b.fields, mz));
            h.err == None && h.guid == if d.Ok? then New(d.value) else Cleared
  {
    hide PlainFrame, WithMask, Crc8, Covered, Hex, Put64, HeaderRead, AddressFields, FlagFields, Clear;
    hide RandomKey, SecretKey, Aes.Decrypted, Refused;
    PlainFramePieces(b.fields, b.area, b.payload);
    HeaderReadKeys(b.fields);
  }

  lemma HeaderReadKeys(f: Fields)
    ensures var h := HeaderRead(f);
            h.opcode == f.opcode && h.sequence == f.sequence && h.srcId == f.srcId && h.time == f.time
  {
    hide Hex, Put64, LastPair;
  }

  /** With opcode 3 and key level 3, Header recovers the guid, masked or not, if and only if it has
      1 to 15 bytes, or 16 bytes of which the last is 0. */
  lemma GuidTransport(c: Aes.Cipher, mz: Option<seq<byte>>, o: Outgoing, clock: u32)
    requires o.fields.opcode == 3 && o.fields.keyLevel == 3 && Secret(mz, 3) && o.guid.Some?
    ensures GuidRecovered(ParseHeader(c, mz, BLANK, Build(c, mz, o, clock).final), Build(c, mz, o, clock), o.guid.value)
       <==> OneBlockGuid(o.guid.value)
  {
    hide Build, Arrives, Assembled, ParseHeader, BodyKey, Aes.Encrypted, Aes.Decrypted, Aes.Unpad, Aes.Pad;
    var b := Build(c, mz, o, clock);
    BuildAssembles(c, mz, o, clock);
    BuiltArrives(c, mz, o, clock);
    BuildKeys(c, mz, o, clock);
    HeaderOfArrived(c, mz, b);
    BuildArea(c, mz, o, clock);
    Aes.DecryptFirstBlock(c, o.guid.value, BodyKey(b.fields, mz));
    GuidBlock(o.guid.value);
  }

  /** A guid of sixteen bytes 1 is lost, whatever else the message holds. */
  lemma FullGuidLost(c: Aes.Cipher, mz: Option<seq<byte>>, o: Outgoing, clock: u32)
    requires o.fields.opcode == 3 && o.fields.keyLevel == 3 && Secret(mz, 3)
    requires o.guid == Some([1, 1, 1, 1, 1, 1, 1, 1, 1, 1, 1, 1, 1, 1, 1, 1])
    ensures !GuidRecovered(ParseHeader(c, mz, BLANK, Build(c, mz, o, clock).final), Build(c, mz, o, clock), o.guid.value)
  {
    hide Build, ParseHeader, GuidRecovered;
    GuidTransport(c, mz, o, clock);
  }

  lemma BuildArea(c: Aes.Cipher, mz: Option<seq<byte>>, o: Outgoing, clock: u32)
    requires o.fields.opcode == 3 && o.fields.keyLevel == 3 && Secret(mz, 3) && o.guid.Some?
    ensures Build(c, mz, o, clock).area
         == Aes.Encrypted(c, o.guid.value, BodyKey(Timed(o.fields, clock), mz)).value[..16]
    ensures Build(c, mz, o, clock).fields.opcode == 3
  {
    hide PlainFrame, Payload, Covered, Crc8, WithMask, BodyKey, SentFields, Aes.Encrypted;
  }
}
