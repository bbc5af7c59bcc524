/** What the message format puts on the wire and what it takes from it, byte by byte, for every message
    and every byte string. */
module MsgWire {
  import opened Bytes
  import opened Crc
  import opened MsgKeys
  import opened MsgCorruption
  import opened MsgFormat
  import opened MsgTheorems
  import Aes

  // ----- fields and bytes -----

  function Weight(on: bool, weight: nat): nat {
    if on then weight else 0
  }

  /** The eight bytes of s from place at on are n in little-endian order, and name is their hexadecimal
      form. */
  ghost predicate Spells(s: seq<byte>, at: nat, n: nat, name: string) {
    && at + 8 <= |s| && |name| == 16
    && forall k :: 0 <= k < 8 ==>
         && s[at + k] == ShiftRight(n, k) % 256
         && name[2 * k] == "0123456789abcdef"[s[at + k] / 16]
         && name[2 * k + 1] == "0123456789abcdef"[s[at + k] % 16]
  }

  lemma {:induction false} HexAt(s: seq<byte>, k: nat)
    ensures |Hex(s)| == 2 * |s|
    ensures k < |s| ==>
              && Hex(s)[2 * k] == "0123456789abcdef"[s[k] / 16]
              && Hex(s)[2 * k + 1] == "0123456789abcdef"[s[k] % 16]
  {
    if |s| > 0 { HexAt(s[1..], if k > 0 then k - 1 else 0); }
  }

  lemma SpellsGet(s: seq<byte>, at: nat)
    requires at + 8 <= |s|
    ensures Spells(s, at, Get64(s[at..at + 8]), Hex(s[at..at + 8]))
  {
    hide Get64, Hex;
    var t := s[at..at + 8];
    HexAt(t, 0);
    forall k | 0 <= k < 8
      ensures s[at + k] == ShiftRight(Get64(t), k) % 256
      ensures Hex(t)[2 * k] == "0123456789abcdef"[s[at + k] / 16]
      ensures Hex(t)[2 * k + 1] == "0123456789abcdef"[s[at + k] % 16]
    {
      Get64Byte(t, k);
      HexAt(t, k);
    }
  }

  // ----- what the parsers take -----

  /** The checks that come first, and the order they are made in. */
  lemma RefusedMeans(s: seq<byte>)
    ensures Refused(s)
         == if |s| == 0 then Some(Empty)
            else if s[0] % 8 !in {1, 2, 3, 5} then Some(WrongOpcode)
            else if |s| < (if s[0] % 8 == 3 then 56 else 40) then Some(TooShort)
            else None
  {
  }

  /** All three parsers stop at the first of these checks that fails; they keep the opcode. */
  lemma RefusedByAll(c: Aes.Cipher, mz: Option<seq<byte>>, f: Fields, s: seq<byte>)
    requires (mz.Some? ==> |mz.value| >= 16) && Refused(s).Some?
    ensures var g := if |s| == 0 then f else f.(opcode := s[0] % 8);
            && ParseFrameHeader(f, s) == (g, Refused(s))
            && ParseHeader(c, mz, f, s) == ParsedHeader(g, Kept, Refused(s))
            && ParseBinary(c, mz, f, s) == Parsed(g, Kept, Kept, Kept, Kept, Refused(s))
  {
  }

  /** The unmasked bytes: masked are the bytes from 8 to 32, or to 40 with a guid, each with the byte that
      byte 4 and its distance from 8 point to. */
  lemma ClearByte(f: Fields, s: seq<byte>, i: nat)
    requires Refused(s) == None && i < |s|
    ensures Clear(f, s)[i]
         == if (f.mask || s[0] / 64 % 2 == 1) && 8 <= i < (if s[0] % 8 == 3 then 40 else 32)
            then XorByte(s[i], s[4 + (i - 8 + s[4]) % 4]) else s[i]
  {
    hide XorByte, MaskRange, Get16, Get32;
    MaskedByte(s, 8, MaskedEnd(OpcodeOf(s[0])), 4, i);
  }

  /** g has the fields of the frame header in s, cleared to u; flags that f had stay set. */
  ghost predicate FrameFields(f: Fields, g: Fields, s: seq<byte>, u: seq<byte>) {
    && |s| == |u| >= 40
    && g.fin == (f.fin || s[0] >= 128) && g.mask == (f.mask || s[0] / 64 % 2 == 1)
    && g.ver == s[0] / 16 % 4 && g.short == (f.short || s[0] / 8 % 2 == 1)
    && g.opcode == s[0] % 8 && g.reserve == s[1]
    && g.sequence == s[2] as int + 256 * s[3] as int
    && g.time == s[4] as int + 256 * (s[5] as int + 256 * (s[6] as int + 256 * s[7] as int))
    && Spells(u, 8, g.dstId, g.dstMac) && Spells(u, 16, g.srcId, g.srcMac)
  }

  /** g has the fields of the data header at offset in u. */
  ghost predicate DataHeaderFields(f: Fields, g: Fields, u: seq<byte>, offset: nat) {
    && offset + 16 <= |u|
    && g.read == (f.read || u[offset] >= 128) && g.ack == (f.ack || u[offset] / 64 % 2 == 1)
    && g.dataFormat == u[offset] / 16 % 4 && g.keyLevel == u[offset] / 4 % 4 && g.encryptType == u[offset] % 4
    && g.dataSeq == u[offset + 1]
    && g.msgId == u[offset + 2] as int + 256 * u[offset + 3] as int
    && g.length == u[offset + 4] as int + 256 * u[offset + 5] as int
  }

  lemma FrameFieldsRead(f: Fields, s: seq<byte>)
    requires Refused(s) == None
    ensures FrameFields(f, AddressFields(FlagFields(f, s), Clear(f, s)), s, Clear(f, s))
  {
    hide Clear, Get16, Get32, Get64, Hex, Spells;
    var u := Clear(f, s);
    GetBytes(s[2..4], s[4..8]);
    SpellsGet(u, 8);
    SpellsGet(u, 16);
  }

  lemma DataFieldsRead(f: Fields, u: seq<byte>, offset: nat)
    requires offset + 16 <= |u|
    ensures DataHeaderFields(f, DataFields(f, u, offset), u, offset)
  {
    hide Get16;
    GetBytes(u[offset + 2..offset + 4], [0, 0, 0, 0]);
    GetBytes(u[offset + 4..offset + 6], [0, 0, 0, 0]);
  }

  /** FrameHeader: the fields of the frame header, or the first check that fails. */
  lemma FrameHeaderMeans(f: Fields, s: seq<byte>)
    ensures ParseFrameHeader(f, s).1 == Refused(s)
    ensures Refused(s) == None ==> FrameFields(f, ParseFrameHeader(f, s).0, s, Clear(f, s))
  {
    hide Clear, AddressFields, FlagFields, FrameFields;
    if Refused(s) == None { FrameFieldsRead(f, s); }
  }

  /** Header: level and message id besides, and with a guid its decrypted block, for which the key is the
      derived key mixed with the secret at every level. */
  lemma HeaderMeans(c: Aes.Cipher, mz: Option<seq<byte>>, f: Fields, s: seq<byte>)
    requires (mz.Some? ==> |mz.value| >= 16) && Refused(s) == None
    ensures var h, u, offset := ParseHeader(c, mz, f, s), Clear(f, s), if s[0] % 8 == 3 then 40 else 24;
            var g := h.fields;
            && (h.err == None <==> s[0] % 8 != 3 || mz.Some?)
            && (h.err.Some? ==> h.err == Some(NoSecret))
            && FrameFields(f, g, s, u) && g.keyLevel == u[offset] / 4 % 4
            && (h.err == None ==> g.msgId == u[offset + 2] as int + 256 * u[offset + 3] as int)
            && (h.err == None && s[0] % 8 == 3 ==>
                  var d := Aes.Decrypted(c, u[24..40], SecretKey(RandomKey(g.sequence, g.srcId, g.time), mz.value));
                  Resolve(h.guid, s, None) == if d.Ok? then Some(d.value) else None)
  {
    hide Clear, AddressFields, FlagFields, Get16, Aes.Decrypted, RandomKey, SecretKey;
    hide Spells;
    var u, g := Clear(f, s), AddressFields(FlagFields(f, s), Clear(f, s));
    FrameFieldsRead(f, s);
    var offset := Offset(g.opcode);
    GetBytes(u[offset + 2..offset + 4], [0, 0, 0, 0]);
  }

  /** The sealed body opens with key: it decrypts to at least the eight bytes of a session id, and to the
      checksum check. */
  ghost predicate Opens(c: Aes.Cipher, body: seq<byte>, key: seq<byte>, check: byte)
    requires |body| > 0
  {
    var d := Aes.Decrypted(c, body, key);
    d.Ok? && |d.value| >= 8 && check == Crc8(d.value)
  }

  /** The body behind the data header is right for its level. */
  ghost predicate BodyRight(c: Aes.Cipher, mz: Option<seq<byte>>, a: seq<byte>, u: seq<byte>, offset: nat)
    requires offset + 16 <= |u| && |a| == 16 && (mz.Some? ==> |mz.value| >= 16)
  {
    var level, body, check := u[offset] / 4 % 4, u[offset + 8..], u[offset + 7];
    if level == 0 then check == Crc8(body)
    else if level == 1 then Opens(c, body, a, check)
    else if level == 2 then true
    else mz.Some? && Opens(c, body, SecretKey(a, mz.value), check)
  }

  /** Binary2Msg accepts a byte string if and only if the first checks pass, the length in the data header
      is that of the text, the header checksum is right, and the body is right for its level. */
  lemma AcceptedExactly(c: Aes.Cipher, mz: Option<seq<byte>>, f: Fields, s: seq<byte>)
    requires (mz.Some? ==> |mz.value| >= 16) && Refused(s) == None
    ensures var p, u, offset := ParseBinary(c, mz, f, s), Clear(f, s), if s[0] % 8 == 3 then 40 else 24;
            var g, a := p.fields, RandomKey(p.fields.sequence, p.fields.srcId, p.fields.time);
            && FrameFields(f, g, s, u) && DataHeaderFields(f, g, u, offset)
            && g.sequence == Get16(s[2..4]) && g.time == Get32(s[4..8]) && g.srcId == Get64(u[16..24])
            && (p.err == None <==>
                  && u[offset + 4] as int + 256 * u[offset + 5] as int == |s| - offset - 16
                  && u[offset + 6] == Crc8(u[..offset + 6])
                  && BodyRight(c, mz, a, u, offset))
            && (p.err == None ==> g.headCheck == u[offset + 6] && g.check == u[offset + 7])
  {
    hide Clear, AddressFields, FlagFields, FrameFields, DataFields, Spells, ParseBody, Crc8, RandomKey, BodyRight;
    hide DataHeaderFields, CheckFields;
    var u, g, p := Clear(f, s), AddressFields(FlagFields(f, s), Clear(f, s)), ParseBinary(c, mz, f, s);
    FrameFieldsRead(f, s);
    HeaderReadKeeps(f, s);
    var offset := Offset(g.opcode);
    DataFieldsRead(g, u, offset);
    var d := DataFields(g, u, offset);
    CheckFieldsMean(d, u, offset);
    var h := CheckFields(d, u, offset);
    LengthIs(g, u, offset);
    BodyDecides(c, mz, h, GuidPart(g.opcode), u, offset);
    assert SameButKeys(p.fields, d) || SameButKeys(p.fields, h);
    LaterFields(f, g, s, u, offset, p.fields);
  }

  lemma HeaderReadKeeps(f: Fields, s: seq<byte>)
    requires Refused(s) == None
    ensures var g := AddressFields(FlagFields(f, s), Clear(f, s));
            && g.opcode == s[0] % 8 && g.read == f.read && g.ack == f.ack
            && g.sequence == Get16(s[2..4]) && g.time == Get32(s[4..8]) && g.srcId == Get64(Clear(f, s)[16..24])
  {
    hide Clear, Get16, Get32, Get64, Hex;
  }

  lemma LengthIs(g: Fields, u: seq<byte>, offset: nat)
    requires offset + 16 <= |u|
    ensures DataFields(g, u, offset).length == u[offset + 4] as int + 256 * u[offset + 5] as int
    ensures DataFields(g, u, offset).keyLevel == u[offset] / 4 % 4
  {
    DataFieldsRead(g, u, offset);
    hide DataFields;
  }

  lemma CheckFieldsMean(d: Fields, u: seq<byte>, offset: nat)
    requires offset + 16 <= |u|
    ensures var h := CheckFields(d, u, offset);
            && h.headCheck == u[offset + 6] && h.check == u[offset + 7] && h.length == d.length
            && h.keyLevel == d.keyLevel && h.sequence == d.sequence && h.srcId == d.srcId && h.time == d.time
  {
  }

  /** The fields of both headers stay when the checksums and the keys are stored. */
  lemma LaterFields(f: Fields, g: Fields, s: seq<byte>, u: seq<byte>, offset: nat, h: Fields)
    requires FrameFields(f, g, s, u) && offset + 16 <= |u| && g.read == f.read && g.ack == f.ack
    requires var d := DataFields(g, u, offset); SameButKeys(h, d) || SameButKeys(h, CheckFields(d, u, offset))
    ensures FrameFields(f, h, s, u) && DataHeaderFields(f, h, u, offset)
    ensures h.sequence == g.sequence && h.time == g.time && h.srcId == g.srcId
  {
    hide Spells, Get16;
    GetBytes(u[offset + 2..offset + 4], [0, 0, 0, 0]);
    GetBytes(u[offset + 4..offset + 6], [0, 0, 0, 0]);
  }

  ghost predicate SameButKeys(h: Fields, d: Fields) {
    h == d.(rk := h.rk, rkXorMz := h.rkXorMz)
  }

  lemma BodyDecides(c: Aes.Cipher, mz: Option<seq<byte>>, f: Fields, guid: Part, u: seq<byte>, offset: nat)
    requires (mz.Some? ==> |mz.value| >= 16) && offset + 16 <= |u|
    requires f.keyLevel == u[offset] / 4 % 4 && f.check == u[offset + 7]
    ensures var p := ParseBody(c, mz, f, guid, u, offset);
            && SameButKeys(p.fields, f)
            && (p.err == None <==> BodyRight(c, mz, RandomKey(f.sequence, f.srcId, f.time), u, offset))
  {
    hide Crc8, RandomKey, SecretKey, Aes.Decrypted, ParseBody;
    BodyErrors(c, mz, f, guid, u, offset);
    BodyKeepsFields(c, mz, f, guid, u, offset);
  }

  lemma BodyKeepsFields(c: Aes.Cipher, mz: Option<seq<byte>>, f: Fields, guid: Part, u: seq<byte>, offset: nat)
    requires (mz.Some? ==> |mz.value| >= 16) && offset + 16 <= |u|
    ensures SameButKeys(ParseBody(c, mz, f, guid, u, offset).fields, f)
  {
    hide Crc8, RandomKey, SecretKey, Aes.Decrypted, OpenBody, ParsePlainBody, SameButKeys;
    var a := RandomKey(f.sequence, f.srcId, f.time);
    KeysOnly(f, f.rk, f.rkXorMz);
    KeysOnly(f, Some(a), f.rkXorMz);
    if mz.Some? { KeysOnly(f, Some(a), Some(SecretKey(a, mz.value))); }
  }

  lemma KeysOnly(f: Fields, rk: Option<seq<byte>>, rkXorMz: Option<seq<byte>>)
    ensures SameButKeys(f, f) && SameButKeys(f.(rk := rk), f) && SameButKeys(f.(rk := rk, rkXorMz := rkXorMz), f)
  {
  }

  // ----- what the builder sends -----

  /** s begins with the frame header of f. */
  ghost predicate FrameHeaderBytes(f: Fields, s: seq<byte>) {
    && |s| >= 24
    && s[0] == Weight(f.fin, 128) + Weight(f.mask, 64) + 16 * (f.ver % 4) + Weight(f.short, 8) + f.opcode % 8
    && s[1] == f.reserve && s[2] == f.sequence % 256 && s[3] == f.sequence / 256
    && (forall k :: 0 <= k < 4 ==> s[4 + k] == ShiftRight(f.time, k) % 256)
    && (forall k :: 0 <= k < 8 ==> s[8 + k] == ShiftRight(f.dstId, k) % 256)
    && (forall k :: 0 <= k < 8 ==> s[16 + k] == ShiftRight(f.srcId, k) % 256)
  }

  /** The data header of f is at offset in s, up to the length. */
  ghost predicate DataHeaderBytes(f: Fields, s: seq<byte>, offset: nat) {
    && |s| >= offset + 4
    && s[offset] == Weight(f.read, 128) + Weight(f.ack, 64) + 16 * (f.dataFormat % 4) + 4 * (f.keyLevel % 4)
                    + f.encryptType % 4
    && s[offset + 1] == f.dataSeq && s[offset + 2] == f.msgId % 256 && s[offset + 3] == f.msgId / 256
  }

  lemma FrameHeaderSpelled(f: Fields, s: seq<byte>)
    requires FrameHeaderAt(s, f)
    ensures FrameHeaderBytes(f, s)
  {
    hide Little, ShiftRight;
    PutBytes(f.sequence, f.time);
    assert s[2] == s[2..4][0] && s[3] == s[2..4][1];
    forall k | 0 <= k < 4 ensures s[4 + k] == ShiftRight(f.time, k) % 256 {
      LittleAt(f.time, 4, k);
      assert s[4 + k] == s[4..8][k];
    }
    forall k | 0 <= k < 8
      ensures s[8 + k] == ShiftRight(f.dstId, k) % 256
      ensures s[16 + k] == ShiftRight(f.srcId, k) % 256
    {
      LittleAt(f.dstId, 8, k);
      LittleAt(f.srcId, 8, k);
      assert s[8 + k] == s[8..16][k] && s[16 + k] == s[16..24][k];
    }
  }

  lemma DataHeaderSpelled(f: Fields, s: seq<byte>, payload: seq<byte>, offset: nat)
    requires DataHeaderAt(s, f, payload, offset)
    ensures DataHeaderBytes(f, s, offset)
    ensures s[offset + 4] == (|payload| - 8) % 256 && s[offset + 5] == (|payload| - 8) / 256 % 256
    ensures s[offset + 7] == f.check && s[offset + 8..] == payload
  {
    hide Little;
    var n := |payload| - 8;
    PutBytes(f.msgId, 0);
    PutBytes(Truncate16(n), 0);
    LowerHalf(n);
    var a, b := s[offset + 2..offset + 4], s[offset + 4..offset + 6];
    assert a[0] == s[offset + 2] && a[1] == s[offset + 3] && b[0] == s[offset + 4] && b[1] == s[offset + 5];
  }

  lemma LowerHalf(n: nat)
    ensures Truncate16(n) == n % 65536 && n % 65536 % 256 == n % 256 && n % 65536 / 256 == n / 256 % 256
  {
    var q, m := n / 65536, n % 65536;
    var x, y := m / 256, m % 256;
    assert n == 65536 * q + 256 * x + y;
    assert n == 256 * (256 * q + x) + y;
    assert n / 256 == 256 * q + x;
  }

  /** What building changes of the fields: the names, the keys, the length and the checksums. */
  lemma SentChanges(f: Fields, mz: Option<seq<byte>>, area: seq<byte>, payload: seq<byte>, buffer: seq<byte>)
    requires Secret(mz, f.keyLevel) && |area| == Offset(f.opcode) - FRAME_HEADER_LEN && |payload| >= 8
    ensures var r := SentFields(f, mz, area, payload, buffer);
            && r == f.(dstMac := r.dstMac, srcMac := r.srcMac, rk := r.rk, rkXorMz := r.rkXorMz,
                       length := r.length, headCheck := r.headCheck, check := r.check)
            && r.dstMac == Hex(Put64(f.dstId)) && r.srcMac == Hex(Put64(f.srcId))
            && r.length == (|payload| - 8) % 65536 && r.check == Crc8(buffer)
  {
    hide Hex, Put64, Covered, Crc8, RandomKey, BodyKey;
    LowerHalf(|payload| - 8);
    hide Truncate16;
  }

  /** t is the session id in eight bytes: its first eight, and zeros where it has fewer. */
  ghost predicate SessionSent(session: Option<seq<byte>>, t: seq<byte>) {
    && |t| == 8
    && forall k :: 0 <= k < 8 ==> t[k] == if session.Some? && k < |session.value| then session.value[k] else 0
  }

  lemma SessionPadded(session: Option<seq<byte>>, t: seq<byte>)
    ensures SessionSent(session, t) <==> t == SessionBytes(session)
  {
    var p := SessionBytes(session);
    assert forall k :: 0 <= k < 8 ==> p[k] == if session.Some? && k < |session.value| then session.value[k] else 0;
    if SessionSent(session, t) { assert t == p; }
  }

  /** The sender's own fields, with the clock for a missing time. */
  function Sending(o: Outgoing, clock: u32): Fields {
    o.fields.(time := if o.fields.time == 0 then clock else o.fields.time)
  }

  /** Both headers of the frame before masking have the sender's fields, the length of the payload without
      a session id, and the checksum of all bytes before it. */
  ghost predicate HeadersOnWire(o: Outgoing, clock: u32, b: Built) {
    var f, s, n, offset := Sending(o, clock), b.plain, |b.payload| - 8, if o.fields.opcode == 3 then 40 else 24;
    && n >= 0 && |s| == offset + 8 + |b.payload|
    && FrameHeaderBytes(f, s) && DataHeaderBytes(f, s, offset)
    && s[offset + 4] == n % 256 && s[offset + 5] == n / 256 % 256
    && s[offset + 6] == Crc8(s[..offset + 6]) && s[offset + 7] == Crc8(b.buffer)
    && s[offset + 8..] == b.payload
  }

  /** The fields of the message after building: names, length, checksums and keys are filled in, and all
      others are the sender's. */
  ghost predicate FieldsFilledIn(o: Outgoing, clock: u32, b: Built) {
    var f, offset := Sending(o, clock), if o.fields.opcode == 3 then 40 else 24;
    && |b.payload| >= 8 && |b.plain| >= offset + 16
    && b.fields == f.(dstMac := Hex(Put64(f.dstId)), srcMac := Hex(Put64(f.srcId)),
                      length := (|b.payload| - 8) % 65536, headCheck := b.plain[offset + 6],
                      check := Crc8(b.buffer), rk := b.fields.rk, rkXorMz := b.fields.rkXorMz)
  }

  /** What is checked is left-over buffer, session id and text; the payload is session id and text, or all
      three encrypted with the derived key, at level 3 mixed with the secret. */
  ghost predicate BodyOnWire(c: Aes.Cipher, mz: Option<seq<byte>>, o: Outgoing, clock: u32, session: seq<byte>, b: Built)
    requires Secret(mz, o.fields.keyLevel)
  {
    var f, text := Sending(o, clock), if o.text.Some? then o.text.value else [];
    var derived := RandomKey(f.sequence, f.srcId, f.time);
    && b.buffer == o.datacrc + session + text
    && (f.keyLevel == 0 ==> b.payload == session + text)
    && (f.keyLevel == 1 ==> Ok(b.payload) == Aes.Encrypted(c, b.buffer, derived))
    && (f.keyLevel == 3 ==> Ok(b.payload) == Aes.Encrypted(c, b.buffer, SecretKey(derived, mz.value)))
  }

  lemma BuiltHeaders(c: Aes.Cipher, mz: Option<seq<byte>>, o: Outgoing, clock: u32)
    requires Builds(o.fields.keyLevel) && Secret(mz, o.fields.keyLevel)
    ensures HeadersOnWire(o, clock, Build(c, mz, o, clock)) && FieldsFilledIn(o, clock, Build(c, mz, o, clock))
  {
    hide Build, PlainFrame, Payload, Crc8, Covered, SentFields, FrameHeaderBytes, DataHeaderBytes, Hex, Put64;
    hide FrameHeaderAt, DataHeaderAt, HeadersOnWire;
    var b := Build(c, mz, o, clock);
    BuildAssembles(c, mz, o, clock);
    BuiltFields(c, mz, o, clock);
    PlainFramePieces(b.fields, b.area, b.payload);
    HeadersSpelled(o, clock, b);
  }

  lemma HeadersSpelled(o: Outgoing, clock: u32, b: Built)
    requires var f, offset := Timed(o.fields, clock), Offset(o.fields.opcode);
             && b.fields == f.(dstMac := b.fields.dstMac, srcMac := b.fields.srcMac, length := b.fields.length,
                               check := Crc8(b.buffer), headCheck := b.fields.headCheck,
                               rk := b.fields.rk, rkXorMz := b.fields.rkXorMz)
             && FrameHeaderAt(b.plain, b.fields) && DataHeaderAt(b.plain, b.fields, b.payload, offset)
             && b.plain[offset + 6] == Crc8(b.plain[..offset + 6])
    ensures HeadersOnWire(o, clock, b)
  {
    hide Crc8, FrameHeaderBytes, DataHeaderBytes;
    FrameHeaderSpelled(b.fields, b.plain);
    DataHeaderSpelled(b.fields, b.plain, b.payload, Offset(o.fields.opcode));
    SameHeaders(b.fields, Timed(o.fields, clock), b.plain, Offset(o.fields.opcode));
  }

  lemma BuiltBody(c: Aes.Cipher, mz: Option<seq<byte>>, o: Outgoing, clock: u32, session: seq<byte>)
    requires Builds(o.fields.keyLevel) && Secret(mz, o.fields.keyLevel) && SessionSent(o.session, session)
    ensures BodyOnWire(c, mz, o, clock, session, Build(c, mz, o, clock))
  {
    hide Build, Payload, RandomKey, SecretKey, Aes.Encrypted, SessionBytes, Assembled, SessionSent;
    SessionPadded(o.session, session);
    BuildAssembles(c, mz, o, clock);
    PayloadIs(c, Timed(o.fields, clock), mz, session, OrEmpty(o.text), Build(c, mz, o, clock).buffer);
  }

  lemma BuiltFields(c: Aes.Cipher, mz: Option<seq<byte>>, o: Outgoing, clock: u32)
    requires Builds(o.fields.keyLevel) && Secret(mz, o.fields.keyLevel)
    ensures var b, f := Build(c, mz, o, clock), Timed(o.fields, clock);
            && b.fields == f.(dstMac := Hex(Put64(f.dstId)), srcMac := Hex(Put64(f.srcId)),
                              length := (|b.payload| - 8) % 65536, check := Crc8(b.buffer),
                              headCheck := b.fields.headCheck, rk := b.fields.rk, rkXorMz := b.fields.rkXorMz)
            && b.fields.headCheck == Crc8(Covered(b.fields, b.area, |b.payload| - 8))
  {
    hide PlainFrame, Payload, GuidArea, Crc8, Covered, SentFields, Hex, Put64, WithMask, SessionBytes;
    var b, f := Build(c, mz, o, clock), Timed(o.fields, clock);
    SentChanges(f, mz, b.area, b.payload, b.buffer);
    BuildAssembles(c, mz, o, clock);
  }

  lemma SameHeaders(r: Fields, f: Fields, s: seq<byte>, offset: nat)
    requires r == f.(dstMac := r.dstMac, srcMac := r.srcMac, rk := r.rk, rkXorMz := r.rkXorMz,
                     length := r.length, headCheck := r.headCheck, check := r.check)
    ensures FrameHeaderBytes(r, s) <==> FrameHeaderBytes(f, s)
    ensures DataHeaderBytes(r, s, offset) <==> DataHeaderBytes(f, s, offset)
    ensures forall time: u32 :: DataHeaderBytes(f.(time := time), s, offset) <==> DataHeaderBytes(f, s, offset)
  {
    hide ShiftRight;
  }

  lemma PayloadIs(c: Aes.Cipher, f: Fields, mz: Option<seq<byte>>, session: seq<byte>, text: seq<byte>, buffer: seq<byte>)
    requires Secret(mz, f.keyLevel) && |session| == 8 && Builds(f.keyLevel)
    ensures var payload, derived := Payload(c, f, mz, session, text, buffer), RandomKey(f.sequence, f.srcId, f.time);
            && (f.keyLevel == 0 ==> payload == session + text)
            && (f.keyLevel == 1 ==> Ok(payload) == Aes.Encrypted(c, buffer, derived))
            && (f.keyLevel == 3 ==> Ok(payload) == Aes.Encrypted(c, buffer, SecretKey(derived, mz.value)))
  {
    hide Aes.Encrypted, RandomKey, SecretKey;
  }

  /** The frame that is sent: masked like the clear bytes are unmasked. */
  lemma MaskedOnWire(c: Aes.Cipher, mz: Option<seq<byte>>, o: Outgoing, clock: u32, i: nat)
    requires Builds(o.fields.keyLevel) && Secret(mz, o.fields.keyLevel) && i < |Build(c, mz, o, clock).final|
    ensures var b, end := Build(c, mz, o, clock), if o.fields.opcode == 3 then 40 else 32;
            && |b.plain| == |b.final| >= 40
            && b.final[i] == if o.fields.mask && 8 <= i < end
                             then XorByte(b.plain[i], b.plain[4 + (i - 8 + b.plain[4]) % 4]) else b.plain[i]
  {
    hide Payload, GuidArea, SentFields, PlainFrame, SessionBytes, XorByte, MaskRange;
    var b := Build(c, mz, o, clock);
    MaskedByte(b.plain, 8, MaskedEnd(o.fields.opcode), 4, i);
  }

  /** The guid in the frame: its first encrypted block at level 3, and zeros at the other levels and without
      a guid. */
  lemma GuidOnWire(c: Aes.Cipher, mz: Option<seq<byte>>, o: Outgoing, clock: u32)
    requires Builds(o.fields.keyLevel) && Secret(mz, o.fields.keyLevel) && o.fields.opcode == 3
    ensures var b, f := Build(c, mz, o, clock), Sending(o, clock);
            && |b.plain| >= 40
            && b.plain[24..40] ==
               if f.keyLevel == 3 && o.guid.Some? then
                 Aes.Encrypted(c, o.guid.value, SecretKey(RandomKey(f.sequence, f.srcId, f.time), mz.value)).value[..16]
               else Zeros(16)
  {
    hide Payload, SentFields, PlainFrame, SessionBytes, Crc8, RandomKey, SecretKey, Aes.Encrypted, WithMask, Covered;
    var b := Build(c, mz, o, clock);
    BuildAssembles(c, mz, o, clock);
    PlainFramePieces(b.fields, b.area, b.payload);
  }

  // ----- from sender to receiver -----

  /** g has the fields that were sent as f, those of two bits cut to their width. */
  ghost predicate FieldsArrived(f: Fields, g: Fields) {
    && g.fin == f.fin && g.mask == f.mask && g.ver == f.ver % 4 && g.short == f.short && g.opcode == f.opcode
    && g.reserve == f.reserve && g.sequence == f.sequence && g.time == f.time
    && g.dstId == f.dstId && g.srcId == f.srcId
    && g.read == f.read && g.ack == f.ack && g.dataFormat == f.dataFormat % 4
    && g.keyLevel == f.keyLevel && g.encryptType == f.encryptType % 4
    && g.dataSeq == f.dataSeq && g.msgId == f.msgId
  }

  /** Binary2Msg, in a new message, takes final without an error and leaves the sender's own fields, the
      session id in eight bytes, and the text. */
  ghost predicate Recovers(c: Aes.Cipher, mz: Option<seq<byte>>, o: Outgoing, clock: u32, final: seq<byte>)
    requires Secret(mz, 0)
  {
    var p := ParseBinary(c, mz, BLANK, final);
    var session, text := Resolve(p.session, final, None), Resolve(p.text, final, None);
    && p.err == None && FieldsArrived(Sending(o, clock), p.fields)
    && session.Some? && SessionSent(o.session, session.value)
    && (if text.Some? then text.value else []) == (if o.text.Some? then o.text.value else [])
  }

  /** At level 0 the text has under 65536 bytes and the left-over checksum buffer has checksum 0; at levels 1
      and 3 nothing was left over and session id and text have under 65536 bytes. */
  ghost predicate Sendable(o: Outgoing) {
    var n := if o.text.Some? then |o.text.value| else 0;
    if o.fields.keyLevel == 0 then n < 65536 && Crc8(o.datacrc) == 0 else o.datacrc == [] && 8 + n < 65536
  }

  /** What is built from a message is recovered. */
  ghost predicate Survives(c: Aes.Cipher, mz: Option<seq<byte>>, o: Outgoing, clock: u32)
    requires Builds(o.fields.keyLevel) && Secret(mz, o.fields.keyLevel)
  {
    Recovers(c, mz, o, clock, Build(c, mz, o, clock).final)
  }

  /** A message arrives as it was sent, masked or not, if and only if it is sendable. */
  lemma RoundTrip(c: Aes.Cipher, mz: Option<seq<byte>>, o: Outgoing, clock: u32)
    requires o.fields.opcode == 1 || o.fields.opcode == 2 || o.fields.opcode == 3 || o.fields.opcode == 5
    requires o.fields.keyLevel == 0 || o.fields.keyLevel == 1 || o.fields.keyLevel == 3
    requires Secret(mz, o.fields.keyLevel)
    ensures Survives(c, mz, o, clock) <==> Sendable(o)
  {
    hide Build, Accepts, Delivers, Recovers, SessionBytes, Crc8, FieldsFilledIn;
    var b := Build(c, mz, o, clock);
    BuiltHeaders(c, mz, o, clock);
    if o.fields.keyLevel == 0 {
      RoundTripPlain(c, mz, o, clock);
    } else {
      RoundTripSealed(c, mz, o, clock);
    }
    if Delivers(c, mz, b, SessionBytes(o.session), OrEmpty(o.text)) {
      DeliveredIsRecovered(c, mz, o, clock, b);
    }
    if Recovers(c, mz, o, clock, b.final) { RecoveredIsAccepted(c, mz, o, clock, b); }
  }

  lemma DeliveredIsRecovered(c: Aes.Cipher, mz: Option<seq<byte>>, o: Outgoing, clock: u32, b: Built)
    requires Secret(mz, 0) && FieldsFilledIn(o, clock, b)
    requires Delivers(c, mz, b, SessionBytes(o.session), OrEmpty(o.text))
    ensures Recovers(c, mz, o, clock, b.final)
  {
    hide ParseBinary, SessionBytes, SessionSent, Hex, Put64, Crc8;
    SessionPadded(o.session, SessionBytes(o.session));
  }

  lemma RecoveredIsAccepted(c: Aes.Cipher, mz: Option<seq<byte>>, o: Outgoing, clock: u32, b: Built)
    requires Secret(mz, 0) && Recovers(c, mz, o, clock, b.final)
    ensures Accepts(c, mz, b.final)
    ensures ParseBinary(c, mz, BLANK, b.final).fields == Received(b.fields) ==>
              Delivers(c, mz, b, SessionBytes(o.session), OrEmpty(o.text))
  {
    hide ParseBinary, SessionBytes, SessionSent, Received;
    SessionPadded(o.session, Resolve(ParseBinary(c, mz, BLANK, b.final).session, b.final, None).value);
  }

  // ----- the checksum of the body -----

  /** At every level but 2, the byte behind the header checksum of an accepted frame is the checksum of the
      session id and the text that it delivers. */
  lemma BodyChecksumHolds(c: Aes.Cipher, mz: Option<seq<byte>>, s: seq<byte>)
    requires Secret(mz, 0) && Accepts(c, mz, s) && Refused(s) == None
    requires var offset := if s[0] % 8 == 3 then 40 else 24; Clear(BLANK, s)[offset] / 4 % 4 != 2
    ensures var p, offset := ParseBinary(c, mz, BLANK, s), if s[0] % 8 == 3 then 40 else 24;
            var session, text := Resolve(p.session, s, None), Resolve(p.text, s, None);
            && session.Some? && |session.value| == 8
            && Clear(BLANK, s)[offset + 7] == Crc8(session.value + if text.Some? then text.value else [])
  {
    hide ParseBinary, Clear, Crc8;
    AcceptedExactly(c, mz, BLANK, s);
    StoredExactly(c, mz, s);
  }

  lemma StoredExactly(c: Aes.Cipher, mz: Option<seq<byte>>, s: seq<byte>)
    requires Secret(mz, 0) && Accepts(c, mz, s) && Refused(s) == None
    ensures var p, u, offset := ParseBinary(c, mz, BLANK, s), Clear(BLANK, s), if s[0] % 8 == 3 then 40 else 24;
            var level, a := u[offset] / 4 % 4, RandomKey(p.fields.sequence, p.fields.srcId, p.fields.time);
            var session, text := Resolve(p.session, s, None), Resolve(p.text, s, None);
            var all := (if session.Some? then session.value else []) + (if text.Some? then text.value else []);
            && (level != 2 ==> session.Some? && |session.value| == 8)
            && (level == 0 ==> all == u[offset + 8..] == s[offset + 8..])
            && (level == 1 ==> Aes.Decrypted(c, u[offset + 8..], a) == Ok(all))
            && (level == 2 ==> session == None && text == None)
            && (level == 3 ==> mz.Some? && Aes.Decrypted(c, u[offset + 8..], SecretKey(a, mz.value)) == Ok(all))
  {
    hide Clear, AddressFields, FlagFields, DataFields, ParseBody, Crc8, RandomKey, SecretKey, Aes.Decrypted;
    hide CheckFields;
    var u, g, p := Clear(BLANK, s), AddressFields(FlagFields(BLANK, s), Clear(BLANK, s)), ParseBinary(c, mz, BLANK, s);
    HeaderReadKeeps(BLANK, s);
    var offset := Offset(g.opcode);
    var d := DataFields(g, u, offset);
    LengthIs(g, u, offset);
    CheckFieldsMean(d, u, offset);
    BodyBytesClear(s, offset);
    BodyKept(c, mz, CheckFields(d, u, offset), GuidPart(g.opcode), u, s, offset);
  }

  lemma BodyBytesClear(s: seq<byte>, offset: nat)
    requires Refused(s) == None && offset == if s[0] % 8 == 3 then 40 else 24
    ensures Clear(BLANK, s)[offset + 8..] == s[offset + 8..]
  {
    hide Clear;
    forall i | offset + 8 <= i < |s| ensures Clear(BLANK, s)[i] == s[i] {
      ClearByte(BLANK, s, i);
    }
  }

  lemma BodyKept(c: Aes.Cipher, mz: Option<seq<byte>>, f: Fields, guid: Part, u: seq<byte>, s: seq<byte>, offset: nat)
    requires (mz.Some? ==> |mz.value| >= 16) && |u| == |s| >= offset + 16 && u[offset + 8..] == s[offset + 8..]
    requires f.keyLevel < 4 && f.length == |u| - offset - 16 && PartFits(guid, |s|)
    requires ParseBody(c, mz, f, guid, u, offset).err == None
    ensures var p, a := ParseBody(c, mz, f, guid, u, offset), RandomKey(f.sequence, f.srcId, f.time);
            var session, text := Resolve(p.session, s, None), Resolve(p.text, s, None);
            var all := (if session.Some? then session.value else []) + (if text.Some? then text.value else []);
            && SameButKeys(p.fields, f)
            && (f.keyLevel != 2 ==> session.Some? && |session.value| == 8)
            && (f.keyLevel == 0 ==> all == u[offset + 8..])
            && (f.keyLevel == 1 ==> Aes.Decrypted(c, u[offset + 8..], a) == Ok(all))
            && (f.keyLevel == 2 ==> session == None && text == None)
            && (f.keyLevel == 3 ==> mz.Some? && Aes.Decrypted(c, u[offset + 8..], SecretKey(a, mz.value)) == Ok(all))
  {
    hide Crc8, RandomKey, SecretKey, Aes.Decrypted, OpenBody, ParsePlainBody, Resolve, PartsFit, PartFits;
    var a := RandomKey(f.sequence, f.srcId, f.time);
    if f.keyLevel == 0 {
      PlainBodyKept(f, guid, u, s, offset);
    } else if f.keyLevel == 1 {
      OpenedBodyKept(f.(rk := Some(a)), guid, Kept, Aes.Decrypted(c, u[offset + 8..], a), true, s);
    } else if f.keyLevel == 2 {
      NothingKept(s);
    } else if mz.Some? {
      var key := SecretKey(a, mz.value);
      OpenedBodyKept(f.(rk := Some(a), rkXorMz := Some(key)), guid, Part.Wire(offset + 8, |u|),
                     Aes.Decrypted(c, u[offset + 8..], key), false, s);
    }
  }

  lemma NothingKept(s: seq<byte>)
    ensures Resolve(Kept, s, None) == None
  {
  }

  lemma PlainBodyKept(f: Fields, guid: Part, u: seq<byte>, s: seq<byte>, offset: nat)
    requires |u| == |s| >= offset + 16 && u[offset + 8..] == s[offset + 8..] && PartFits(guid, |s|)
    requires f.length == |u| - offset - 16 && ParsePlainBody(f, guid, u, offset).err == None
    ensures var p := ParsePlainBody(f, guid, u, offset);
            var session, text := Resolve(p.session, s, None), Resolve(p.text, s, None);
            && session.Some? && |session.value| == 8
            && session.value + (if text.Some? then text.value else []) == u[offset + 8..]
  {
    hide Crc8;
    assert u[offset + 8..] == s[offset + 8..offset + 16] + s[offset + 16..];
    assert f.length == 0 ==> s[offset + 16..] == [];
  }

  lemma OpenedBodyKept(f: Fields, guid: Part, cipher: Part, d: Result<seq<byte>, Aes.Error>, keepEmpty: bool, s: seq<byte>)
    requires OpenBody(f, guid, cipher, d, keepEmpty).err == None
    ensures var p := OpenBody(f, guid, cipher, d, keepEmpty);
            && PartFits(p.session, |s|) && PartFits(p.text, |s|)
            && var session, text := Resolve(p.session, s, None), Resolve(p.text, s, None);
               && session.Some? && |session.value| == 8
               && d == Ok(session.value + if text.Some? then text.value else [])
  {
    hide Crc8;
    assert d.value == d.value[..8] + d.value[8..];
  }

  /** Which error is returned: that of the first check that fails, in the order length, header checksum,
      secret, padding, size of the plaintext, body checksum. */
  lemma ErrorsMean(c: Aes.Cipher, mz: Option<seq<byte>>, f: Fields, s: seq<byte>)
    requires (mz.Some? ==> |mz.value| >= 16) && Refused(s) == None
    ensures var p, u, offset := ParseBinary(c, mz, f, s), Clear(f, s), if s[0] % 8 == 3 then 40 else 24;
            var level, a := u[offset] / 4 % 4, RandomKey(Get16(s[2..4]), Get64(u[16..24]), Get32(s[4..8]));
            p.err == if u[offset + 4] as int + 256 * u[offset + 5] as int != |s| - offset - 16 then Some(WrongLength)
                     else if u[offset + 6] != Crc8(u[..offset + 6]) then Some(WrongHeaderChecksum)
                     else BodyError(c, mz, a, level, u[offset + 8..], u[offset + 7])
  {
    hide Clear, AddressFields, FlagFields, DataFields, ParseBody, Crc8, RandomKey, CheckFields, BodyError;
    var u, g := Clear(f, s), AddressFields(FlagFields(f, s), Clear(f, s));
    HeaderReadKeeps(f, s);
    var offset := Offset(g.opcode);
    var d := DataFields(g, u, offset);
    LengthIs(g, u, offset);
    CheckFieldsMean(d, u, offset);
    AddressesStay(g, u, offset);
    BodyErrors(c, mz, CheckFields(d, u, offset), GuidPart(g.opcode), u, offset);
  }

  lemma AddressesStay(g: Fields, u: seq<byte>, offset: nat)
    requires offset + 16 <= |u|
    ensures var d := DataFields(g, u, offset); d.sequence == g.sequence && d.srcId == g.srcId && d.time == g.time
  {
    hide Get16;
  }

  ghost function BodyError(
    c: Aes.Cipher, mz: Option<seq<byte>>, a: seq<byte>, level: byte, body: seq<byte>, check: byte): Option<Error>
    requires level < 4 && |body| > 0 && |a| == 16 && (mz.Some? ==> |mz.value| >= 16)
  {
    if level == 0 then if check == Crc8(body) then None else Some(WrongBodyChecksum)
    else if level == 2 then None
    else if level == 3 && mz == None then Some(NoSecret)
    else
      var d := Aes.Decrypted(c, body, if level == 1 then a else SecretKey(a, mz.value));
      if d.Err? then Some(CannotDecrypt)
      else if |d.value| < 8 then Some(PlaintextTooShort)
      else if check == Crc8(d.value) then None else Some(WrongBodyChecksum)
  }

  lemma BodyErrors(c: Aes.Cipher, mz: Option<seq<byte>>, f: Fields, guid: Part, u: seq<byte>, offset: nat)
    requires (mz.Some? ==> |mz.value| >= 16) && offset + 16 <= |u| && f.keyLevel < 4
    ensures ParseBody(c, mz, f, guid, u, offset).err
         == BodyError(c, mz, RandomKey(f.sequence, f.srcId, f.time), f.keyLevel, u[offset + 8..], f.check)
  {
    hide Crc8, RandomKey, SecretKey, Aes.Decrypted;
  }

  /** The guid slice and, at level 3 with a secret, the ciphertext slice that an accepted frame leaves. */
  lemma SlicesKept(c: Aes.Cipher, mz: Option<seq<byte>>, s: seq<byte>)
    requires Secret(mz, 0) && Accepts(c, mz, s) && Refused(s) == None
    ensures var p, offset := ParseBinary(c, mz, BLANK, s), if s[0] % 8 == 3 then 40 else 24;
            && Resolve(p.guid, s, None) == (if offset == 40 then Some(s[24..40]) else None)
            && Resolve(p.cipher, s, None)
               == if Clear(BLANK, s)[offset] / 4 % 4 == 3 then Some(s[offset + 8..]) else None
  {
    hide Clear, AddressFields, FlagFields, DataFields, ParseBody, Crc8, CheckFields;
    var u, g := Clear(BLANK, s), AddressFields(FlagFields(BLANK, s), Clear(BLANK, s));
    HeaderReadKeeps(BLANK, s);
    var offset := Offset(g.opcode);
    var d := DataFields(g, u, offset);
    LengthIs(g, u, offset);
    CheckFieldsMean(d, u, offset);
    CipherKept(c, mz, CheckFields(d, u, offset), GuidPart(g.opcode), u, offset);
    assert s[offset + 8..|u|] == s[offset + 8..];
  }

  lemma CipherKept(c: Aes.Cipher, mz: Option<seq<byte>>, f: Fields, guid: Part, u: seq<byte>, offset: nat)
    requires (mz.Some? ==> |mz.value| >= 16) && offset + 16 <= |u| && f.keyLevel < 4
    requires ParseBody(c, mz, f, guid, u, offset).err == None
    ensures ParseBody(c, mz, f, guid, u, offset).cipher
         == if f.keyLevel == 3 then Part.Wire(offset + 8, |u|) else Kept
  {
    hide Crc8, RandomKey, SecretKey, Aes.Decrypted;
  }

  /** No frame that differs from an accepted one only in the checksum of the body is accepted, at levels 0,
      1 and 3. */
  lemma BodyChecksumChanged(c: Aes.Cipher, mz: Option<seq<byte>>, s: seq<byte>, t: seq<byte>)
    requires Secret(mz, 0) && Accepts(c, mz, s) && Refused(s) == None
    requires var offset := if s[0] % 8 == 3 then 40 else 24;
             && Clear(BLANK, s)[offset] / 4 % 4 != 2
             && AgreeExcept(s, t, offset + 7) && s[offset + 7] != t[offset + 7]
    ensures !Accepts(c, mz, t)
  {
    hide ParseBinary, Clear, Crc8, RandomKey, SecretKey, Aes.Decrypted, FrameFields, DataHeaderFields, Get16, Get32, Get64;
    var i := if s[0] % 8 == 3 then 47 else 31;
    SameStart(s, t, i);
    var u, v := Clear(BLANK, s), Clear(BLANK, t);
    ClearAgrees(s, t, i);
    assert u[16..24] == v[16..24] && u[i + 1..] == v[i + 1..];
    AcceptedExactly(c, mz, BLANK, s);
    AcceptedExactly(c, mz, BLANK, t);
  }

  lemma SameStart(s: seq<byte>, t: seq<byte>, i: nat)
    requires i >= 8 && |s| > i && AgreeExcept(s, t, i)
    ensures s[0] == t[0] && s[2..4] == t[2..4] && s[4..8] == t[4..8] && Refused(s) == Refused(t)
  {
  }
}
