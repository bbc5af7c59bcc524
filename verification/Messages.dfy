/** The message object of src/octopus/msgs/msg.go: parsing in place, and building. */
module Messages {
  import opened Bytes
  import opened Crc
  import opened MsgKeys
  import opened MsgFormat
  import opened MsgTheorems
  import opened Slices
  import Aes

  /** A slice field after parsing, as long as the received array is unmasked. */
  ghost predicate Matches(p: Part, now: Slice, was: Slice, final: array<byte>)
    reads if now.View? then {now.a} else {}
  {
    match p
    case Kept => now == was
    case Wire(lo, hi) => lo <= hi <= final.Length && now == View(final, lo, hi)
    case New(bytes) => now.View? && now.a != final && Contents(now) == Some(bytes)
    case Cleared => now == Nil
  }

  class Msg {
    var MZ: Option<seq<byte>>

    /** The FH and DH fields that are numbers, flags or texts, and the keys RK and RKXORMZ. */
    var values: Fields

    var FHGuid: Slice
    var DHSessionId: Slice
    var datacrc: seq<byte>
    var Text: Slice
    var Final: array?<byte>
    var CIPHER: Slice

    /** The received or built bytes; none for a nil slice. */
    ghost function Received(): seq<byte>
      reads this, Final
    {
      if Final == null then [] else Final[..]
    }

    /** The checks that come first in the three parsers. */
    method Admit() returns (err: Option<Error>)
      modifies `values
      ensures err == Refused(Received())
      ensures values == RefusedFields(old(values), Received())
    {
      hide OpcodeOf;
      if Final == null || Final.Length == 0 {
        return Some(Empty);
      }
      var mlen := Final.Length;
      var op := OpcodeOf(Final[0]);
      values := values.(opcode := op);
      if op != 2 && op != 3 && op != 1 && op != 5 {
        return Some(WrongOpcode);
      }
      if (op != 3 && mlen < FRAME_HEADER_LEN + DATA_HEADER_LEN)
         || (op == 3 && mlen < FRAME_HEADER_LEN + DATA_HEADER_LEN + GUID_LEN)
      {
        return Some(TooShort);
      }
      return None;
    }

    /** The flags and the version. */
    method ReadFirstByte(b: byte)
      requires values.opcode == OpcodeOf(b)
      modifies `values
      ensures values == FirstByteFields(old(values), b)
    {
      hide OpcodeOf, TopFlag, SecondFlag, UpperPair, ShortFlag;
      if TopFlag(b) {
        values := values.(fin := true);
      }
      if SecondFlag(b) {
        values := values.(mask := true);
      }
      values := values.(ver := UpperPair(b));
      if ShortFlag(b) {
        values := values.(short := true);
      }
    }

    /** The first eight bytes. */
    method ReadFlags()
      requires Final != null && Final.Length >= 8 && values.opcode == OpcodeOf(Final[0])
      modifies `values
      ensures values == FlagFields(old(values), Final[..])
    {
      hide OpcodeOf, FirstByteFields, Get16, Get32;
      var s := Final[..];
      ReadFirstByte(s[0]);
      values := values.(reserve := s[1]);
      values := values.(sequence := Get16(s[2..4]));
      values := values.(time := Get32(s[4..8]));
    }

    /** Masking of the received array, and the deferred call that undoes it. */
    method ToggleMask()
      requires Final != null && (values.mask ==> Final.Length >= 40)
      modifies Final
      ensures Final.Length >= 40 ==> Final[..] == WithMask(values.mask, values.opcode, old(Final[..]))
      ensures !values.mask ==> Final[..] == old(Final[..])
    {
      if values.mask {
        if values.opcode == 3 {
          MaskContent(Final, 8, 40, 4);
        } else {
          MaskContent(Final, 8, 32, 4);
        }
      }
    }

    /** Destination and source, read from the unmasked array. */
    method ReadAddresses()
      requires Final != null && Final.Length >= 40
      modifies `values
      ensures values == AddressFields(old(values), Final[..])
    {
      hide Get64, Hex;
      var u := Final[..];
      values := values.(dstId := Get64(u[8..16]));
      values := values.(dstMac := Hex(u[8..16]));
      values := values.(srcId := Get64(u[16..24]));
      values := values.(srcMac := Hex(u[16..24]));
    }

    /** What the three parsers start with: the checks, the first eight bytes, unmasking, and the
        addresses. Without an error the array is left unmasked. */
    method Open() returns (err: Option<Error>)
      modifies `values, Final
      ensures err == Refused(old(Received()))
      ensures err.Some? ==>
                Received() == old(Received()) && values == RefusedFields(old(values), old(Received()))
      ensures err == None ==>
                && Final != null && Final.Length == |old(Received())|
                && Final[..] == Clear(old(values), old(Received()))
                && values == AddressFields(FlagFields(old(values), old(Received())), Final[..])
                && values.opcode == OpcodeOf(old(Received())[0])
                && WithMask(values.mask, values.opcode, Final[..]) == old(Received())
    {
      hide FlagFields, AddressFields, WithMask, OpcodeOf;
      err := Admit();
      if err.Some? {
        return;
      }
      ghost var s := Final[..];
      ReadFlags();
      ghost var f := values;
      FlagsAfterAdmit(old(values), s);
      FlagsDecide(old(values), s);
      ToggleMask();
      ReadAddresses();
      MaskTwice(f.mask, f.opcode, s);
      AddressesKeep(f, Final[..]);
    }

    /** FrameHeader: the frame header only. The received bytes are the same afterwards. */
    method FrameHeader() returns (err: Option<Error>)
      modifies `values, Final
      ensures Received() == old(Received())
      ensures (values, err) == ParseFrameHeader(old(values), old(Received()))
    {
      hide FlagFields, AddressFields, WithMask, Clear;
      err := Open();
      if err.Some? {
        return;
      }
      ToggleMask();
    }

    /** The loop that mixes the shared secret into the derived key. */
    method MixSecret(a: array<byte>) returns (key: array<byte>)
      requires a.Length == 16 && MZ.Some? && |MZ.value| >= 16
      ensures fresh(key) && key[..] == SecretKey(a[..], MZ.value)
    {
      hide XorByte;
      key := new byte[16](_ => 0);
      for n := 0 to 16
        invariant forall k :: 0 <= k < n ==> key[k] == XorByte(a[k], MZ.value[k])
      {
        key[n] := XorByte(a[n], MZ.value[n]);
      }
    }

    /** Header: frame header, guid and message id. The received bytes are the same afterwards. */
    method Header(c: Aes.Cipher) returns (err: Option<Error>)
      requires MZ.Some? ==> |MZ.value| >= 16
      modifies `values, `FHGuid, Final
      ensures Received() == old(Received())
      ensures var h := ParseHeader(c, MZ, old(values), old(Received()));
              && values == h.fields && err == h.err
              && Contents(FHGuid) == Resolve(h.guid, old(Received()), old(Contents(FHGuid)))
    {
      hide FlagFields, AddressFields, WithMask, Clear, HeaderRest;
      err := Open();
      if err.Some? {
        return;
      }
      err := ReadGuid(c);
      ToggleMask();
    }

    /** Decrypting the guid with the key of level 3; a guid that does not decrypt becomes nil. */
    method OpenGuid(c: Aes.Cipher, sealed: seq<byte>)
      requires MZ.Some? && |MZ.value| >= 16 && |sealed| > 0
      requires Final != null
      modifies `values, `FHGuid
      ensures var a := RandomKey(old(values).sequence, old(values).srcId, old(values).time);
              var guid := Aes.Decrypted(c, sealed, SecretKey(a, MZ.value));
              && values == old(values).(rk := Some(a))
              && Matches(if guid.Ok? then New(guid.value) else Cleared, FHGuid, old(FHGuid), Final)
    {
      hide Aes.Decrypted, RandomKey, SecretKey;
      var a := RandomKeyGet(values.sequence, values.srcId, values.time);
      values := values.(rk := Some(a[..]));
      var key := MixSecret(a);
      var aa := Aes.Decrypt(c, sealed, key[..]);
      if aa.Ok? {
        FHGuid := FromSeq(aa.value);
      } else {
        FHGuid := Nil;
      }
    }

    /** The part of Header that runs on the unmasked array. */
    method ReadGuid(c: Aes.Cipher) returns (err: Option<Error>)
      requires MZ.Some? ==> |MZ.value| >= 16
      requires Final != null && Final.Length >= Offset(values.opcode) + 16
      modifies `values, `FHGuid
      ensures var h := HeaderRest(c, MZ, old(values), Final[..]);
              values == h.fields && err == h.err && Matches(h.guid, FHGuid, old(FHGuid), Final)
    {
      hide Aes.Decrypted, LowerPair, Get16, RandomKey, SecretKey;
      var u := Final[..];
      var offset := FRAME_HEADER_LEN;
      if values.opcode == 3 {
        offset := FRAME_HEADER_LEN + GUID_LEN;
        values := values.(keyLevel := LowerPair(u[offset]));
        if MZ.Some? {
          OpenGuid(c, u[FRAME_HEADER_LEN..offset]);
        } else {
          return Some(NoSecret);
        }
      }
      ReadLevelAndId(u, offset);
      return None;
    }

    method ReadLevelAndId(u: seq<byte>, offset: nat)
      requires offset + 16 <= |u|
      modifies `values
      ensures values == old(values).(keyLevel := LowerPair(u[offset]), msgId := Get16(u[offset + 2..offset + 4]))
    {
      hide LowerPair, Get16;
      values := values.(keyLevel := LowerPair(u[offset]));
      values := values.(msgId := Get16(u[offset + 2..offset + 4]));
    }

    /** Binary2Msg: the whole message. The received bytes are the same afterwards, on every path, and
        the slices into them hold them as they were received. */
    method Binary2Msg(c: Aes.Cipher) returns (err: Option<Error>)
      requires MZ.Some? ==> |MZ.value| >= 16
      modifies `values, `FHGuid, `DHSessionId, `Text, `CIPHER, Final
      ensures Received() == old(Received())
      ensures var p := ParseBinary(c, MZ, old(values), old(Received()));
              && values == p.fields && err == p.err
              && Contents(FHGuid) == Resolve(p.guid, old(Received()), old(Contents(FHGuid)))
              && Contents(DHSessionId) == Resolve(p.session, old(Received()), old(Contents(DHSessionId)))
              && Contents(Text) == Resolve(p.text, old(Received()), old(Contents(Text)))
              && Contents(CIPHER) == Resolve(p.cipher, old(Received()), old(Contents(CIPHER)))
    {
      hide FlagFields, AddressFields, WithMask, Clear, ParseData, Refused, Resolve, RefusedFields;
      err := Open();
      if err.Some? {
        NothingParsed(FHGuid, DHSessionId, Text, CIPHER, Received());
        return;
      }
      ghost var s, p := old(Received()), ParseData(c, MZ, values, Final[..]);
      err := ReadData(c);
      ToggleMask();
      Restored(p.guid, FHGuid, old(FHGuid), Final, s, old(Contents(FHGuid)));
      Restored(p.session, DHSessionId, old(DHSessionId), Final, s, old(Contents(DHSessionId)));
      Restored(p.text, Text, old(Text), Final, s, old(Contents(Text)));
      Restored(p.cipher, CIPHER, old(CIPHER), Final, s, old(Contents(CIPHER)));
    }

    /** The part of Binary2Msg that runs on the unmasked array. */
    method ReadData(c: Aes.Cipher) returns (err: Option<Error>)
      requires MZ.Some? ==> |MZ.value| >= 16
      requires Final != null && Final.Length >= Offset(values.opcode) + 16
      modifies `values, `FHGuid, `DHSessionId, `Text, `CIPHER
      ensures var p := ParseData(c, MZ, old(values), Final[..]);
              && values == p.fields && err == p.err
              && Matches(p.guid, FHGuid, old(FHGuid), Final)
              && Matches(p.session, DHSessionId, old(DHSessionId), Final)
              && Matches(p.text, Text, old(Text), Final)
              && Matches(p.cipher, CIPHER, old(CIPHER), Final)
    {
      hide ParseChecked;
      var offset := FRAME_HEADER_LEN;
      CheckedIgnoresGuid(c, MZ, values, GuidPart(values.opcode), Final[..], Offset(values.opcode));
      if values.opcode == 3 {
        offset := FRAME_HEADER_LEN + GUID_LEN;
        FHGuid := View(Final, FRAME_HEADER_LEN, offset);
      }
      err := ReadChecked(c, Final[..], offset);
    }

    /** The data header, its length and checksum, and the body. */
    method ReadChecked(c: Aes.Cipher, u: seq<byte>, offset: nat) returns (err: Option<Error>)
      requires MZ.Some? ==> |MZ.value| >= 16
      requires Final != null && u == Final[..] && offset + 16 <= |u|
      modifies `values, `DHSessionId, `Text, `CIPHER
      ensures var p := ParseChecked(c, MZ, old(values), Kept, u, offset);
              && values == p.fields && err == p.err
              && Matches(p.session, DHSessionId, old(DHSessionId), Final)
              && Matches(p.text, Text, old(Text), Final)
              && Matches(p.cipher, CIPHER, old(CIPHER), Final)
    {
      hide ParseBody, DataFields, Crc8;
      ReadDataHeader(u, offset);
      if values.length != |u| - (offset + 16) {
        return Some(WrongLength);
      }
      values := values.(headCheck := u[offset + 6], check := u[offset + 7]);
      var crc := Crc.Crc(u, offset + 6);
      if values.headCheck != crc {
        return Some(WrongHeaderChecksum);
      }
      err := ReadBody(c, u, offset);
    }

    method ReadDataByte(b: byte)
      modifies `values
      ensures values == DataByteFields(old(values), b)
    {
      hide TopFlag, SecondFlag, UpperPair, LowerPair, LastPair;
      if TopFlag(b) {
        values := values.(read := true);
      }
      if SecondFlag(b) {
        values := values.(ack := true);
      }
      values := values.(dataFormat := UpperPair(b));
      values := values.(keyLevel := LowerPair(b));
      values := values.(encryptType := LastPair(b));
    }

    method ReadDataHeader(u: seq<byte>, offset: nat)
      requires offset + 16 <= |u|
      modifies `values
      ensures values == DataFields(old(values), u, offset)
    {
      hide DataByteFields, Get16;
      ReadDataByte(u[offset]);
      values := values.(dataSeq := u[offset + 1]);
      values := values.(msgId := Get16(u[offset + 2..offset + 4]));
      values := values.(length := Get16(u[offset + 4..offset + 6]));
    }

    /** The switch over the key level. */
    method ReadBody(c: Aes.Cipher, u: seq<byte>, offset: nat) returns (err: Option<Error>)
      requires MZ.Some? ==> |MZ.value| >= 16
      requires Final != null && u == Final[..] && offset + 16 <= |u|
      modifies `values, `DHSessionId, `Text, `CIPHER
      ensures var p := ParseBody(c, MZ, old(values), Kept, u, offset);
              && values == p.fields && err == p.err
              && Matches(p.session, DHSessionId, old(DHSessionId), Final)
              && Matches(p.text, Text, old(Text), Final)
              && Matches(p.cipher, CIPHER, old(CIPHER), Final)
    {
      hide Crc8, Aes.Decrypted, RandomKey, SecretKey, OpenBody, ParsePlainBody;
      if values.keyLevel == 0 {
        err := ReadPlainBody(u, offset);
      } else if values.keyLevel == 1 {
        var key := RandomKeyGet(values.sequence, values.srcId, values.time);
        values := values.(rk := Some(key[..]));
        var aa := Aes.Decrypt(c, u[offset + 8..], key[..]);
        err := StoreOpened(aa, true);
      } else if values.keyLevel == 2 {
        err := None;
      } else if MZ == None {
        err := Some(NoSecret);
      } else {
        var a := RandomKeyGet(values.sequence, values.srcId, values.time);
        values := values.(rk := Some(a[..]));
        var key := MixSecret(a);
        values := values.(rkXorMz := Some(key[..]));
        CIPHER := View(Final, offset + 8, Final.Length);
        var aa := Aes.Decrypt(c, u[offset + 8..], key[..]);
        err := StoreOpened(aa, false);
      }
    }

    method ReadPlainBody(u: seq<byte>, offset: nat) returns (err: Option<Error>)
      requires Final != null && u == Final[..] && offset + 16 <= |u|
      modifies `DHSessionId, `Text
      ensures var p := ParsePlainBody(values, Kept, u, offset);
              && values == p.fields && err == p.err
              && Matches(p.session, DHSessionId, old(DHSessionId), Final)
              && Matches(p.text, Text, old(Text), Final) && p.cipher == Kept
    {
      hide Crc8;
      DHSessionId := View(Final, offset + 8, offset + 16);
      var body := u[offset + 8..];
      var crc := Crc.Crc(body, |body|);
      assert body[..|body|] == body;
      if values.check != crc {
        return Some(WrongBodyChecksum);
      }
      if values.length > 0 {
        Text := View(Final, offset + 16, Final.Length);
      }
      return None;
    }

    /** Storing a decrypted body. */
    method StoreOpened(d: Result<seq<byte>, Aes.Error>, keepEmpty: bool) returns (err: Option<Error>)
      requires Final != null
      modifies `DHSessionId, `Text
      ensures forall cipher :: var p := OpenBody(values, Kept, cipher, d, keepEmpty);
              && values == p.fields && err == p.err
              && Matches(p.session, DHSessionId, old(DHSessionId), Final)
              && Matches(p.text, Text, old(Text), Final)
    {
      hide Crc8;
      if d.Err? {
        return Some(CannotDecrypt);
      }
      var aa := d.value;
      if |aa| < 8 {
        Text := FromSeq(aa);
        return Some(PlaintextTooShort);
      }
      var crc := Crc.Crc(aa, |aa|);
      assert aa[..|aa|] == aa;
      if values.check != crc {
        return Some(WrongBodyChecksum);
      }
      DHSessionId := FromSeq(aa[..8]);
      if keepEmpty || |aa| > 8 {
        Text := FromSeq(aa[8..]);
      }
      return None;
    }

    // ----- building -----

    ghost function Sending(): Outgoing
      reads this
      reads if FHGuid.View? then {FHGuid.a} else {}
      reads if DHSessionId.View? then {DHSessionId.a} else {}
      reads if Text.View? then {Text.a} else {}
    {
      Outgoing(values, Contents(FHGuid), Contents(DHSessionId), Contents(Text), datacrc)
    }

    /** Length and checksums, written last. */
    method WriteChecks(buf: array<byte>, payload: seq<byte>,
                       ghost f: Fields, ghost area: seq<byte>, ghost session: seq<byte>)
      requires Secret(MZ, f.keyLevel) && values == KeyFields(MacFields(f), MZ)
      requires LaidOut(buf[..], f, area, session) && |payload| >= 8
      modifies `values, buf
      ensures values == SentFields(f, MZ, area, payload, datacrc)
      ensures buf[..] == Checked(f, area, |payload| - 8, datacrc) + session
    {
      hide KeyFields, MacFields, FrameHead, DataHead, Crc8, Truncate16, Put16;
      var offset := Offset(values.opcode);
      ghost var before := FrameHead(f) + area + DataHead(f);
      PutAt(buf, offset + 4, Put16(Truncate16(|payload| - 8)), before, Zeros(2), Zeros(2) + session);
      var covered := buf[..offset + 6];
      assert covered == Covered(f, area, |payload| - 8);
      assert covered[..offset + 6] == covered && datacrc[..|datacrc|] == datacrc;
      var headCheck := Crc.Crc(covered, offset + 6);
      var check := Crc.Crc(datacrc, |datacrc|);
      PutAt(buf, offset + 6, [headCheck, check], covered, Zeros(2), session);
      values := values.(length := Truncate16(|payload| - 8), headCheck := headCheck, check := check);
    }

    /** The derived key, mixed with the shared secret at level 3; both are kept in the message. */
    method DeriveKey() returns (key: seq<byte>)
      requires (values.keyLevel == 1 || values.keyLevel == 3) && Secret(MZ, values.keyLevel)
      modifies `values
      ensures values == KeyFields(old(values), MZ) && key == BodyKey(old(values), MZ)
    {
      hide RandomKey, SecretKey;
      var a := RandomKeyGet(values.sequence, values.srcId, values.time);
      key := a[..];
      values := values.(rk := Some(key));
      if values.keyLevel == 3 {
        var mixed := MixSecret(a);
        key := mixed[..];
        values := values.(rkXorMz := Some(key));
      }
    }

    /** The frame in a new array: the buffer up to the checksums, then the payload. */
    method Finish(buf: array<byte>, payload: seq<byte>,
                  ghost f: Fields, ghost area: seq<byte>, ghost session: seq<byte>)
      requires Secret(MZ, f.keyLevel) && values == KeyFields(MacFields(f), MZ)
      requires LaidOut(buf[..], f, area, session) && |payload| >= 8
      modifies `values, `Final, buf
      ensures values == SentFields(f, MZ, area, payload, datacrc)
      ensures Final != null && fresh(Final) && Final[..] == PlainFrame(values, area, payload)
    {
      hide MacFields, KeyFields, SentFields, Covered, PlainFrame, Crc8, FrameHead, DataHead;
      WriteChecks(buf, payload, f, area, session);
      var offset := Offset(values.opcode);
      SetFinal(buf[..offset + 8] + payload);
      CheckedIsPlain(f, MZ, area, payload, datacrc);
      assert buf[..offset + 8] == Checked(f, area, |payload| - 8, datacrc);
    }

    /** Levels 1 and 3: keys, guid, and the encrypted checksum buffer. */
    method Seal(c: Aes.Cipher, buf: array<byte>, guid: Option<seq<byte>>, f: Fields, ghost session: seq<byte>)
      returns (payload: seq<byte>)
      requires (f.keyLevel == 1 || f.keyLevel == 3) && Secret(MZ, f.keyLevel) && values == MacFields(f)
      requires LaidOut(buf[..], f, Zeros(Offset(f.opcode) - FRAME_HEADER_LEN), session)
      modifies `values, `CIPHER, buf
      ensures values == KeyFields(MacFields(f), MZ)
      ensures payload == Aes.Encrypted(c, datacrc, BodyKey(f, MZ)).value
      ensures LaidOut(buf[..], f, GuidArea(c, f, MZ, guid), session)
      ensures if f.keyLevel == 3 then CIPHER.View? && fresh(CIPHER.a) && Contents(CIPHER) == Some(payload)
              else CIPHER == old(CIPHER)
    {
      hide LaidOut, MacFields, KeyFields, BodyKey, Aes.Encrypted, GuidArea;
      MacsKeep(f, MZ);
      var key := DeriveKey();
      var cipher := Aes.Encrypt(c, datacrc, key);
      payload := cipher.value;
      if f.keyLevel == 3 {
        WriteGuid(c, buf, key, guid, f, MZ, session);
        CIPHER := FromSeq(payload);
      } else {
        NoGuidArea(c, f, MZ, guid);
      }
    }

    /** The switch over the key level, for the levels that build a frame. At level 0 the payload is
        the session id, which is in the buffer already, and the text. */
    method MakeFrame(c: Aes.Cipher, buf: array<byte>, guid: Option<seq<byte>>, text: seq<byte>, f: Fields,
                     ghost session: seq<byte>)
      requires Builds(f.keyLevel) && Secret(MZ, f.keyLevel) && values == MacFields(f)
      requires LaidOut(buf[..], f, Zeros(Offset(f.opcode) - FRAME_HEADER_LEN), session)
      modifies `values, `Final, `CIPHER, buf
      ensures var payload, area := Payload(c, f, MZ, session, text, datacrc), GuidArea(c, f, MZ, guid);
              && values == SentFields(f, MZ, area, payload, datacrc)
              && Final != null && fresh(Final) && Final[..] == PlainFrame(values, area, payload)
              && (if f.keyLevel == 3 then CIPHER.View? && CIPHER.a != Final && Contents(CIPHER) == Some(payload)
                  else CIPHER == old(CIPHER))
    {
      hide LaidOut, MacFields, KeyFields, SentFields, PlainFrame, BodyKey, Aes.Encrypted, GuidArea;
      var payload: seq<byte>;
      if f.keyLevel == 0 {
        MacsKeep(f, MZ);
        SessionLast(buf[..], f, Zeros(Offset(f.opcode) - FRAME_HEADER_LEN), session);
        NoGuidArea(c, f, MZ, guid);
        payload := buf[Offset(f.opcode) + 8..] + text;
        assert payload == session + text;
      } else {
        payload := Seal(c, buf, guid, f, session);
      }
      Finish(buf, payload, f, GuidArea(c, f, MZ, guid), session);
    }

    /** Time and names, the buffer with everything that does not depend on the key level, and the
        bytes to be checked, appended to what the checksum buffer already held. */
    method LayOut(clock: u32, session: seq<byte>, text: seq<byte>) returns (f: Fields, buf: array<byte>)
      requires |session| == 8
      modifies `values, `datacrc
      ensures fresh(buf) && f == Timed(old(values), clock) && values == MacFields(f)
      ensures LaidOut(buf[..], f, Zeros(Offset(f.opcode) - FRAME_HEADER_LEN), session)
      ensures datacrc == old(datacrc) + session + text
    {
      hide LaidOut, MacFields;
      if values.time == 0 {
        values := values.(time := clock);
      }
      f := values;
      buf := new byte[Offset(f.opcode) + DATA_HEADER_LEN](_ => 0);
      WriteFields(buf, f, session);
      values := MacFields(f);
      datacrc := datacrc + session;
      datacrc := datacrc + text;
    }

    /** Msg2Binary: the frame of this message, in a new array, built from its fields. Without a shared
        secret at level 3, and at the levels that build no frame, the array stays empty. */
    method Msg2Binary(c: Aes.Cipher, clock: u32) returns (err: Option<Error>)
      requires MZ.Some? ==> |MZ.value| >= 16
      requires values.mask ==> Builds(values.keyLevel)
      modifies `values, `datacrc, `Final, `CIPHER
      ensures Final != null && fresh(Final)
      ensures datacrc == old(datacrc) + SessionBytes(old(Contents(DHSessionId))) + OrEmpty(old(Contents(Text)))
      ensures Builds(old(values.keyLevel)) && Secret(MZ, old(values.keyLevel)) ==>
                var b := Build(c, MZ, old(Sending()), clock);
                && err == None && values == b.fields && Final[..] == b.final
                && (if old(values.keyLevel) == 3 then Contents(CIPHER) == Some(b.payload) else CIPHER == old(CIPHER))
      ensures !(Builds(old(values.keyLevel)) && Secret(MZ, old(values.keyLevel))) ==>
                && err == (if old(values.keyLevel) == 3 then Some(NoSecret) else None)
                && values == MacFields(Timed(old(values), clock)) && Final[..] == [] && CIPHER == old(CIPHER)
    {
      hide Build, SessionBytes, LaidOut, MacFields, SentFields, PlainFrame, WithMask, Payload, GuidArea, Covered;
      hide BodyKey;
      if Builds(values.keyLevel) && Secret(MZ, values.keyLevel) {
        BuildIs(c, MZ, Sending(), clock);
        SentLength(c, MZ, Sending(), clock);
      }
      MacsKeep(Timed(values, clock), MZ);
      Final := new byte[0];
      var guid, session, text := Contents(FHGuid), SessionBytes(Contents(DHSessionId)), OrEmpty(Contents(Text));
      var f, buf := LayOut(clock, session, text);
      if values.keyLevel == 3 && MZ == None {
        return Some(NoSecret);
      }
      if Builds(values.keyLevel) {
        MakeFrame(c, buf, guid, text, f, session);
      }
      ToggleMask();
      err := None;
    }

    /** The frame, in a new array. */
    method SetFinal(frame: seq<byte>)
      modifies `Final
      ensures Final != null && fresh(Final) && Final[..] == frame
    {
      Final := new byte[|frame|](i requires 0 <= i < |frame| => frame[i]);
    }
  }

  lemma MacsKeep(f: Fields, mz: Option<seq<byte>>)
    ensures var r := MacFields(f);
            && r.opcode == f.opcode && r.mask == f.mask && r.keyLevel == f.keyLevel
            && r.sequence == f.sequence && r.srcId == f.srcId && r.time == f.time
            && (f.keyLevel == 0 && Secret(mz, 0) ==> KeyFields(r, mz) == r)
            && (Secret(mz, f.keyLevel) ==> BodyKey(r, mz) == BodyKey(f, mz))
  {
    hide Hex, Put64, RandomKey, SecretKey;
  }

  lemma SessionLast(b: seq<byte>, f: Fields, area: seq<byte>, session: seq<byte>)
    requires LaidOut(b, f, area, session)
    ensures |b| == Offset(f.opcode) + 16 && b[Offset(f.opcode) + 8..] == session
  {
    hide FrameHead, DataHead;
  }

  lemma BuildIs(c: Aes.Cipher, mz: Option<seq<byte>>, o: Outgoing, clock: u32)
    requires Builds(o.fields.keyLevel) && Secret(mz, o.fields.keyLevel)
    ensures var f, s8, txt := Timed(o.fields, clock), SessionBytes(o.session), OrEmpty(o.text);
            var buffer := o.datacrc + s8 + txt;
            var payload, area := Payload(c, f, mz, s8, txt, buffer), GuidArea(c, f, mz, o.guid);
            var sent := SentFields(f, mz, area, payload, buffer);
            var plain := PlainFrame(sent, area, payload);
            Build(c, mz, o, clock) ==
            Built(sent, buffer, area, payload, plain, WithMask(o.fields.mask, o.fields.opcode, plain))
  {
    hide Payload, GuidArea, SentFields, PlainFrame, WithMask, SessionBytes;
  }

  lemma SentLength(c: Aes.Cipher, mz: Option<seq<byte>>, o: Outgoing, clock: u32)
    requires Builds(o.fields.keyLevel) && Secret(mz, o.fields.keyLevel)
    ensures var b := Build(c, mz, o, clock);
            b.fields.mask == o.fields.mask && b.fields.opcode == o.fields.opcode && |b.plain| >= 40
  {
    hide Payload, GuidArea, PlainFrame, WithMask, SessionBytes, Hex, Put64, Covered, Crc8, Truncate16;
    hide RandomKey, BodyKey;
  }

  /** A checked buffer and a payload make the frame before masking. */
  lemma CheckedIsPlain(f: Fields, mz: Option<seq<byte>>, area: seq<byte>, payload: seq<byte>, buffer: seq<byte>)
    requires Secret(mz, f.keyLevel)
    requires |area| == Offset(f.opcode) - FRAME_HEADER_LEN && |payload| >= 8
    ensures Checked(f, area, |payload| - 8, buffer) + payload
         == PlainFrame(SentFields(f, mz, area, payload, buffer), area, payload)
  {
    hide Hex, Put64, Covered, Truncate16, Crc8, RandomKey, BodyKey;
    var r := SentFields(f, mz, area, payload, buffer);
    assert FrameByte(f) == FrameByte(r) && DataByte(f) == DataByte(r);
    CoveredSame(f, r, area, |payload| - 8);
  }

  /** The fields that do not depend on the key level, and the session id. */
  method WriteFields(buf: array<byte>, f: Fields, session: seq<byte>)
    requires |session| == 8
    requires buf.Length == Offset(f.opcode) + DATA_HEADER_LEN && forall k :: 0 <= k < buf.Length ==> buf[k] == 0
    modifies buf
    ensures LaidOut(buf[..], f, Zeros(Offset(f.opcode) - FRAME_HEADER_LEN), session)
  {
    hide FrameHead, DataHead;
    var offset := Offset(f.opcode);
    ghost var head, area := FrameHead(f), Zeros(offset - FRAME_HEADER_LEN);
    PutAt(buf, 0, FrameHead(f), [], Zeros(24), Zeros(offset - 8));
    PutAt(buf, offset, DataHead(f), head + area, Zeros(4), Zeros(12));
    assert Zeros(4) + Zeros(8) == Zeros(12);
    PutAt(buf, offset + 8, session, head + area + DataHead(f) + Zeros(4), Zeros(8), []);
  }

  /** Level 3 with opcode 3: the first encrypted block of the guid, if there is a guid. */
  method WriteGuid(
    c: Aes.Cipher, buf: array<byte>, key: seq<byte>, guid: Option<seq<byte>>, f: Fields,
    ghost mz: Option<seq<byte>>, ghost session: seq<byte>)
    requires f.keyLevel == 3 && Secret(mz, 3) && key == BodyKey(f, mz)
    requires LaidOut(buf[..], f, Zeros(Offset(f.opcode) - FRAME_HEADER_LEN), session)
    modifies buf
    ensures LaidOut(buf[..], f, GuidArea(c, f, mz, guid), session)
  {
    hide FrameHead, DataHead, BodyKey, Aes.Encrypted;
    if f.opcode == 3 {
      var sealed := Aes.Encrypt(c, OrEmpty(guid), key);
      if guid.Some? {
        ghost var rest := DataHead(f) + Zeros(4) + session;
        assert buf[..] == FrameHead(f) + Zeros(16) + rest;
        PutAt(buf, FRAME_HEADER_LEN, sealed.value[..16], FrameHead(f), Zeros(16), rest);
      }
    } else {
      assert Zeros(0) == [];
    }
  }

  lemma NoGuidArea(c: Aes.Cipher, f: Fields, mz: Option<seq<byte>>, guid: Option<seq<byte>>)
    requires Secret(mz, f.keyLevel) && f.keyLevel != 3
    ensures GuidArea(c, f, mz, guid) == Zeros(Offset(f.opcode) - FRAME_HEADER_LEN)
  {
    assert Zeros(0) == [];
  }

  /** One piece written into the buffer: pre + mid + post becomes pre + s + post. */
  method PutAt(a: array<byte>, at: nat, s: seq<byte>, ghost pre: seq<byte>, ghost mid: seq<byte>, ghost post: seq<byte>)
    requires a[..] == pre + mid + post && |pre| == at && |mid| == |s|
    modifies a
    ensures a[..] == pre + s + post
  {
    for k := 0 to |s|
      invariant a[..] == pre + (s[..k] + mid[k..]) + post
    {
      a[at + k] := s[k];
    }
  }

  /** The buffer before length and checksums are written. */
  ghost predicate LaidOut(b: seq<byte>, f: Fields, area: seq<byte>, session: seq<byte>) {
    && |area| == Offset(f.opcode) - FRAME_HEADER_LEN
    && |session| == 8
    && b == FrameHead(f) + area + DataHead(f) + Zeros(4) + session
  }

  /** The covered bytes and the two checksums. */
  ghost function Checked(f: Fields, area: seq<byte>, n: nat, buffer: seq<byte>): seq<byte>
    requires |area| == Offset(f.opcode) - FRAME_HEADER_LEN
  {
    Covered(f, area, n) + [Crc8(Covered(f, area, n)), Crc8(buffer)]
  }

  /** Once the received array holds s again, a slice field holds what its part says. */
  lemma Restored(p: Part, now: Slice, was: Slice, final: array<byte>, s: seq<byte>, before: Option<seq<byte>>)
    requires Matches(p, now, was, final) && PartFits(p, |s|)
    requires final[..] == s && Contents(was) == before
    ensures Contents(now) == Resolve(p, s, before)
  {}

  lemma NothingParsed(guid: Slice, session: Slice, text: Slice, cipher: Slice, s: seq<byte>)
    ensures Resolve(Kept, s, Contents(guid)) == Contents(guid)
    ensures Resolve(Kept, s, Contents(session)) == Contents(session)
    ensures Resolve(Kept, s, Contents(text)) == Contents(text)
    ensures Resolve(Kept, s, Contents(cipher)) == Contents(cipher)
  {}

  lemma CheckedIgnoresGuid(c: Aes.Cipher, mz: Option<seq<byte>>, f: Fields, guid: Part, u: seq<byte>, offset: nat)
    requires mz.Some? ==> |mz.value| >= 16
    requires offset + 16 <= |u|
    ensures ParseChecked(c, mz, f, guid, u, offset) == ParseChecked(c, mz, f, Kept, u, offset).(guid := guid)
  {
    hide ParseBody, DataFields, Crc8;
    BodyIgnoresGuid(c, mz, CheckFields(DataFields(f, u, offset), u, offset), guid, u, offset);
  }

  lemma BodyIgnoresGuid(c: Aes.Cipher, mz: Option<seq<byte>>, f: Fields, guid: Part, u: seq<byte>, offset: nat)
    requires mz.Some? ==> |mz.value| >= 16
    requires offset + 16 <= |u|
    ensures ParseBody(c, mz, f, guid, u, offset) == ParseBody(c, mz, f, Kept, u, offset).(guid := guid)
  {
    hide Crc8, RandomKey, SecretKey, Aes.Decrypted;
  }

  lemma FlagsAfterAdmit(f: Fields, s: seq<byte>)
    requires |s| >= 8
    ensures FlagFields(f.(opcode := OpcodeOf(s[0])), s) == FlagFields(f, s)
  {
    hide Get16, Get32, OpcodeOf;
  }

  lemma MaskTwice(on: bool, op: byte, s: seq<byte>)
    requires |s| >= 40
    ensures WithMask(on, op, WithMask(on, op, s)) == s
  {
    if on {
      MaskInvolution(s, 8, MaskedEnd(op), 4);
    }
  }
}
