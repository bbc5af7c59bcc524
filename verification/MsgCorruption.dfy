/** Frames damaged on the way are rejected (src/octopus/msgs/msg.go, checks of Binary2Msg). */
module MsgCorruption {
  import opened Bytes
  import opened Crc
  import opened CrcAlgebra
  import opened MsgKeys
  import opened MsgFormat
  import opened MsgTheorems
  import Aes

  /** The header checksum of the clear frame u holds. */
  predicate HeaderChecks(u: seq<byte>, offset: nat)
    requires offset + 16 <= |u|
  {
    u[offset + 6] == Crc8(u[..offset + 6])
  }

  /** The body checksum of the clear frame u of key level 0 holds. */
  predicate BodyChecks(u: seq<byte>, offset: nat)
    requires offset + 16 <= |u|
  {
    LowerPair(u[offset]) == 0 ==> u[offset + 7] == Crc8(u[offset + 8..])
  }

  lemma AcceptedChecks(c: Aes.Cipher, mz: Option<seq<byte>>, s: seq<byte>)
    requires Secret(mz, 0) && Accepts(c, mz, s)
    ensures Refused(s) == None
    ensures HeaderChecks(Clear(BLANK, s), Offset(OpcodeOf(s[0]))) && BodyChecks(Clear(BLANK, s), Offset(OpcodeOf(s[0])))
  {
    hide Crc8, Clear, Refused, AddressFields, RandomKey, SecretKey, Aes.Decrypted, OpenBody, Get16, LowerPair;
    hide UpperPair, LastPair, TopFlag, SecondFlag, OpcodeOf, FlagFields, ParseBody;
    FieldsOpcode(s);
    var u, offset := Clear(BLANK, s), Offset(OpcodeOf(s[0]));
    var g := DataFields(AddressFields(FlagFields(BLANK, s), u), u, offset);
    if LowerPair(u[offset]) == 0 {
      LevelZero(c, mz, CheckFields(g, u, offset), GuidPart(g.opcode), u, offset);
    }
  }

  lemma FieldsOpcode(s: seq<byte>)
    requires Refused(s) == None
    ensures AddressFields(FlagFields(BLANK, s), Clear(BLANK, s)).opcode == OpcodeOf(s[0])
  {
    hide Clear, Hex, Get64, Get32, Get16, OpcodeOf, UpperPair;
  }

  lemma LevelZero(c: Aes.Cipher, mz: Option<seq<byte>>, f: Fields, guid: Part, u: seq<byte>, offset: nat)
    requires Secret(mz, 0) && offset + 16 <= |u| && f.keyLevel == 0
    ensures ParseBody(c, mz, f, guid, u, offset).err == None <==> f.check == Crc8(u[offset + 8..])
  {
    hide Crc8;
  }

  /** Changing a byte outside the mask, and not the flags that say how to read the frame, changes
      the clear frame in that byte only. */
  lemma ClearAgrees(s: seq<byte>, t: seq<byte>, i: nat)
    requires Refused(s) == None && Refused(t) == None
    requires i < |s| && AgreeExcept(s, t, i) && s[i] != t[i]
    requires SecondFlag(s[0]) == SecondFlag(t[0]) && Offset(OpcodeOf(s[0])) == Offset(OpcodeOf(t[0]))
    requires SecondFlag(s[0]) ==> !(4 <= i < 8)
    ensures AgreeExcept(Clear(BLANK, s), Clear(BLANK, t), i) && Clear(BLANK, s)[i] != Clear(BLANK, t)[i]
  {
    hide XorByte, MaskByte, MaskEnd, SecondFlag, Refused, OpcodeOf, Get16, Get32;
    if SecondFlag(s[0]) {
      var end := MaskedEnd(OpcodeOf(s[0]));
      var u, v := MaskRange(s, 8, end, 4), MaskRange(t, 8, end, 4);
      assert s[4..8] == t[4..8];
      forall k | 0 <= k < |s| && k != i
        ensures u[k] == v[k]
      {
        MaskByteKept(s, t, 4, if k < 8 then 0 else k - 8);
      }
      MaskByteKept(s, t, 4, if i < 8 then 0 else i - 8);
      XorInjective(s[i], t[i], MaskByte(s, 4, if i < 8 then 0 else i - 8));
    }
  }

  /** If a frame is accepted, no frame that differs from it in exactly one byte is, as long as the
      byte is not part of the mask in use, the mask flag and the guid layout stay as they are, and a
      body byte belongs to an unencrypted body. */
  lemma SingleByteCorruption(c: Aes.Cipher, mz: Option<seq<byte>>, s: seq<byte>, t: seq<byte>, i: nat)
    requires Secret(mz, 0) && Accepts(c, mz, s)
    requires i < |s| && AgreeExcept(s, t, i) && s[i] != t[i]
    requires SecondFlag(s[0]) == SecondFlag(t[0])
    requires OpcodeOf(s[0]) == 3 <==> OpcodeOf(t[0]) == 3
    requires SecondFlag(s[0]) ==> !(4 <= i < 8)
    requires Refused(s) == None
    requires i >= Offset(OpcodeOf(s[0])) + 7 ==> LowerPair(Clear(BLANK, s)[Offset(OpcodeOf(s[0]))]) == 0
    ensures !Accepts(c, mz, t)
  {
    if Accepts(c, mz, t) {
      hide Accepts, Crc8, Clear, OpcodeOf, SecondFlag, LowerPair;
      AcceptedChecks(c, mz, s);
      AcceptedChecks(c, mz, t);
      ClearAgrees(s, t, i);
      ChecksCatch(Clear(BLANK, s), Clear(BLANK, t), Offset(OpcodeOf(s[0])), i);
    }
  }

  /** The plain case: an accepted unmasked frame without a guid at key level 0 lets no change of one
      byte after the first through, wherever it is. */
  lemma PlainFrameCorruption(c: Aes.Cipher, mz: Option<seq<byte>>, s: seq<byte>, t: seq<byte>, i: nat)
    requires Secret(mz, 0) && Accepts(c, mz, s)
    requires 1 <= i < |s| && AgreeExcept(s, t, i) && s[i] != t[i]
    requires !SecondFlag(s[0]) && OpcodeOf(s[0]) != 3 && (|s| > 24 ==> LowerPair(s[24]) == 0)
    ensures !Accepts(c, mz, t)
  {
    hide Crc8, OpcodeOf, SecondFlag, LowerPair;
    AcceptedIsKnown(c, mz, s);
    Unmasked(s);
    SingleByteCorruption(c, mz, s, t, i);
  }

  lemma AcceptedIsKnown(c: Aes.Cipher, mz: Option<seq<byte>>, s: seq<byte>)
    requires Secret(mz, 0) && Accepts(c, mz, s)
    ensures Refused(s) == None
  {
  }

  lemma ChecksCatch(u: seq<byte>, v: seq<byte>, offset: nat, i: nat)
    requires offset + 16 <= |u| && i < |u| && AgreeExcept(u, v, i) && u[i] != v[i]
    requires HeaderChecks(u, offset) && BodyChecks(u, offset)
    requires i >= offset + 7 ==> LowerPair(u[offset]) == 0
    ensures !(HeaderChecks(v, offset) && BodyChecks(v, offset))
  {
    hide Crc8, LowerPair;
    if i < offset + 6 {
      CrcSingleByte(u[..offset + 6], v[..offset + 6], i);
    } else if i == offset + 6 {
      assert u[..i] == v[..i];
    } else if i == offset + 7 {
      assert u[offset + 8..] == v[offset + 8..];
    } else {
      CrcSingleByte(u[offset + 8..], v[offset + 8..], i - (offset + 8));
    }
  }

  /** In an unmasked frame, no burst of at most eight bit errors within the covered header bytes and
      their checksum gets through, at any key level, unless it reaches the mask flag or moves the
      data header. */
  lemma HeaderBurstCorruption(c: Aes.Cipher, mz: Option<seq<byte>>, s: seq<byte>, t: seq<byte>, k: nat)
    requires Secret(mz, 0) && Accepts(c, mz, s) && Refused(s) == None
    requires |s| == |t| && !SecondFlag(s[0]) && !SecondFlag(t[0])
    requires OpcodeOf(s[0]) == 3 <==> OpcodeOf(t[0]) == 3
    requires DifferInBurst(s[..Offset(OpcodeOf(s[0])) + 7], t[..Offset(OpcodeOf(s[0])) + 7], k)
    ensures !Accepts(c, mz, t)
  {
    hide Accepts, Clear, OpcodeOf, SecondFlag, LowerPair, DifferInBurst, HeaderChecks, BodyChecks, Refused;
    if Accepts(c, mz, t) {
      AcceptedChecks(c, mz, s);
      AcceptedChecks(c, mz, t);
      Unmasked(s);
      Unmasked(t);
      BurstCaught(s, t, Offset(OpcodeOf(s[0])), k);
    }
  }

  lemma BurstCaught(s: seq<byte>, t: seq<byte>, offset: nat, k: nat)
    requires offset + 16 <= |s| && |s| == |t| && DifferInBurst(s[..offset + 7], t[..offset + 7], k)
    ensures !(HeaderChecks(s, offset) && HeaderChecks(t, offset))
  {
    hide Crc8, DifferInBurst;
    var n := offset + 6;
    assert s[..n + 1] == s[..n] + [s[n]] && t[..n + 1] == t[..n] + [t[n]];
    CrcResidue(s[..n], s[n]);
    CrcResidue(t[..n], t[n]);
    CrcDetectsBurst(s[..n + 1], t[..n + 1], k);
  }

  lemma Unmasked(s: seq<byte>)
    requires Refused(s) == None && !SecondFlag(s[0])
    ensures Clear(BLANK, s) == s
  {
    hide MaskRange, Get16, Get32;
  }
}
