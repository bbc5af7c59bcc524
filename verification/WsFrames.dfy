/** WebSocket frames: the writer, the header reader, and the payload masking of
    src/cloud-base/websocket/hybi.go (sections 5.2 and 5.3 of RFC 6455). */
module WsFrames {
  import opened Bytes

  type Nibble = n: int | 0 <= n < 16

  type MaskKey = k: seq<byte> | |k| == 4 witness [0, 0, 0, 0]

  datatype FrameHeader = FrameHeader(
    fin: bool, rsv1: bool, rsv2: bool, rsv3: bool, opcode: Nibble, length: int, key: Option<MaskKey>)

  /** A frame to be written; its header length is that of its payload. */
  datatype Frame = Frame(
    fin: bool, rsv1: bool, rsv2: bool, rsv3: bool, opcode: Nibble, key: Option<MaskKey>, payload: seq<byte>)

  const MAX_LENGTH := 0x8000_0000_0000_0000

  // ----- payload masking -----

  /** data XOR the key, where the first byte of data is at position pos of the payload. */
  function Toggle(key: Option<MaskKey>, pos: nat, data: seq<byte>): (t: seq<byte>)
    ensures |t| == |data|
  {
    if key == None then data
    else seq(|data|, i requires 0 <= i < |data| => XorByte(data[i], key.value[(pos + i) % 4]))
  }

  /** Byte i of the data is XORed with the key byte of its place in the payload modulo 4. */
  lemma ToggledByte(key: MaskKey, pos: nat, data: seq<byte>, i: nat)
    requires i < |data|
    ensures Toggle(Some(key), pos, data)[i] == XorByte(data[i], key[(pos + i) % 4])
    ensures Toggle(None, pos, data)[i] == data[i]
  {
    hide XorByte;
  }

  /** A payload of zeros shows the key bytes over and over. */
  lemma ZerosShowKey(key: MaskKey, n: nat, i: nat)
    requires i < n
    ensures Toggle(Some(key), 0, Zeros(n))[i] == key[i % 4]
  {
    hide Toggle, XorByte;
    ToggledByte(key, 0, Zeros(n), i);
    XorUnit(key[i % 4]);
  }

  lemma ToggleTwice(key: Option<MaskKey>, pos: nat, data: seq<byte>)
    ensures Toggle(key, pos, Toggle(key, pos, data)) == data
  {
    hide XorByte;
    if key.Some? {
      forall i | 0 <= i < |data|
        ensures Toggle(key, pos, Toggle(key, pos, data))[i] == data[i]
      {
        XorSelf(data[i], key.value[(pos + i) % 4]);
      }
    }
  }

  /** The position carries over: toggling in two pieces is toggling at once. */
  lemma ToggleConcat(key: Option<MaskKey>, pos: nat, a: seq<byte>, b: seq<byte>)
    ensures Toggle(key, pos, a + b) == Toggle(key, pos, a) + Toggle(key, pos + |a|, b)
  {
    hide XorByte;
    if key.Some? {
      var l, r := Toggle(key, pos, a + b), Toggle(key, pos, a) + Toggle(key, pos + |a|, b);
      forall i | 0 <= i < |a| + |b|
        ensures l[i] == r[i]
      {
        if i >= |a| {
          assert pos + |a| + (i - |a|) == pos + i;
        }
      }
    }
  }

  // ----- big-endian numbers -----

  function Big(n: nat, width: nat): (s: seq<byte>)
    ensures |s| == width
  {
    if width == 0 then [] else Big(n / 256, width - 1) + [n % 256]
  }

  function BigValue(s: seq<byte>): nat {
    if |s| == 0 then 0 else 256 * BigValue(s[..|s| - 1]) + s[|s| - 1]
  }

  lemma {:induction false} BigValueOfBig(n: nat, width: nat)
    requires n < Power256(width)
    ensures BigValue(Big(n, width)) == n
  {
    if width == 0 {
    } else {
      BigValueOfBig(n / 256, width - 1);
      assert Big(n, width)[..width - 1] == Big(n / 256, width - 1);
    }
  }

  lemma {:induction false} BigValueBound(s: seq<byte>)
    ensures BigValue(s) < Power256(|s|)
  {
    if |s| == 0 {
    } else {
      BigValueBound(s[..|s| - 1]);
    }
  }

  lemma {:induction false} BigAt(n: nat, width: nat, i: nat)
    requires i < width
    ensures Big(n, width)[i] == ShiftRight(n, width - i - 1) % 256
  {
    if i < width - 1 {
      BigAt(n / 256, width - 1, i);
    }
  }

  /** int64 arithmetic: what a length of eight bytes becomes. */
  function Signed64(n: nat): int {
    if n % 0x1_0000_0000_0000_0000 < MAX_LENGTH then n % 0x1_0000_0000_0000_0000
    else n % 0x1_0000_0000_0000_0000 - 0x1_0000_0000_0000_0000
  }

  // ----- headers -----

  function Bit(on: bool, weight: nat): nat {
    if on then weight else 0
  }

  function FirstByte(f: Frame): byte {
    Bit(f.fin, 128) + Bit(f.rsv1, 64) + Bit(f.rsv2, 32) + Bit(f.rsv3, 16) + f.opcode
  }

  /** How many bytes follow for the length, given the low seven bits of the second byte. */
  function LengthFields(n: nat): nat {
    if n <= 125 then 0 else if n == 126 then 2 else 8
  }

  /** The second byte and the extended length of a payload of n bytes. */
  function LengthBytes(masked: bool, n: nat): (s: seq<byte>)
    ensures |s| >= 1
  {
    if n <= 125 then [Bit(masked, 128) + n]
    else if n < 65536 then [Bit(masked, 128) + 126] + Big(n, 2)
    else [Bit(masked, 128) + 127] + Big(n, 8)
  }

  function KeyBytes(key: Option<MaskKey>): seq<byte> {
    if key.Some? then key.value else []
  }

  function EncodeHeader(f: Frame): seq<byte> {
    [FirstByte(f)] + LengthBytes(f.key.Some?, |f.payload|) + KeyBytes(f.key)
  }

  /** The frame on the wire. */
  function Encode(f: Frame): seq<byte> {
    EncodeHeader(f) + Toggle(f.key, 0, f.payload)
  }

  function HeaderOf(f: Frame): FrameHeader {
    FrameHeader(f.fin, f.rsv1, f.rsv2, f.rsv3, f.opcode, |f.payload|, f.key)
  }

  /** Either the input ends within the header, or the header takes up size bytes. */
  datatype HeaderRead = Incomplete | Complete(h: FrameHeader, size: nat)

  /** What NewFrameReader makes of the bytes to come. */
  function ReadHeader(s: seq<byte>): (r: HeaderRead)
    ensures r.Complete? ==> 2 <= r.size <= |s|
  {
    if |s| < 2 then Incomplete else
    var fields := LengthFields(s[1] % 128);
    var masked := s[1] >= 128;
    var size := 2 + fields + (if masked then 4 else 0);
    if |s| < size then Incomplete else
    Complete(
      FrameHeader(s[0] / 128 == 1, s[0] / 64 % 2 == 1, s[0] / 32 % 2 == 1, s[0] / 16 % 2 == 1, s[0] % 16,
                  if fields == 0 then s[1] % 128 else Signed64(BigValue(s[2..2 + fields])),
                  if masked then Some(s[2 + fields..size]) else None),
      size)
  }

  lemma FirstByteDecodes(f: Frame)
    ensures var b := FirstByte(f);
            && (b / 128 == 1) == f.fin && (b / 64 % 2 == 1) == f.rsv1 && (b / 32 % 2 == 1) == f.rsv2
            && (b / 16 % 2 == 1) == f.rsv3 && b % 16 == f.opcode
  {
    var a, r1, r2, r3 := Bit(f.fin, 1), Bit(f.rsv1, 1), Bit(f.rsv2, 1), Bit(f.rsv3, 1);
    UnpackBits(a, r1, r2, r3, f.opcode);
  }

  lemma UnpackBits(a: nat, r1: nat, r2: nat, r3: nat, o: nat)
    requires a <= 1 && r1 <= 1 && r2 <= 1 && r3 <= 1 && o < 16
    ensures var b := 128 * a + 64 * r1 + 32 * r2 + 16 * r3 + o;
            b / 128 == a && b / 64 % 2 == r1 && b / 32 % 2 == r2 && b / 16 % 2 == r3 && b % 16 == o
  {
    var b := 128 * a + 64 * r1 + 32 * r2 + 16 * r3 + o;
    assert b / 64 == 2 * a + r1;
    assert b / 32 == 2 * (2 * a + r1) + r2;
    assert b / 16 == 2 * (4 * a + 2 * r1 + r2) + r3;
  }

  /** The length comes back, in all three length classes. */
  lemma LengthDecodes(masked: bool, n: nat)
    requires n < MAX_LENGTH
    ensures var l := LengthBytes(masked, n);
            var fields := LengthFields(l[0] % 128);
            && (l[0] >= 128) == masked
            && |l| == 1 + fields
            && (if fields == 0 then l[0] % 128 else Signed64(BigValue(l[1..]))) == n
  {
    if 125 < n < 65536 {
      assert Power256(2) == 65536;
      BigValueOfBig(n, 2);
      assert LengthBytes(masked, n)[1..] == Big(n, 2);
    } else if n >= 65536 {
      assert Power256(8) == 0x1_0000_0000_0000_0000;
      BigValueOfBig(n, 8);
      assert LengthBytes(masked, n)[1..] == Big(n, 8);
    }
  }

  lemma Pieces(first: byte, l: seq<byte>, k: seq<byte>, body: seq<byte>, rest: seq<byte>)
    requires |l| >= 1
    ensures var s, at := [first] + l + k + body + rest, 1 + |l|;
            && s[0] == first && s[1] == l[0] && s[2..at] == l[1..]
            && s[at..at + |k|] == k
            && s[at + |k|..] == body + rest
  {}

  /** Frame round trip: the header is recovered whatever follows, and toggling the payload bytes
      again restores the payload. */
  lemma ReadHeaderOfEncode(f: Frame, rest: seq<byte>)
    requires |f.payload| < MAX_LENGTH
    ensures var s, size := Encode(f) + rest, |EncodeHeader(f)|;
            && ReadHeader(s) == Complete(HeaderOf(f), size)
            && s[size..] == Toggle(f.key, 0, f.payload) + rest
            && Toggle(f.key, 0, Toggle(f.key, 0, f.payload)) == f.payload
  {
    hide Toggle, LengthBytes, FirstByte, LengthFields, Signed64, BigValue;
    var l, k, body := LengthBytes(f.key.Some?, |f.payload|), KeyBytes(f.key), Toggle(f.key, 0, f.payload);
    FirstByteDecodes(f);
    LengthDecodes(f.key.Some?, |f.payload|);
    ToggleTwice(f.key, 0, f.payload);
    Pieces(FirstByte(f), l, k, body, rest);
    assert Encode(f) + rest == [FirstByte(f)] + l + k + body + rest;
  }

  // ----- what is on the wire -----

  /** The second byte and the length behind it: the shortest form, in network order. */
  lemma LengthForm(masked: bool, n: nat, i: nat)
    ensures var l := LengthBytes(masked, n);
            var fields := if n < 126 then 0 else if n < 65536 then 2 else 8;
            && |l| == 1 + fields
            && l[0] == Bit(masked, 128) + (if fields == 0 then n else if fields == 2 then 126 else 127)
            && (i < fields ==> l[1 + i] == ShiftRight(n, fields - i - 1) % 256)
  {
    hide Big;
    var fields := |LengthBytes(masked, n)| - 1;
    if i < fields { BigAt(n, fields, i); }
  }

  /** The bytes of a frame: flags and opcode, the length in its shortest form and in network order, the
      key when there is one, and the payload, byte i XORed with key byte i modulo 4. */
  lemma FrameOnWire(f: Frame, i: nat)
    ensures var s, n := Encode(f), |f.payload|;
            var fields := if n < 126 then 0 else if n < 65536 then 2 else 8;
            var start := 2 + fields + if f.key.Some? then 4 else 0;
            && |s| == start + n
            && s[0] == Bit(f.fin, 128) + Bit(f.rsv1, 64) + Bit(f.rsv2, 32) + Bit(f.rsv3, 16) + f.opcode
            && s[1] == Bit(f.key.Some?, 128) + (if fields == 0 then n else if fields == 2 then 126 else 127)
            && (i < fields ==> s[2 + i] == ShiftRight(n, fields - i - 1) % 256)
            && (f.key.Some? ==> s[2 + fields..start] == f.key.value)
            && (i < n ==> s[start + i] == if f.key.Some? then XorByte(f.payload[i], f.key.value[i % 4]) else f.payload[i])
  {
    hide XorByte, FirstByte, Toggle, LengthBytes, ShiftRight, Bit;
    var n, body := |f.payload|, Toggle(f.key, 0, f.payload);
    var l, k := LengthBytes(f.key.Some?, n), KeyBytes(f.key);
    LengthForm(f.key.Some?, n, i);
    FirstByteIs(f);
    Joined(FirstByte(f), l, k, body, i);
    if i < n {
      ToggledByte(if f.key.Some? then f.key.value else [0, 0, 0, 0], 0, f.payload, i);
    }
  }

  lemma Joined(first: byte, l: seq<byte>, k: seq<byte>, body: seq<byte>, i: nat)
    requires |l| > 0
    ensures var s, at := [first] + l + k + body, 1 + |l| + |k|;
            && |s| == at + |body| && s[0] == first && s[1] == l[0] && s[1 + |l|..at] == k
            && (1 + i < |l| ==> s[2 + i] == l[1 + i])
            && (i < |body| ==> s[at + i] == body[i])
  {
  }

  lemma FirstByteIs(f: Frame)
    ensures FirstByte(f) == Bit(f.fin, 128) + Bit(f.rsv1, 64) + Bit(f.rsv2, 32) + Bit(f.rsv3, 16) + f.opcode
  {
  }

  lemma BigValueStep(s: seq<byte>, i: nat)
    requires i < |s|
    ensures BigValue(s[..i + 1]) == 256 * BigValue(s[..i]) + s[i] as int
  {
    assert s[..i + 1][..i] == s[..i];
  }

  lemma BigOfTwo(s: seq<byte>)
    requires |s| == 2
    ensures BigValue(s) == 256 * s[0] as int + s[1] as int
  {
    hide BigValue;
    assert s[..2] == s;
    BigValueStep(s, 0);
    BigValueStep(s, 1);
    BigOfNone(s[..0]);
  }

  lemma BigOfNone(s: seq<byte>)
    requires |s| == 0
    ensures BigValue(s) == 0
  {
  }

  lemma BigOfFour(s: seq<byte>)
    requires |s| == 4
    ensures BigValue(s) == 0x100_0000 * s[0] as int + 0x1_0000 * s[1] as int + 256 * s[2] as int + s[3] as int
  {
    hide BigValue;
    assert s[..4] == s;
    BigValueStep(s, 0);
    BigValueStep(s, 1);
    BigValueStep(s, 2);
    BigValueStep(s, 3);
    BigOfNone(s[..0]);
  }

  lemma BigOfEight(s: seq<byte>)
    requires |s| == 8
    ensures BigValue(s) == 0x1_0000_0000 * BigValue(s[..4]) + BigValue(s[4..])
  {
    hide BigValue;
    assert s[..8] == s;
    BigValueStep(s, 4);
    BigValueStep(s, 5);
    BigValueStep(s, 6);
    BigValueStep(s, 7);
    BigOfFour(s[4..]);
  }

  /** Any bytes read as a header: complete as soon as the length form and the mask bit say so, in any
      length form, also one longer than needed; eight bytes of length count as signed. */
  lemma HeaderOnWire(s: seq<byte>)
    requires |s| >= 2
    ensures var form := s[1] % 128;
            var fields := if form < 126 then 0 else if form == 126 then 2 else 8;
            var size := 2 + fields + if s[1] >= 128 then 4 else 0;
            var r := ReadHeader(s);
            && (r.Complete? <==> |s| >= size)
            && (r.Complete? ==>
                  && r.size == size
                  && r.h.opcode == s[0] % 16 && r.h.fin == (s[0] >= 128) && r.h.rsv1 == (s[0] / 64 % 2 == 1)
                  && r.h.rsv2 == (s[0] / 32 % 2 == 1) && r.h.rsv3 == (s[0] / 16 % 2 == 1)
                  && r.h.key == (if s[1] >= 128 then Some(s[2 + fields..size]) else None)
                  && (fields == 0 ==> r.h.length == form)
                  && (fields == 2 ==> r.h.length == 256 * s[2] as int + s[3] as int)
                  && (fields == 8 ==>
                        r.h.length == 0x1_0000_0000 * BigValue(s[2..6]) + BigValue(s[6..10])
                                      - if s[2] >= 128 then 0x1_0000_0000_0000_0000 else 0))
  {
    hide BigValue, Signed64;
    var form := s[1] % 128;
    if form == 126 && |s| >= 4 {
      BigOfTwo(s[2..4]);
      SmallSigned(BigValue(s[2..4]));
    } else if form == 127 && |s| >= 10 {
      EightBytes(s[2..10]);
      assert s[2..10][..4] == s[2..6] && s[2..10][4..] == s[6..10];
    }
  }

  lemma SmallSigned(n: nat)
    requires n < MAX_LENGTH
    ensures Signed64(n) == n
  {
  }

  lemma EightBytes(s: seq<byte>)
    requires |s| == 8
    ensures Signed64(BigValue(s)) == 0x1_0000_0000 * BigValue(s[..4]) + BigValue(s[4..])
                                     - if s[0] >= 128 then 0x1_0000_0000_0000_0000 else 0
  {
    hide BigValue, Signed64;
    var a, b := s[..4], s[4..];
    BigOfEight(s);
    BigOfFour(a);
    BigOfFour(b);
    SignOf(BigValue(a), BigValue(b), s[0]);
  }

  lemma SignOf(a: nat, b: nat, top: byte)
    requires 0x100_0000 * top as int <= a < 0x100_0000 * top as int + 0x100_0000 && b < 0x1_0000_0000
    ensures Signed64(0x1_0000_0000 * a + b)
         == 0x1_0000_0000 * a + b - if top >= 128 then 0x1_0000_0000_0000_0000 else 0
  {
    var n := 0x1_0000_0000 * a + b;
    assert n < 0x1_0000_0000_0000_0000;
    assert n % 0x1_0000_0000_0000_0000 == n;
  }
}
