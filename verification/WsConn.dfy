/** The WebSocket connection of src/cloud-base/websocket: header reader, frame reader, frame writer,
    control frames, and the two ways of reading. */
module WsConn {
  import opened Bytes
  import opened Streams
  import opened WsFrames
  import opened WsStream

  /** The last bytes of after are the payload, byte i XORed with byte i modulo 4 of the key. */
  ghost predicate EndsInPayload(before: seq<byte>, after: seq<byte>, key: Option<seq<byte>>, msg: seq<byte>)
    requires key.Some? ==> |key.value| == 4
  {
    && before <= after && |after| - |before| >= |msg|
    && forall i :: 0 <= i < |msg| ==>
         after[|after| - |msg| + i] == if key.Some? then XorByte(msg[i], key.value[i % 4]) else msg[i]
  }

  /** The connection to write to, with the frames that were written to it. */
  class Sink {
    var written: seq<byte>
    ghost var sent: seq<Frame>

    ghost predicate Valid()
      reads this
    {
      written == Wire(sent)
    }

    /** hybiFrameWriter.Write: one frame, or nothing at all when the masking key is not 4 bytes long. */
    method WriteFrame(fin: bool, rsv: seq<bool>, opcode: Nibble, key: Option<seq<byte>>, msg: seq<byte>)
      returns (badKey: bool)
      requires Valid() && |rsv| == 3 && |msg| < MAX_LENGTH
      modifies this
      ensures Valid()
      ensures badKey == (key.Some? && |key.value| != 4)
      ensures badKey ==> sent == old(sent) && written == old(written)
      ensures !badKey ==> sent == old(sent) + [Frame(fin, rsv[0], rsv[1], rsv[2], opcode, key, msg)]
      ensures !badKey ==> EndsInPayload(old(written), written, key, msg)
    {
      hide FirstByte, LengthBytes, Toggle, Wire, EndsInPayload;
      var header := StartHeader(fin, rsv, opcode, key.Some?, |msg|);
      if key.Some? && |key.value| != 4 {
        return true;
      }
      ghost var f := Frame(fin, rsv[0], rsv[1], rsv[2], opcode, key, msg);
      SameFirstByte(f);
      if key.Some? {
        header := header + key.value;
        var data := MaskedCopy(key.value, msg);
        Emit(header, data, f);
        MaskedLast(old(written), header, data, written, key.value, msg);
      } else {
        ToggleNothing(0, msg);
        Emit(header, msg, f);
        PlainLast(old(written), header, written, msg);
      }
      badKey := false;
    }

    /** Header and payload written and flushed. */
    method Emit(header: seq<byte>, data: seq<byte>, ghost f: Frame)
      requires Valid() && header + data == Encode(f)
      modifies this
      ensures Valid() && sent == old(sent) + [f]
      ensures written == old(written) + (header + data)
    {
      hide Encode, Wire;
      WireAppend(sent, f);
      written := written + header;
      written := written + data;
      sent := sent + [f];
      assert written == old(written) + (header + data);
    }
  }

  lemma MaskedLast(before: seq<byte>, header: seq<byte>, data: seq<byte>, after: seq<byte>, key: MaskKey, msg: seq<byte>)
    requires after == before + (header + data) && data == Toggle(Some(key), 0, msg)
    ensures EndsInPayload(before, after, Some(key), msg)
  {
    hide XorByte, Toggle;
    ShownBytes(Some(key), 0, msg, data);
  }

  lemma PlainLast(before: seq<byte>, header: seq<byte>, after: seq<byte>, msg: seq<byte>)
    requires after == before + (header + msg)
    ensures EndsInPayload(before, after, None, msg)
  {
  }

  lemma SameFirstByte(f: Frame)
    ensures FirstByte(f) == FirstByte(f.(key := None, payload := []))
  {}

  lemma ToggleNothing(pos: nat, msg: seq<byte>)
    ensures Toggle(None, pos, msg) == msg
  {}

  /** FIN, the three RSV bits and the opcode. */
  method StartByte(fin: bool, rsv: seq<bool>, opcode: Nibble) returns (b: byte)
    requires |rsv| == 3
    ensures b == FirstByte(Frame(fin, rsv[0], rsv[1], rsv[2], opcode, None, []))
  {
    b := Bit(fin, 128);
    for i := 0 to 3
      invariant b == Bit(fin, 128) + RsvSum(rsv, i)
    {
      if rsv[i] {
        b := b + RsvWeight(i);
      }
    }
    b := b + opcode;
  }

  /** 1 << (6 - i). */
  function RsvWeight(i: nat): nat {
    if i == 0 then 64 else if i == 1 then 32 else 16
  }

  function RsvSum(rsv: seq<bool>, n: nat): (r: nat)
    requires |rsv| == 3 && n <= 3
    ensures r <= 112
    ensures n == 3 ==> r == Bit(rsv[0], 64) + Bit(rsv[1], 32) + Bit(rsv[2], 16)
  {
    Bit(n > 0 && rsv[0], 64) + Bit(n > 1 && rsv[1], 32) + Bit(n > 2 && rsv[2], 16)
  }

  /** The first byte, the second byte, and the extended length. */
  method StartHeader(fin: bool, rsv: seq<bool>, opcode: Nibble, masked: bool, length: nat) returns (header: seq<byte>)
    requires |rsv| == 3 && length < MAX_LENGTH
    ensures header == [FirstByte(Frame(fin, rsv[0], rsv[1], rsv[2], opcode, None, []))] + LengthBytes(masked, length)
  {
    hide FirstByte;
    var b := StartByte(fin, rsv, opcode);
    header := [b];
    var lengthFields := 0;
    b := Bit(masked, 128);
    if length <= 125 {
      b := b + length;
    } else if length < 65536 {
      b := b + 126;
      lengthFields := 2;
    } else {
      b := b + 127;
      lengthFields := 8;
    }
    header := header + [b];
    var extended := BigBytes(length, lengthFields);
    header := header + extended;
  }

  method BigBytes(length: nat, lengthFields: nat) returns (s: seq<byte>)
    ensures s == Big(length, lengthFields)
  {
    s := [];
    for i := 0 to lengthFields
      invariant s == Big(length, lengthFields)[..i]
    {
      BigAt(length, lengthFields, i);
      s := s + [ShiftRight(length, lengthFields - i - 1) % 256];
    }
  }

  method MaskedCopy(key: MaskKey, msg: seq<byte>) returns (t: seq<byte>)
    ensures t == Toggle(Some(key), 0, msg)
  {
    hide XorByte;
    var data := new byte[|msg|](_ => 0);
    for i := 0 to |msg|
      invariant forall k :: 0 <= k < i ==> data[k] == XorByte(msg[k], key[k % 4])
    {
      data[i] := XorByte(msg[i], key[i % 4]);
    }
    t := data[..];
  }

  lemma {:induction false} WireAppend(frames: seq<Frame>, f: Frame)
    ensures Wire(frames + [f]) == Wire(frames) + Encode(f)
    decreases |frames|
  {
    hide Encode;
    if |frames| == 0 {
      assert frames + [f] == [f] && [f][1..] == [];
      assert Wire([f]) == Encode(f) + Wire([]);
    } else {
      WireAppend(frames[1..], f);
      assert (frames + [f])[1..] == frames[1..] + [f];
    }
  }

  /** hybiFrameReader: the payload of one frame, read through a limit and unmasked in place. */
  class FrameReader {
    const source: Source
    var header: FrameHeader
    var pos: nat
    var left: int

    constructor (source: Source, header: FrameHeader)
      ensures this.source == source && this.header == header && pos == 0 && left == header.length
    {
      this.source := source;
      this.header := header;
      pos := 0;
      left := header.length;
    }

    ghost function Position(): Cursor
      reads this
    {
      Cursor(header.key, pos, left)
    }

    /** Reads into msg[at..]. */
    method Read(msg: array<byte>, at: nat) returns (n: nat, eof: bool)
      requires at < msg.Length
      modifies this, source, msg
      ensures header == old(header)
      ensures eof <==> Within(old(left), old(source.incoming)) == 0
      ensures eof <==> old(left) <= 0 || old(source.incoming) == []
      ensures !eof ==> 1 <= n <= old(left)
      ensures at + n <= msg.Length && n <= Within(old(left), old(source.incoming)) && (eof <==> n == 0)
      ensures source.incoming == old(source.incoming)[n..]
      ensures left == old(left) - n && (header.key.Some? ==> pos == old(pos) + n)
      ensures msg[at..at + n] == Toggle(header.key, old(pos), old(source.incoming)[..n])
      ensures forall i :: 0 <= i < n ==>
                msg[at + i] == if header.key == None then old(source.incoming)[i]
                               else XorByte(old(source.incoming)[i], header.key.value[(old(pos) + i) % 4])
      ensures msg[..at] == old(msg[..at]) && msg[at + n..] == old(msg[at + n..])
    {
      hide Toggle, XorByte;
      ghost var start, s := pos, source.incoming;
      if left <= 0 {
        ToggleEmpty(header.key, pos);
        return 0, true;
      }
      var k := if msg.Length - at <= left then msg.Length - at else left;
      n, eof := source.Read(msg, at, k);
      left := left - n;
      if eof {
        ToggleEmpty(header.key, pos);
        return 0, true;
      }
      if header.key.Some? {
        Unmask(msg, at, n);
      } else {
        ToggleNothing(pos, msg[at..at + n]);
      }
      ShownBytes(header.key, start, s[..n], msg[at..at + n]);
    }

    /** The payload bytes unmasked in the caller's buffer. */
    method Unmask(msg: array<byte>, at: nat, n: nat)
      requires header.key.Some? && at + n <= msg.Length
      modifies `pos, msg
      ensures pos == old(pos) + n
      ensures msg[at..at + n] == Toggle(header.key, old(pos), old(msg[at..at + n]))
      ensures msg[..at] == old(msg[..at]) && msg[at + n..] == old(msg[at + n..])
    {
      hide XorByte;
      ghost var start, raw := pos, msg[..];
      for i := 0 to n
        invariant pos == start + i
        invariant forall j :: at <= j < at + i ==> msg[j] == XorByte(raw[j], header.key.value[(start + (j - at)) % 4])
        invariant forall j :: 0 <= j < msg.Length && !(at <= j < at + i) ==> msg[j] == raw[j]
      {
        msg[at + i] := XorByte(msg[at + i], header.key.value[pos % 4]);
        pos := pos + 1;
      }
      ghost var piece := raw[at..at + n];
      assert forall k :: 0 <= k < n ==> piece[k] == raw[at + k];
      assert msg[at..at + n] == Toggle(header.key, start, piece);
    }
  }

  lemma ShownBytes(key: Option<MaskKey>, pos: nat, raw: seq<byte>, shown: seq<byte>)
    requires shown == Toggle(key, pos, raw)
    ensures |shown| == |raw|
    ensures forall i :: 0 <= i < |raw| ==>
              shown[i] == if key == None then raw[i] else XorByte(raw[i], key.value[(pos + i) % 4])
  {
    hide XorByte;
  }

  lemma ToggleEmpty(key: Option<MaskKey>, pos: nat)
    ensures Toggle(key, pos, []) == []
  {}

  // ----- reading a frame header -----

  lemma ReadStep(s: seq<byte>, i: nat)
    requires i < |s|
    ensures s[i..] != [] && s[i..][0] == s[i] && s[i..][1..] == s[i + 1..]
  {}

  /** n bytes one by one; None when the input ends before. */
  method ReadBytes(source: Source, n: nat) returns (bytes: Option<seq<byte>>)
    modifies source
    ensures |old(source.incoming)| < n ==> bytes == None && source.incoming == []
    ensures |old(source.incoming)| >= n ==>
              bytes == Some(old(source.incoming)[..n]) && source.incoming == old(source.incoming)[n..]
  {
    ghost var s := source.incoming;
    var got: seq<byte> := [];
    for i := 0 to n
      invariant i <= |s| && got == s[..i] && source.incoming == s[i..]
    {
      if i < |s| {
        ReadStep(s, i);
      }
      var b := source.ReadByte();
      if b == None {
        return None;
      }
      got := got + [b.value];
    }
    bytes := Some(got);
  }

  /** The extended length, accumulated byte by byte in int64 arithmetic. */
  method ReadLength(source: Source, lengthFields: nat) returns (length: Option<int>)
    requires lengthFields == 2 || lengthFields == 8
    modifies source
    ensures |old(source.incoming)| < lengthFields ==> length == None && source.incoming == []
    ensures |old(source.incoming)| >= lengthFields ==>
              && length == Some(Signed64(BigValue(old(source.incoming)[..lengthFields])))
              && source.incoming == old(source.incoming)[lengthFields..]
  {
    hide Signed64, BigValue;
    ghost var s := source.incoming;
    var l := 0;
    EmptyLength(s);
    for i := 0 to lengthFields
      invariant i <= |s| && l == Signed64(BigValue(s[..i])) && source.incoming == s[i..]
    {
      if i < |s| {
        ReadStep(s, i);
        AccumulateLength(s, i);
      }
      var b := source.ReadByte();
      if b == None {
        return None;
      }
      l := Wrap64(l * 256 + b.value);
    }
    length := Some(l);
  }

  /** int64 wrap-around. */
  function Wrap64(n: int): int {
    (n + MAX_LENGTH) % 0x1_0000_0000_0000_0000 - MAX_LENGTH
  }

  lemma EmptyLength(s: seq<byte>)
    ensures Signed64(BigValue(s[..0])) == 0
  {}

  lemma AccumulateLength(s: seq<byte>, i: nat)
    requires i < |s| && i < 8
    ensures Signed64(BigValue(s[..i + 1])) == Wrap64(Signed64(BigValue(s[..i])) * 256 + s[i])
  {
    hide BigValue;
    var v, w := BigValue(s[..i]), BigValue(s[..i + 1]);
    BigValueStep(s, i);
    BigValueBound(s[..i]);
    PowerBound(i);
    assert w < 0x1_0000_0000_0000_0000;
  }

  lemma PowerBound(i: nat)
    requires i < 8
    ensures Power256(i) <= 0x100_0000_0000_0000
  {
    assert Power256(0) == 1 && Power256(1) == 0x100 && Power256(2) == 0x1_0000 && Power256(3) == 0x100_0000;
    assert Power256(4) == 0x1_0000_0000 && Power256(5) == 0x100_0000_0000;
    assert Power256(6) == 0x1_0000_0000_0000 && Power256(7) == 0x100_0000_0000_0000;
  }

  /** NewFrameReader: the header of the next frame, and a reader for its payload; null at the end. */
  method NewFrameReader(source: Source) returns (frame: FrameReader?)
    modifies source
    ensures var r := ReadHeader(old(source.incoming));
            && (frame == null <==> r.Incomplete?)
            && (frame == null ==> source.incoming == [])
            && (frame != null ==>
                && fresh(frame) && frame.source == source && frame.header == r.h
                && frame.pos == 0 && frame.left == r.h.length
                && source.incoming == old(source.incoming)[r.size..])
  {
    hide Signed64, BigValue;
    ghost var s := source.incoming;
    var start := ReadBytes(source, 2);
    if start == None {
      return null;
    }
    var b0, b := start.value[0], start.value[1];
    var mask := b >= 128;
    var length := b % 128;
    var lengthFields := LengthFields(length);
    if lengthFields > 0 {
      var extended := ReadLength(source, lengthFields);
      if extended == None {
        return null;
      }
      length := extended.value;
      assert s[2..][..lengthFields] == s[2..2 + lengthFields];
    }
    assert source.incoming == s[2 + lengthFields..];
    var key: Option<MaskKey> := None;
    if mask {
      var bytes := ReadBytes(source, 4);
      if bytes == None {
        return null;
      }
      key := Some(bytes.value);
      assert s[2 + lengthFields..][..4] == s[2 + lengthFields..2 + lengthFields + 4];
    }
    frame := new FrameReader(source,
      FrameHeader(b0 / 128 == 1, b0 / 64 % 2 == 1, b0 / 32 % 2 == 1, b0 / 16 % 2 == 1, b0 % 16, length, key));
  }

  // ----- reading a payload to its end -----

  lemma WithinStep(left: int, s: seq<byte>, n: nat)
    requires n <= Within(left, s)
    ensures Within(left - n, s[n..]) == Within(left, s) - n
  {}

  lemma PingTail(left: int, s: seq<byte>, n: nat)
    requires n <= Within(left, s)
    ensures s[n..][Within(left - n, s[n..])..] == s[Within(left, s)..]
  {
    var all := Within(left, s);
    WithinStep(left, s, n);
    assert s[n..][all - n..] == s[all..];
  }

  lemma ToggleStep(key: Option<MaskKey>, pos: nat, s: seq<byte>, m: nat, n: nat)
    requires m + n <= |s|
    ensures Toggle(key, pos, s[..m + n]) == Toggle(key, pos, s[..m]) + Toggle(key, pos + m, s[m..][..n])
  {
    hide Toggle;
    assert s[..m + n] == s[..m] + s[m..][..n];
    ToggleConcat(key, pos, s[..m], s[m..][..n]);
  }

  lemma ToggleAnywhere(pos: nat, pos': nat, data: seq<byte>)
    ensures Toggle(None, pos, data) == Toggle(None, pos', data)
  {}

  /** io.ReadFull: reads until the buffer is full or the payload ends. */
  method ReadPayloadFull(frame: FrameReader, buf: array<byte>) returns (n: nat)
    modifies frame, frame.source, buf
    ensures frame.header == old(frame.header)
    ensures var all := Within(old(frame.left), old(frame.source.incoming));
            && n == (if all <= buf.Length then all else buf.Length)
            && buf[..n] == Toggle(frame.header.key, old(frame.pos), old(frame.source.incoming)[..n])
            && frame.source.incoming == old(frame.source.incoming)[n..]
            && frame.left == old(frame.left) - n
  {
    hide Toggle;
    ghost var s, start, key, left := frame.source.incoming, frame.pos, frame.header.key, frame.left;
    n := 0;
    ToggleEmpty(key, start);
    while n < buf.Length
      invariant n <= buf.Length && n <= Within(left, s)
      invariant frame.header == old(frame.header)
      invariant frame.source.incoming == s[n..] && frame.left == left - n
      invariant key.Some? ==> frame.pos == start + n
      invariant buf[..n] == Toggle(key, start, s[..n])
      decreases buf.Length - n
    {
      WithinStep(left, s, n);
      ghost var p := frame.pos;
      var m, eof := frame.Read(buf, n);
      if eof {
        break;
      }
      if key == None {
        ToggleAnywhere(p, start + n, s[n..][..m]);
      }
      ToggleStep(key, start, s, n, m);
      assert buf[..n + m] == buf[..n] + buf[n..n + m];
      assert s[n..][m..] == s[n + m..];
      n := n + m;
    }
  }

  /** io.Copy to nowhere: reads until the payload ends. */
  method Discard(frame: FrameReader)
    modifies frame, frame.source
    ensures frame.header == old(frame.header)
    ensures frame.source.incoming == old(frame.source.incoming)[Within(old(frame.left), old(frame.source.incoming))..]
  {
    var data := ReadAll(frame);
  }

  /** ioutil.ReadAll: the rest of the payload. */
  method ReadAll(frame: FrameReader) returns (data: seq<byte>)
    modifies frame, frame.source
    ensures frame.header == old(frame.header)
    ensures var all := Within(old(frame.left), old(frame.source.incoming));
            && data == Toggle(frame.header.key, old(frame.pos), old(frame.source.incoming)[..all])
            && frame.source.incoming == old(frame.source.incoming)[all..]
  {
    hide Toggle;
    ghost var s, start, key, left := frame.source.incoming, frame.pos, frame.header.key, frame.left;
    data := [];
    ToggleEmpty(key, start);
    var buf := new byte[512](_ => 0);
    while true
      invariant |data| <= Within(left, s)
      invariant frame.header == old(frame.header)
      invariant frame.source.incoming == s[|data|..] && frame.left == left - |data|
      invariant key.Some? ==> frame.pos == start + |data|
      invariant data == Toggle(key, start, s[..|data|])
      decreases |s| - |data|
    {
      ghost var n, p := |data|, frame.pos;
      WithinStep(left, s, n);
      var m, eof := frame.Read(buf, 0);
      if eof {
        break;
      }
      if key == None {
        ToggleAnywhere(p, start + n, s[n..][..m]);
      }
      ToggleStep(key, start, s, n, m);
      assert s[n..][m..] == s[n + m..];
      data := data + buf[0..m];
    }
  }

  // ----- the connection -----

  /** f is how this end puts reply r on the wire: final, and masked exactly on the client side. */
  predicate IsReply(mode: Mode, f: Frame, r: Reply) {
    && f.fin && !f.rsv1 && !f.rsv2 && !f.rsv3
    && (f.key.Some? <==> !mode.server)
    && match r
       case Pong(payload) => f.opcode == PONG && f.payload == payload
       case Close(status) => f.opcode == CLOSE && f.payload == Big(status, 2)
  }

  /** Between before and after, exactly the frames for the replies were written, in order. */
  ghost predicate Answers(mode: Mode, before: seq<Frame>, after: seq<Frame>, replies: seq<Reply>) {
    && |after| == |before| + |replies|
    && after[..|before|] == before
    && forall i :: 0 <= i < |replies| ==> IsReply(mode, after[|before| + i], replies[i])
  }

  /** A pong is a final frame with opcode 10; closing for a protocol error is one with opcode 8 and the
      two bytes of 1002; a client masks them and a server does not. */
  lemma RepliesOnWire(mode: Mode, f: Frame, payload: seq<byte>)
    ensures IsReply(mode, f, Pong(payload)) <==>
              && f.fin && !f.rsv1 && !f.rsv2 && !f.rsv3 && f.opcode == 10 && f.payload == payload
              && f.key.None? == mode.server
    ensures IsReply(mode, f, Close(1002)) <==>
              && f.fin && !f.rsv1 && !f.rsv2 && !f.rsv3 && f.opcode == 8 && f.payload == [3, 234]
              && f.key.None? == mode.server
  {
    BigAt(1002, 2, 0);
    BigAt(1002, 2, 1);
    assert Big(1002, 2) == [3, 234];
  }

  lemma AnswersConcat(mode: Mode, a: seq<Frame>, b: seq<Frame>, c: seq<Frame>, r: seq<Reply>, q: seq<Reply>)
    requires Answers(mode, a, b, r) && Answers(mode, b, c, q)
    ensures Answers(mode, a, c, r + q)
  {
    hide IsReply;
    assert c[..|a|] == c[..|b|][..|a|];
    forall i | 0 <= i < |r + q|
      ensures IsReply(mode, c[|a| + i], (r + q)[i])
    {
      if i < |r| {
        assert c[|a| + i] == c[..|b|][|a| + i];
      } else {
        assert |a| + i == |b| + (i - |r|);
      }
    }
  }

  class Conn {
    const mode: Mode
    const source: Source
    const sink: Sink
    /** The type remembered by the frame handler. */
    var payloadType: Nibble
    /** The frame that is being read, if any. */
    var frameReader: FrameReader?

    constructor (mode: Mode, source: Source, sink: Sink)
      requires sink.Valid()
      ensures this.mode == mode && this.source == source && this.sink == sink
      ensures Valid() && frameReader == null && payloadType == 0
    {
      this.mode := mode;
      this.source := source;
      this.sink := sink;
      payloadType := 0;
      frameReader := null;
    }

    ghost predicate Valid()
      reads this, sink, frameReader
    {
      sink.Valid() && (frameReader != null ==> frameReader.source == source)
    }

    ghost function Reading(): Option<Cursor>
      reads this, frameReader
    {
      if frameReader == null then None else Some(frameReader.Position())
    }

    /** What reading on from here delivers, writes, and ends with. */
    ghost function ToCome(): Run
      reads this, source, frameReader
    {
      Remaining(mode, payloadType, Reading(), source.incoming)
    }

    /** A control frame on this end's own account, masked with a random key on the client side. */
    method WriteControl(opcode: Nibble, payload: seq<byte>, ghost reply: Reply)
      requires Valid() && |payload| <= MAX_CONTROL
      requires match reply
               case Pong(p) => opcode == PONG && payload == p
               case Close(status) => opcode == CLOSE && payload == Big(status, 2)
      modifies sink
      ensures sink.Valid() && Answers(mode, old(sink.sent), sink.sent, [reply])
    {
      var key: Option<MaskKey> := None;
      if !mode.server {
        var b0: byte, b1: byte, b2: byte, b3: byte := *, *, *, *;
        key := Some([b0, b1, b2, b3]);
      }
      var badKey := sink.WriteFrame(true, [false, false, false], opcode, key, payload);
    }

    /** A ping: up to 125 bytes of its payload are sent back, the rest is thrown away. */
    method AnswerPing(frame: FrameReader) returns (ghost reply: Reply)
      requires Valid() && frame.source == source && frame.pos == 0 && frame.left == frame.header.length
      modifies frame, source, sink
      ensures sink.Valid() && Answers(mode, old(sink.sent), sink.sent, [reply])
      ensures frame.source == source
      ensures reply == PongFor(old(frame.header), old(source.incoming))
      ensures source.incoming == old(source.incoming)[Within(old(frame.left), old(source.incoming))..]
    {
      hide Toggle, Answers, Within, PongFor, Wire;
      ghost var t, h, left := source.incoming, frame.header, frame.left;
      var pingMsg := new byte[MAX_CONTROL](_ => 0);
      var n := ReadPayloadFull(frame, pingMsg);
      Discard(frame);
      PingTail(left, t, n);
      PongPayload(h, t, n);
      reply := Pong(pingMsg[..n]);
      WriteControl(PONG, pingMsg[..n], reply);
    }

    /** HandleFrame: control frames are dealt with here; frames with data are handed back. */
    method HandleFrame(frame: FrameReader, ghost s: seq<byte>)
      returns (r: FrameReader?, err: Option<Ending>, ghost replies: seq<Reply>)
      requires Valid() && frame.source == source && frame.pos == 0 && frame.left == frame.header.length
      requires ReadHeader(s).Complete? && frame.header == ReadHeader(s).h && source.incoming == s[ReadHeader(s).size..]
      modifies `payloadType, frame, source, sink
      ensures sink.Valid() && Answers(mode, old(sink.sent), sink.sent, replies)
      ensures frame.source == source && |source.incoming| <= |old(source.incoming)|
      ensures var next := NextFrame(mode, old(payloadType), s);
              && (err.Some? ==> r == null && next == Ended(err.value, replies))
              && (err == None && r == null ==>
                    (&& |replies| == 1
                     && next == After(replies[0], NextFrame(mode, payloadType, source.incoming))))
              && (r != null ==>
                    (&& r == frame && err == None && frame.pos == 0 && source.incoming == old(source.incoming)
                     && next == Payload(frame.header.opcode, payloadType, frame.header.key, frame.left,
                                        source.incoming, replies)))
    {
      hide Toggle, ReadHeader, Big, IsReply, PongFor;
      r, err, replies := null, None, [];
      if BadMask(mode, frame.header.key) {
        replies := [Close(PROTOCOL_ERROR)];
        WriteControl(CLOSE, Big(PROTOCOL_ERROR, 2), Close(PROTOCOL_ERROR));
        return null, Some(Eof), replies;
      }
      var op := frame.header.opcode;
      if op == CONTINUATION {
        frame.header := frame.header.(opcode := payloadType);
      } else if op == TEXT || op == BINARY {
        payloadType := op;
      } else if op == CLOSE {
        return null, Some(Eof), [];
      } else if op == PING {
        ghost var reply := AnswerPing(frame);
        return null, None, [reply];
      } else if op == PONG {
        return null, Some(NotImplemented), [];
      }
      r := frame;
    }

    /** The next frame with data becomes the current one; or the connection ends. Pings are answered
        on the way. */
    method NextReader() returns (r: FrameReader?, err: Option<Ending>, ghost replies: seq<Reply>)
      requires Valid()
      modifies `payloadType, source, sink
      ensures sink.Valid() && Answers(mode, old(sink.sent), sink.sent, replies)
      ensures r == null <==> err.Some?
      ensures r != null ==> fresh(r) && r.source == source && r.pos == 0 && |source.incoming| < |old(source.incoming)|
      ensures var next := NextFrame(mode, old(payloadType), old(source.incoming));
              && (err.Some? ==> next == Ended(err.value, replies))
              && (r != null ==>
                    next == Payload(r.header.opcode, payloadType, r.header.key, r.left, source.incoming, replies))
    {
      hide ReadHeader, NextFrame;
      replies := [];
      while true
        invariant sink.Valid() && Answers(mode, old(sink.sent), sink.sent, replies)
        invariant |source.incoming| <= |old(source.incoming)|
        invariant NextFrame(mode, old(payloadType), old(source.incoming))
               == Prepended(replies, NextFrame(mode, payloadType, source.incoming))
        decreases |source.incoming|
      {
        ghost var s, before := source.incoming, sink.sent;
        var frame := NewFrameReader(source);
        if frame == null {
          NothingNext(mode, payloadType, s);
          return null, Some(Eof), replies;
        }
        ghost var more: seq<Reply>;
        r, err, more := HandleFrame(frame, s);
        AnswersConcat(mode, old(sink.sent), before, sink.sent, replies, more);
        PrependedMore(replies, more, r == null && err == None, NextFrame(mode, payloadType, source.incoming));
        replies := replies + more;
        if err.Some? || r != null {
          return;
        }
      }
    }

    /** On a frame boundary: the next frame becomes the current one, or the connection ends. */
    method Advance() returns (err: Option<Ending>, ghost replies: seq<Reply>)
      requires Valid() && frameReader == null
      modifies this, source, sink
      ensures Valid() && Answers(mode, old(sink.sent), sink.sent, replies)
      ensures err.Some? ==> frameReader == null && old(ToCome()) == Run([], replies, err.value)
      ensures err == None ==>
                (&& frameReader != null && fresh(frameReader) && |source.incoming| < |old(source.incoming)|
                 && old(ToCome()) == Run(ToCome().data, replies + ToCome().replies, ToCome().end))
    {
      hide NextFrame, Follow, Toggle, Answers;
      FollowUnfolds(mode, payloadType, source.incoming);
      frameReader, err, replies := NextReader();
    }

    /** Within a frame: some of its payload, or, at its end, the frame boundary. */
    method ReadPayload(msg: array<byte>) returns (n: nat, eof: bool)
      requires Valid() && frameReader != null && msg.Length > 0
      modifies `frameReader, source, msg, frameReader
      ensures Valid()
      ensures eof ==> (&& frameReader == null && ToCome() == old(ToCome()) && msg[..] == old(msg[..])
                       && |source.incoming| <= |old(source.incoming)|)
      ensures !eof ==>
                (&& frameReader == old(frameReader) && 1 <= n <= msg.Length && msg[n..] == old(msg[n..])
                 && old(ToCome()) == Run(msg[..n] + ToCome().data, ToCome().replies, ToCome().end))
    {
      hide NextFrame, Follow, Toggle;
      ghost var c, s := frameReader.Position(), source.incoming;
      n, eof := frameReader.Read(msg, 0);
      if eof {
        RemainingDone(mode, payloadType, c, s);
        frameReader := null;
      } else {
        RemainingStep(mode, payloadType, c, s, n, frameReader.Position());
        assert msg[0..n] == msg[..n];
      }
    }

    /** Read: the next bytes of data, up to the size of the buffer; what was to come is exactly what is
        delivered and written now followed by what is still to come. */
    method Read(msg: array<byte>) returns (n: nat, err: Option<Ending>, ghost replies: seq<Reply>)
      requires Valid() && msg.Length > 0
      modifies this, source, sink, msg, frameReader
      ensures Valid() && Answers(mode, old(sink.sent), sink.sent, replies)
      ensures frameReader == old(frameReader) || frameReader == null || fresh(frameReader)
      ensures err.Some? ==>
                n == 0 && msg[..] == old(msg[..]) && old(ToCome()) == Run([], replies, err.value)
      ensures err == None ==>
                (&& 1 <= n <= msg.Length && msg[n..] == old(msg[n..])
                 && old(ToCome()) == Run(msg[..n] + ToCome().data, replies + ToCome().replies, ToCome().end))
    {
      hide ToCome, Answers, Valid, Wire;
      replies := [];
      NoAnswers(mode, sink.sent);
      while true
        invariant Valid() && Answers(mode, old(sink.sent), sink.sent, replies)
        invariant frameReader == old(frameReader) || frameReader == null || fresh(frameReader)
        invariant msg[..] == old(msg[..])
        invariant old(ToCome()) == Run(ToCome().data, replies + ToCome().replies, ToCome().end)
        decreases |source.incoming|, frameReader != null
      {
        if frameReader == null {
          ghost var before, run := sink.sent, ToCome();
          ghost var more: seq<Reply>;
          err, more := Advance();
          AnswersConcat(mode, old(sink.sent), before, sink.sent, replies, more);
          if err.Some? {
            assert run == Run([], more, err.value);
            return 0, err, replies + more;
          }
          assert replies + (more + ToCome().replies) == (replies + more) + ToCome().replies;
          replies := replies + more;
        }
        var eof;
        n, eof := ReadPayload(msg);
        if !eof {
          return n, None, replies;
        }
      }
    }

    /** Receive: the payload of the next frame with data, whole; what is unread of a partly read frame
        is dropped first, and pings are answered on the way. */
    method Receive() returns (data: seq<byte>, kind: Nibble, err: Option<Ending>, ghost replies: seq<Reply>)
      requires Valid()
      modifies this, source, sink, frameReader
      ensures Valid() && frameReader == null && Answers(mode, old(sink.sent), sink.sent, replies)
      ensures match NextFrame(mode, old(payloadType), AtBoundary(old(Reading()), old(source.incoming)))
              case Ended(end, written) => err == Some(end) && data == [] && replies == written
              case Payload(k, last, key, length, rest, written) =>
                && err == None && kind == k && payloadType == last && replies == written
                && data == Toggle(key, 0, rest[..Within(length, rest)])
                && source.incoming == rest[Within(length, rest)..]
    {
      hide NextFrame, Toggle;
      data, kind := [], 0;
      if frameReader != null {
        Discard(frameReader);
        frameReader := null;
      }
      var frame;
      frame, err, replies := NextReader();
      if err.Some? {
        return;
      }
      kind := frame.header.opcode;
      data := ReadAll(frame);
    }

    /** Write always sends a binary frame. */
    method Write(msg: seq<byte>)
      requires Valid() && |msg| < MAX_LENGTH
      modifies sink
      ensures sink.Valid() && |sink.sent| == |old(sink.sent)| + 1 && sink.sent[..|old(sink.sent)|] == old(sink.sent)
      ensures var f := sink.sent[|old(sink.sent)|];
              && f == Frame(true, false, false, false, BINARY, f.key, msg)
              && (f.key.Some? <==> !mode.server)
    {
      Send(BINARY, msg);
    }

    /** Send: one final frame of the type of the marshalled value, masked with a random key on the
        client side. */
    method Send(opcode: Nibble, msg: seq<byte>)
      requires Valid() && |msg| < MAX_LENGTH
      modifies sink
      ensures sink.Valid() && |sink.sent| == |old(sink.sent)| + 1 && sink.sent[..|old(sink.sent)|] == old(sink.sent)
      ensures var f := sink.sent[|old(sink.sent)|];
              && f == Frame(true, false, false, false, opcode, f.key, msg)
              && (f.key.Some? <==> !mode.server)
    {
      var key: Option<MaskKey> := None;
      if !mode.server {
        var b0: byte, b1: byte, b2: byte, b3: byte := *, *, *, *;
        key := Some([b0, b1, b2, b3]);
      }
      var badKey := sink.WriteFrame(true, [false, false, false], opcode, key, msg);
    }
  }

  /** Reading a connection to its end, with buffers of any sizes. */
  method ReadToEnd(conn: Conn) returns (data: seq<byte>, end: Ending, ghost replies: seq<Reply>)
    requires conn.Valid()
    modifies conn, conn.source, conn.sink, conn.frameReader
    ensures conn.Valid() && Answers(conn.mode, old(conn.sink.sent), conn.sink.sent, replies)
    ensures old(conn.ToCome()) == Run(data, replies, end)
  {
    hide Answers, Conn.ToCome, Conn.Valid;
    ghost var run, mode, sink := conn.ToCome(), conn.mode, conn.sink;
    data, replies := [], [];
    NoAnswers(mode, sink.sent);
    while true
      invariant conn.Valid() && Answers(mode, old(sink.sent), sink.sent, replies)
      invariant conn.frameReader == old(conn.frameReader) || conn.frameReader == null || fresh(conn.frameReader)
      invariant run == Run(data + conn.ToCome().data, replies + conn.ToCome().replies, conn.ToCome().end)
      decreases |conn.ToCome().data|
    {
      var size: int := *;
      var msg := new byte[if size > 0 then size else 1](_ => 0);
      ghost var before, here := sink.sent, conn.ToCome();
      ghost var more: seq<Reply>;
      var n, err;
      n, err, more := conn.Read(msg);
      AnswersConcat(mode, old(sink.sent), before, sink.sent, replies, more);
      if err.Some? {
        end := err.value;
        replies := replies + more;
        return;
      }
      ghost var q := conn.ToCome();
      assert data + (msg[..n] + q.data) == (data + msg[..n]) + q.data;
      assert replies + (more + q.replies) == (replies + more) + q.replies;
      data := data + msg[..n];
      replies := replies + more;
    }
  }

  /** Receiving from a connection to its end: for every input, what the rest of a partly read frame
      leaves is received message by message. */
  method ReceiveToEnd(conn: Conn) returns (messages: seq<Message>, end: Ending, ghost replies: seq<Reply>)
    requires conn.Valid()
    modifies conn, conn.source, conn.sink, conn.frameReader
    ensures conn.Valid() && Answers(conn.mode, old(conn.sink.sent), conn.sink.sent, replies)
    ensures Inbox(messages, replies, end)
         == InboxOf(conn.mode, old(conn.payloadType), AtBoundary(old(conn.Reading()), old(conn.source.incoming)))
  {
    hide Answers, NextFrame, Toggle;
    ghost var mode, sink, source := conn.mode, conn.sink, conn.source;
    ghost var all := InboxOf(mode, conn.payloadType, AtBoundary(conn.Reading(), source.incoming));
    messages, replies := [], [];
    NoAnswers(mode, sink.sent);
    ghost var s := AtBoundary(conn.Reading(), source.incoming);
    while true
      invariant conn.Valid() && Answers(mode, old(sink.sent), sink.sent, replies)
      invariant conn.frameReader == old(conn.frameReader) || conn.frameReader == null
      invariant s == AtBoundary(conn.Reading(), source.incoming)
      invariant var q := InboxOf(mode, conn.payloadType, s);
                all == Inbox(messages + q.messages, replies + q.replies, q.end)
      decreases |s|
    {
      ghost var before, last, q := sink.sent, conn.payloadType, InboxOf(mode, conn.payloadType, s);
      ghost var more: seq<Reply>;
      var data, kind, err;
      data, kind, err, more := conn.Receive();
      AnswersConcat(mode, old(sink.sent), before, sink.sent, replies, more);
      if err.Some? {
        end := err.value;
        replies := replies + more;
        return;
      }
      s := source.incoming;
      ghost var rest := InboxOf(mode, conn.payloadType, s);
      assert q == Inbox([Message(kind, data)] + rest.messages, more + rest.replies, rest.end);
      assert messages + ([Message(kind, data)] + rest.messages) == (messages + [Message(kind, data)]) + rest.messages;
      assert replies + (more + rest.replies) == (replies + more) + rest.replies;
      messages := messages + [Message(kind, data)];
      replies := replies + more;
    }
  }

  /** A connection at a frame boundary, with well-formed frames to read: whatever its buffers and
      chunks, Read will deliver all their data and answer all their pings, and then end. */
  lemma WholeConnection(conn: Conn, frames: seq<Frame>)
    requires conn.Valid() && conn.frameReader == null && conn.source.incoming == Wire(frames)
    requires forall f :: f in frames ==> WellFormed(conn.mode, f)
    ensures conn.ToCome() == Run(DataOf(frames), PongsOf(frames), Eof)
  {
    hide Follow, Wire;
    WholeStream(conn.mode, conn.payloadType, frames);
  }

  lemma NoAnswers(mode: Mode, sent: seq<Frame>)
    ensures Answers(mode, sent, sent, [])
  {}

  /** The replies that were written before whatever comes next. */
  function Prepended(replies: seq<Reply>, r: Next): Next {
    match r
    case Ended(end, more) => Ended(end, replies + more)
    case Payload(kind, last, key, length, rest, more) => Payload(kind, last, key, length, rest, replies + more)
  }

  lemma PrependedMore(replies: seq<Reply>, more: seq<Reply>, again: bool, r: Next)
    ensures again && |more| == 1 ==> Prepended(replies, After(more[0], r)) == Prepended(replies + more, r)
  {
    if again && |more| == 1 {
      var q := r.replies;
      assert replies + ([more[0]] + q) == (replies + more) + q;
    }
  }

  lemma NothingNext(mode: Mode, last: Nibble, s: seq<byte>)
    requires ReadHeader(s).Incomplete?
    ensures NextFrame(mode, last, s) == Ended(Eof, [])
  {}

  lemma FollowUnfolds(mode: Mode, last: Nibble, s: seq<byte>)
    ensures match NextFrame(mode, last, s)
            case Ended(end, replies) => Follow(mode, last, s) == Run([], replies, end)
            case Payload(_, last', key, length, t, replies) =>
              var r := Remaining(mode, last', Some(Cursor(key, 0, length)), t);
              Follow(mode, last, s) == Run(r.data, replies + r.replies, r.end)
  {
    hide NextFrame, Toggle;
  }

  lemma RemainingDone(mode: Mode, last: Nibble, c: Cursor, s: seq<byte>)
    requires Within(c.left, s) == 0
    ensures Remaining(mode, last, Some(c), s) == Follow(mode, last, s)
  {
    hide Follow, Toggle;
    ToggleEmpty(c.key, c.pos);
    assert s[..0] == [] && s[0..] == s;
  }

  lemma RemainingStep(mode: Mode, last: Nibble, c: Cursor, s: seq<byte>, n: nat, c': Cursor)
    requires n <= Within(c.left, s)
    requires c'.key == c.key && c'.left == c.left - n && (c.key.Some? ==> c'.pos == c.pos + n)
    ensures var r, q := Remaining(mode, last, Some(c), s), Remaining(mode, last, Some(c'), s[n..]);
            r == Run(Toggle(c.key, c.pos, s[..n]) + q.data, q.replies, q.end)
  {
    hide Follow, Toggle;
    var all := Within(c.left, s);
    WithinStep(c.left, s, n);
    ToggleStep(c.key, c.pos, s, n, all - n);
    if c.key == None {
      ToggleAnywhere(c'.pos, c.pos + n, s[n..][..all - n]);
    }
    assert s[n..][all - n..] == s[all..];
  }

  lemma PongPayload(h: FrameHeader, t: seq<byte>, n: nat)
    requires n == (if Within(h.length, t) <= MAX_CONTROL then Within(h.length, t) else MAX_CONTROL)
    ensures PongFor(h, t) == Pong(Toggle(h.key, 0, t[..n]))
  {
    var all := Within(h.length, t);
    ToggleStep(h.key, 0, t, n, all - n);
    assert t[..n + (all - n)] == t[..all];
    assert Toggle(h.key, 0, t[..all])[..n] == Toggle(h.key, 0, t[..n]);
  }
}
