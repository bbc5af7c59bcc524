/** What a WebSocket connection delivers from the bytes it receives: the frame-boundary rules of
    src/cloud-base/websocket on values (sections 5.4 and 5.5 of RFC 6455), for every byte string. */
module WsStream {
  import opened Bytes
  import opened WsFrames

  const CONTINUATION: Nibble := 0
  const TEXT: Nibble := 1
  const BINARY: Nibble := 2
  const CLOSE: Nibble := 8
  const PING: Nibble := 9
  const PONG: Nibble := 10
  const MAX_CONTROL := 125
  const PROTOCOL_ERROR := 1002

  /** server: this end accepted the connection. mustMask: the masking rules are enforced. */
  datatype Mode = Mode(server: bool, mustMask: bool)

  /** What the connection writes on its own account. */
  datatype Reply = Pong(payload: seq<byte>) | Close(status: nat)

  datatype Ending = Eof | NotImplemented

  predicate BadMask(mode: Mode, key: Option<MaskKey>) {
    mode.mustMask && (if mode.server then key == None else key.Some?)
  }

  /** How many of the bytes s a reader limited to length reads; a negative length reads none. */
  function Within(length: int, s: seq<byte>): (n: nat)
    ensures n <= |s|
  {
    if length <= 0 then 0 else if length <= |s| then length else |s|
  }

  /** The next frame with data for the caller, or how the connection ends before one comes. kind is
      the payload type, last the remembered type of the last text or binary frame. */
  datatype Next =
    | Ended(end: Ending, replies: seq<Reply>)
    | Payload(kind: Nibble, last: Nibble, key: Option<MaskKey>, length: int, rest: seq<byte>, replies: seq<Reply>)

  function After(reply: Reply, r: Next): Next {
    match r
    case Ended(end, replies) => Ended(end, [reply] + replies)
    case Payload(kind, last, key, length, rest, replies) => Payload(kind, last, key, length, rest, [reply] + replies)
  }

  /** The pong for a ping whose remaining payload bytes, still masked, start s. */
  function PongFor(h: FrameHeader, s: seq<byte>): Reply {
    var ping := Toggle(h.key, 0, s[..Within(h.length, s)]);
    Pong(if |ping| <= MAX_CONTROL then ping else ping[..MAX_CONTROL])
  }

  function NextFrame(mode: Mode, last: Nibble, s: seq<byte>): (r: Next)
    ensures r.Payload? ==> |r.rest| < |s|
    decreases |s|
  {
    match ReadHeader(s)
    case Incomplete => Ended(Eof, [])
    case Complete(h, size) =>
      var t := s[size..];
      if BadMask(mode, h.key) then Ended(Eof, [Close(PROTOCOL_ERROR)])
      else if h.opcode == CLOSE then Ended(Eof, [])
      else if h.opcode == PONG then Ended(NotImplemented, [])
      else if h.opcode == PING then After(PongFor(h, t), NextFrame(mode, last, t[Within(h.length, t)..]))
      else if h.opcode == CONTINUATION then Payload(last, last, h.key, h.length, t, [])
      else if h.opcode == TEXT || h.opcode == BINARY then Payload(h.opcode, h.opcode, h.key, h.length, t, [])
      else Payload(h.opcode, last, h.key, h.length, t, [])
  }

  /** Everything that reading to the end delivers, everything that is written meanwhile, and the end. */
  datatype Run = Run(data: seq<byte>, replies: seq<Reply>, end: Ending)

  function Follow(mode: Mode, last: Nibble, s: seq<byte>): Run
    decreases |s|
  {
    match NextFrame(mode, last, s)
    case Ended(end, replies) => Run([], replies, end)
    case Payload(_, last', key, length, t, replies) =>
      var n := Within(length, t);
      var r := Follow(mode, last', t[n..]);
      Run(Toggle(key, 0, t[..n]) + r.data, replies + r.replies, r.end)
  }

  /** A partly read frame: its key, how far its payload has been read, and how much is allowed. */
  datatype Cursor = Cursor(key: Option<MaskKey>, pos: nat, left: int)

  function Remaining(mode: Mode, last: Nibble, cursor: Option<Cursor>, s: seq<byte>): Run {
    if cursor == None then Follow(mode, last, s) else
    var n := Within(cursor.value.left, s);
    var r := Follow(mode, last, s[n..]);
    Run(Toggle(cursor.value.key, cursor.value.pos, s[..n]) + r.data, r.replies, r.end)
  }

  /** What follows the partly read frame. */
  function AtBoundary(cursor: Option<Cursor>, s: seq<byte>): seq<byte> {
    if cursor == None then s else s[Within(cursor.value.left, s)..]
  }

  // ----- well-formed streams -----

  predicate WellFormed(mode: Mode, f: Frame) {
    && |f.payload| < MAX_LENGTH
    && f.opcode != CLOSE && f.opcode != PONG
    && !BadMask(mode, f.key)
  }

  function Wire(frames: seq<Frame>): seq<byte> {
    if |frames| == 0 then [] else Encode(frames[0]) + Wire(frames[1..])
  }

  /** The payloads of the frames that are not pings, in order, in one piece. */
  function DataOf(frames: seq<Frame>): seq<byte> {
    if |frames| == 0 then []
    else (if frames[0].opcode == PING then [] else frames[0].payload) + DataOf(frames[1..])
  }

  /** One pong for each ping, with its payload, cut off after 125 bytes. */
  function PongsOf(frames: seq<Frame>): seq<Reply> {
    if |frames| == 0 then []
    else (if frames[0].opcode == PING then [PongOf(frames[0])] else []) + PongsOf(frames[1..])
  }

  function PongOf(f: Frame): Reply {
    Pong(if |f.payload| <= MAX_CONTROL then f.payload else f.payload[..MAX_CONTROL])
  }

  /** The remembered type after the frames. */
  function LastType(last: Nibble, frames: seq<Frame>): Nibble
    decreases |frames|
  {
    if |frames| == 0 then last
    else
      var op := frames[0].opcode;
      LastType(if op == TEXT || op == BINARY then op else last, frames[1..])
  }

  function KindOf(last: Nibble, f: Frame): Nibble {
    if f.opcode == CONTINUATION then last else f.opcode
  }

  lemma NextOfEncode(mode: Mode, last: Nibble, f: Frame, tail: seq<byte>)
    requires WellFormed(mode, f)
    ensures f.opcode == PING ==>
              NextFrame(mode, last, Encode(f) + tail) == After(PongOf(f), NextFrame(mode, last, tail))
    ensures f.opcode != PING ==>
              var r := NextFrame(mode, last, Encode(f) + tail);
              && r.Payload? && r.kind == KindOf(last, f) && r.last == LastType(last, [f]) && r.replies == []
              && r.length == |f.payload|
              && Within(r.length, r.rest) == |f.payload|
              && r.rest[|f.payload|..] == tail
              && Toggle(r.key, 0, r.rest[..|f.payload|]) == f.payload
  {
    hide Toggle, ReadHeader, Encode;
    ReadHeaderOfEncode(f, tail);
    var body := Toggle(f.key, 0, f.payload);
    assert (body + tail)[..|f.payload|] == body && (body + tail)[|f.payload|..] == tail;
    assert LastType(last, [f]) == if f.opcode == TEXT || f.opcode == BINARY then f.opcode else last;
  }

  lemma FollowData(mode: Mode, last: Nibble, f: Frame, tail: seq<byte>)
    requires WellFormed(mode, f) && f.opcode != PING
    ensures var r, q := Follow(mode, last, Encode(f) + tail), Follow(mode, LastType(last, [f]), tail);
            r == Run(f.payload + q.data, q.replies, q.end)
  {
    hide NextFrame, Toggle, LastType, Encode;
    NextOfEncode(mode, last, f, tail);
    assert forall replies: seq<Reply> :: [] + replies == replies;
  }

  /** On any concatenation of well-formed frames, whatever comes after: exactly the payloads of the
      data frames are delivered, and exactly one pong is written for each ping, in order. */
  lemma {:induction false} FollowWire(mode: Mode, last: Nibble, frames: seq<Frame>, tail: seq<byte>)
    requires forall f :: f in frames ==> WellFormed(mode, f)
    ensures var r, q := Follow(mode, last, Wire(frames) + tail), Follow(mode, LastType(last, frames), tail);
            r == Run(DataOf(frames) + q.data, PongsOf(frames) + q.replies, q.end)
    decreases |frames|
  {
    hide Follow, NextFrame, Encode, WellFormed, LastType;
    if |frames| == 0 {
      FollowNothing(mode, last, tail);
      assert frames == [];
    } else {
      var f, rest := frames[0], frames[1..];
      var t := Wire(rest) + tail;
      assert Wire(frames) + tail == Encode(f) + t;
      assert frames == [f] + rest;
      LastTypeStep(last, f, rest);
      if f.opcode == PING {
        FollowPing(mode, last, f, t);
        FollowWire(mode, last, rest, tail);
        PingType(last, f);
      } else {
        FollowData(mode, last, f, t);
        FollowWire(mode, LastType(last, [f]), rest, tail);
      }
      SumsStep(f, rest, Follow(mode, LastType(last, frames), tail));
    }
  }

  lemma FollowNothing(mode: Mode, last: Nibble, tail: seq<byte>)
    ensures Wire([]) + tail == tail && LastType(last, []) == last
    ensures var q := Follow(mode, last, tail); q == Run(DataOf([]) + q.data, PongsOf([]) + q.replies, q.end)
  {
    hide Follow;
  }

  lemma PingType(last: Nibble, f: Frame)
    requires f.opcode == PING
    ensures LastType(last, [f]) == last
  {
    assert [f][1..] == [];
  }

  /** DataOf and PongsOf of one more frame in front. */
  lemma SumsStep(f: Frame, rest: seq<Frame>, q: Run)
    ensures f.opcode == PING ==>
      && DataOf([f] + rest) + q.data == DataOf(rest) + q.data
      && PongsOf([f] + rest) + q.replies == [PongOf(f)] + (PongsOf(rest) + q.replies)
    ensures f.opcode != PING ==>
      && DataOf([f] + rest) + q.data == f.payload + (DataOf(rest) + q.data)
      && PongsOf([f] + rest) + q.replies == PongsOf(rest) + q.replies
  {
    assert ([f] + rest)[1..] == rest;
  }

  lemma FollowPing(mode: Mode, last: Nibble, f: Frame, tail: seq<byte>)
    requires WellFormed(mode, f) && f.opcode == PING
    ensures var r, q := Follow(mode, last, Encode(f) + tail), Follow(mode, last, tail);
            r == Run(q.data, [PongOf(f)] + q.replies, q.end)
  {
    hide Follow, NextFrame, Encode;
    NextOfEncode(mode, last, f, tail);
    FollowAfter(mode, last, Encode(f) + tail, PongOf(f), tail);
  }

  lemma LastTypeStep(last: Nibble, f: Frame, rest: seq<Frame>)
    ensures LastType(last, [f] + rest) == LastType(LastType(last, [f]), rest)
  {
    assert ([f] + rest)[1..] == rest && [f][1..] == [];
  }

  lemma FollowAfter(mode: Mode, last: Nibble, s: seq<byte>, reply: Reply, t: seq<byte>)
    requires NextFrame(mode, last, s) == After(reply, NextFrame(mode, last, t))
    ensures var r, q := Follow(mode, last, s), Follow(mode, last, t);
            r == Run(q.data, [reply] + q.replies, q.end)
  {
    hide NextFrame, Toggle;
  }

  /** A whole stream of well-formed frames: all data, all pongs, then the end of the input. */
  lemma WholeStream(mode: Mode, last: Nibble, frames: seq<Frame>)
    requires forall f :: f in frames ==> WellFormed(mode, f)
    ensures Follow(mode, last, Wire(frames)) == Run(DataOf(frames), PongsOf(frames), Eof)
  {
    FollowWire(mode, last, frames, []);
    hide Follow, Encode;
    assert Wire(frames) + [] == Wire(frames);
    NothingComes(mode, LastType(last, frames));
  }

  lemma NothingComes(mode: Mode, last: Nibble)
    ensures Follow(mode, last, []) == Run([], [], Eof)
  {}

  /** A close frame ends the data there: nothing that follows it is delivered or answered. */
  lemma StreamUntilClose(mode: Mode, last: Nibble, frames: seq<Frame>, close: Frame, after: seq<byte>)
    requires forall f :: f in frames ==> WellFormed(mode, f)
    requires close.opcode == CLOSE && |close.payload| < MAX_LENGTH && !BadMask(mode, close.key)
    ensures Follow(mode, last, Wire(frames) + (Encode(close) + after)) == Run(DataOf(frames), PongsOf(frames), Eof)
  {
    FollowWire(mode, last, frames, Encode(close) + after);
    hide Encode;
    ReadHeaderOfEncode(close, after);
    assert NextFrame(mode, LastType(last, frames), Encode(close) + after) == Ended(Eof, []);
  }

  /** An unsolicited pong, which section 5.5.3 of RFC 6455 allows, ends the data with an error. */
  lemma StreamUntilPong(mode: Mode, last: Nibble, frames: seq<Frame>, pong: Frame, after: seq<byte>)
    requires forall f :: f in frames ==> WellFormed(mode, f)
    requires pong.opcode == PONG && |pong.payload| < MAX_LENGTH && !BadMask(mode, pong.key)
    ensures Follow(mode, last, Wire(frames) + (Encode(pong) + after))
         == Run(DataOf(frames), PongsOf(frames), NotImplemented)
  {
    FollowWire(mode, last, frames, Encode(pong) + after);
    hide Encode;
    ReadHeaderOfEncode(pong, after);
    assert NextFrame(mode, LastType(last, frames), Encode(pong) + after) == Ended(NotImplemented, []);
  }

  /** A frame that breaks the masking rule ends the data; it is answered with a close frame. */
  lemma StreamUntilBadMask(mode: Mode, last: Nibble, frames: seq<Frame>, f: Frame, after: seq<byte>)
    requires forall f :: f in frames ==> WellFormed(mode, f)
    requires |f.payload| < MAX_LENGTH && BadMask(mode, f.key)
    ensures Follow(mode, last, Wire(frames) + (Encode(f) + after))
         == Run(DataOf(frames), PongsOf(frames) + [Close(PROTOCOL_ERROR)], Eof)
  {
    FollowWire(mode, last, frames, Encode(f) + after);
    hide Encode;
    ReadHeaderOfEncode(f, after);
    assert NextFrame(mode, LastType(last, frames), Encode(f) + after) == Ended(Eof, [Close(PROTOCOL_ERROR)]);
  }

  lemma StopAt(mode: Mode, last: Nibble, frames: seq<Frame>, f: Frame, after: seq<byte>)
    requires forall f :: f in frames ==> WellFormed(mode, f)
    requires |f.payload| < MAX_LENGTH && !WellFormed(mode, f)
    ensures var bad := BadMask(mode, f.key);
            var closing := if bad then [Close(PROTOCOL_ERROR)] else [];
            var end := if !bad && f.opcode == PONG then NotImplemented else Eof;
            Follow(mode, last, Wire(frames) + (Encode(f) + after)) == Run(DataOf(frames), PongsOf(frames) + closing, end)
  {
    hide Follow, Wire, Encode, BadMask;
    assert PongsOf(frames) + [] == PongsOf(frames);
    if BadMask(mode, f.key) {
      StreamUntilBadMask(mode, last, frames, f, after);
    } else if f.opcode == PONG {
      StreamUntilPong(mode, last, frames, f, after);
    } else {
      StreamUntilClose(mode, last, frames, f, after);
    }
  }

  /** The data ends with the error exactly when the first frame that is not well-formed is a pong that
      keeps the masking rule. */
  lemma StreamUntilIllFormed(mode: Mode, last: Nibble, frames: seq<Frame>, f: Frame, after: seq<byte>)
    requires forall f :: f in frames ==> WellFormed(mode, f)
    requires |f.payload| < MAX_LENGTH && !WellFormed(mode, f)
    ensures Follow(mode, last, Wire(frames) + (Encode(f) + after)).end == NotImplemented
       <==> f.opcode == PONG && !BadMask(mode, f.key)
  {
    hide Follow, Wire, Encode, BadMask, WellFormed;
    StopAt(mode, last, frames, f, after);
  }

  /** How many frames come before the first that is not well-formed. */
  function Leading(mode: Mode, frames: seq<Frame>): (n: nat)
    ensures n <= |frames|
    ensures forall f :: f in frames[..n] ==> WellFormed(mode, f)
    ensures n < |frames| ==> !WellFormed(mode, frames[n])
  {
    if |frames| == 0 || !WellFormed(mode, frames[0]) then 0
    else
      var n := 1 + Leading(mode, frames[1..]);
      assert frames[..n] == [frames[0]] + frames[1..][..n - 1];
      n
  }

  /** Any list of frames: what the well-formed frames at its front give, and nothing after them. The
      first other frame decides the end, and is answered when it breaks the masking rule. */
  lemma AnyStream(mode: Mode, last: Nibble, frames: seq<Frame>)
    requires forall f :: f in frames ==> |f.payload| < MAX_LENGTH
    ensures var n := Leading(mode, frames);
            var stop := n < |frames|;
            var bad := stop && BadMask(mode, frames[n].key);
            var closing := if bad then [Close(PROTOCOL_ERROR)] else [];
            var end := if stop && !bad && frames[n].opcode == PONG then NotImplemented else Eof;
            Follow(mode, last, Wire(frames)) == Run(DataOf(frames[..n]), PongsOf(frames[..n]) + closing, end)
  {
    hide Follow, Encode, Leading, BadMask, WellFormed;
    var n := Leading(mode, frames);
    var front := frames[..n];
    if n == |frames| {
      assert front == frames;
      WholeStream(mode, last, front);
      assert PongsOf(front) + [] == PongsOf(front);
    } else {
      var f, after := frames[n], Wire(frames[n + 1..]);
      WireSplit(frames, n);
      StopAt(mode, last, front, f, after);
      assert PongsOf(front) + [] == PongsOf(front);
    }
  }

  lemma {:induction false} WireSplit(frames: seq<Frame>, n: nat)
    requires n < |frames|
    ensures Wire(frames) == Wire(frames[..n]) + (Encode(frames[n]) + Wire(frames[n + 1..]))
  {
    hide Encode;
    if n > 0 {
      WireSplit(frames[1..], n - 1);
      assert frames[..n][1..] == frames[1..][..n - 1];
      assert frames[n + 1..] == frames[1..][n..];
    }
  }

  // ----- whole messages -----

  datatype Message = Message(kind: Nibble, data: seq<byte>)

  /** Everything that receiving to the end returns, everything that is written meanwhile, and the
      end. */
  datatype Inbox = Inbox(messages: seq<Message>, replies: seq<Reply>, end: Ending)

  function InboxOf(mode: Mode, last: Nibble, s: seq<byte>): Inbox
    decreases |s|
  {
    match NextFrame(mode, last, s)
    case Ended(end, replies) => Inbox([], replies, end)
    case Payload(kind, last', key, length, t, replies) =>
      var n := Within(length, t);
      var r := InboxOf(mode, last', t[n..]);
      Inbox([Message(kind, Toggle(key, 0, t[..n]))] + r.messages, replies + r.replies, r.end)
  }

  /** One message for each frame that is not a ping, a continuation with the remembered type. */
  function MessagesOf(last: Nibble, frames: seq<Frame>): seq<Message>
    decreases |frames|
  {
    if |frames| == 0 then []
    else
      var f := frames[0];
      (if f.opcode == PING then [] else [Message(KindOf(last, f), f.payload)])
      + MessagesOf(LastType(last, [f]), frames[1..])
  }

  lemma InboxAfter(mode: Mode, last: Nibble, s: seq<byte>, reply: Reply, t: seq<byte>)
    requires NextFrame(mode, last, s) == After(reply, NextFrame(mode, last, t))
    ensures var r, q := InboxOf(mode, last, s), InboxOf(mode, last, t);
            r == Inbox(q.messages, [reply] + q.replies, q.end)
  {
    hide NextFrame, Toggle;
  }

  lemma InboxData(mode: Mode, last: Nibble, f: Frame, tail: seq<byte>)
    requires WellFormed(mode, f) && f.opcode != PING
    ensures var r, q := InboxOf(mode, last, Encode(f) + tail), InboxOf(mode, LastType(last, [f]), tail);
            r == Inbox([Message(KindOf(last, f), f.payload)] + q.messages, q.replies, q.end)
  {
    hide NextFrame, Toggle, LastType, Encode, KindOf;
    NextOfEncode(mode, last, f, tail);
    assert forall replies: seq<Reply> :: [] + replies == replies;
  }

  lemma InboxStep(last: Nibble, f: Frame, rest: seq<Frame>)
    ensures f.opcode == PING ==>
              (&& MessagesOf(last, [f] + rest) == MessagesOf(last, rest)
               && PongsOf([f] + rest) == [PongOf(f)] + PongsOf(rest))
    ensures f.opcode != PING ==>
              (&& MessagesOf(last, [f] + rest)
                  == [Message(KindOf(last, f), f.payload)] + MessagesOf(LastType(last, [f]), rest)
               && PongsOf([f] + rest) == PongsOf(rest))
  {
    hide KindOf;
    assert ([f] + rest)[1..] == rest;
    if f.opcode == PING { PingType(last, f); }
  }

  /** From well-formed frames exactly the payloads of the data frames are received, one at a time and in
      order, with their types, and each ping is answered. */
  lemma {:induction false} InboxOfWire(mode: Mode, last: Nibble, frames: seq<Frame>)
    requires forall f :: f in frames ==> WellFormed(mode, f)
    ensures InboxOf(mode, last, Wire(frames)) == Inbox(MessagesOf(last, frames), PongsOf(frames), Eof)
    decreases |frames|
  {
    hide InboxOf, NextFrame, Encode, WellFormed, LastType, MessagesOf, PongsOf;
    if |frames| == 0 {
      EmptyInbox(mode, last);
      assert frames == [];
    } else {
      var f, rest := frames[0], frames[1..];
      assert frames == [f] + rest;
      InboxStep(last, f, rest);
      if f.opcode == PING {
        NextOfEncode(mode, last, f, Wire(rest));
        InboxAfter(mode, last, Wire(frames), PongOf(f), Wire(rest));
        InboxOfWire(mode, last, rest);
      } else {
        InboxData(mode, last, f, Wire(rest));
        InboxOfWire(mode, LastType(last, [f]), rest);
      }
    }
  }

  lemma EmptyInbox(mode: Mode, last: Nibble)
    ensures Wire([]) == [] && MessagesOf(last, []) == [] && PongsOf([]) == []
    ensures InboxOf(mode, last, []) == Inbox([], [], Eof)
  {
  }

  // ----- what each frame does -----

  /** The first frame of the input decides: a server that enforces masking wants a key and a client none,
      and anything else ends the connection with close status 1002; opcode 8 ends it, 10 ends it with the
      error, 9 is answered with up to 125 bytes of its payload; the rest is data, with opcode 0 standing
      for the last of the opcodes 1 and 2. */
  lemma FrameDecides(mode: Mode, last: Nibble, f: Frame, tail: seq<byte>)
    requires |f.payload| < MAX_LENGTH
    ensures var r, n := NextFrame(mode, last, Encode(f) + tail), |f.payload|;
            if mode.mustMask && mode.server == f.key.None? then r == Ended(Eof, [Close(1002)])
            else if f.opcode == 8 then r == Ended(Eof, [])
            else if f.opcode == 10 then r == Ended(NotImplemented, [])
            else if f.opcode == 9 then
              var pong := Pong(f.payload[..if n < 125 then n else 125]);
              match NextFrame(mode, last, tail)
              case Ended(end, replies) => r == Ended(end, [pong] + replies)
              case Payload(kind, l, key, m, rest, replies) => r == Payload(kind, l, key, m, rest, [pong] + replies)
            else
              && r.Payload? && r.replies == [] && r.length == n
              && r.kind == (if f.opcode == 0 then last else f.opcode)
              && r.last == (if f.opcode == 1 || f.opcode == 2 then f.opcode else last)
              && |r.rest| == n + |tail| && r.rest[n..] == tail
              && Toggle(r.key, 0, r.rest[..n]) == f.payload
  {
    hide Encode, Toggle, NextFrame;
    assert f.payload[..|f.payload|] == f.payload;
    if WellFormed(mode, f) {
      NextOfEncode(mode, last, f, tail);
      assert LastType(last, [f]) == if f.opcode == 1 || f.opcode == 2 then f.opcode else last;
      if f.opcode != 9 { RestLength(mode, last, f, tail); }
    } else {
      FrameStops(mode, last, f, tail);
    }
  }

  lemma RestLength(mode: Mode, last: Nibble, f: Frame, tail: seq<byte>)
    requires WellFormed(mode, f) && f.opcode != PING
    ensures var r := NextFrame(mode, last, Encode(f) + tail);
            r.Payload? && |r.rest| == |f.payload| + |tail|
  {
    hide Encode, Toggle, ReadHeader;
    ReadHeaderOfEncode(f, tail);
  }

  lemma FrameStops(mode: Mode, last: Nibble, f: Frame, tail: seq<byte>)
    requires |f.payload| < MAX_LENGTH && !WellFormed(mode, f)
    ensures NextFrame(mode, last, Encode(f) + tail)
         == if mode.mustMask && mode.server == f.key.None? then Ended(Eof, [Close(1002)])
            else Ended(if f.opcode == 10 then NotImplemented else Eof, [])
  {
    hide Encode, Toggle, ReadHeader;
    ReadHeaderOfEncode(f, tail);
  }

  /** The remembered type is the opcode of the last text or binary frame, if there is one. */
  lemma {:induction false} LastTypeMeans(last: Nibble, frames: seq<Frame>, i: nat)
    requires i < |frames| && (frames[i].opcode == 1 || frames[i].opcode == 2)
    requires forall j :: i < j < |frames| ==> frames[j].opcode != 1 && frames[j].opcode != 2
    ensures LastType(last, frames) == frames[i].opcode
    decreases |frames|
  {
    if i == 0 {
      LastTypeKept(frames[0].opcode, frames[1..]);
    } else {
      LastTypeMeans(LastType(last, [frames[0]]), frames[1..], i - 1);
      LastTypeStep(last, frames[0], frames[1..]);
      assert frames == [frames[0]] + frames[1..];
    }
  }

  lemma {:induction false} LastTypeKept(last: Nibble, frames: seq<Frame>)
    requires forall j :: 0 <= j < |frames| ==> frames[j].opcode != 1 && frames[j].opcode != 2
    ensures LastType(last, frames) == last
    decreases |frames|
  {
    if |frames| > 0 { LastTypeKept(last, frames[1..]); }
  }

  /** What one end sends the other receives: a server that enforces masking takes the masked frames of a
      client, and a client the unmasked ones of a server, message by message. */
  lemma OtherEndReceives(server: bool, frames: seq<Frame>, i: nat)
    requires forall f :: f in frames ==> f.key.Some? == server && (f.opcode == 1 || f.opcode == 2)
    requires forall f :: f in frames ==> |f.payload| < MAX_LENGTH
    ensures var inbox := InboxOf(Mode(server, true), 0, Wire(frames));
            && |inbox.messages| == |frames| && inbox.replies == [] && inbox.end == Eof
            && (i < |frames| ==> inbox.messages[i] == Message(frames[i].opcode, frames[i].payload))
  {
    hide InboxOf;
    InboxOfWire(Mode(server, true), 0, frames);
    EachIsMessage(0, frames, i);
  }

  lemma {:induction false} EachIsMessage(last: Nibble, frames: seq<Frame>, i: nat)
    requires forall f :: f in frames ==> f.opcode == 1 || f.opcode == 2
    ensures |MessagesOf(last, frames)| == |frames| && PongsOf(frames) == []
    ensures i < |frames| ==> MessagesOf(last, frames)[i] == Message(frames[i].opcode, frames[i].payload)
    decreases |frames|
  {
    if |frames| > 0 {
      EachIsMessage(LastType(last, [frames[0]]), frames[1..], if i > 0 then i - 1 else 0);
    }
  }
}
