/** Frames to and from devices over TCP, src/octopus/srv/ws.go: an 8-byte flag, a 16-bit little-endian
    length, and the payload. The reader looks for the flag anywhere in the stream. */
module DeviceFrames {

  import opened Bytes
  import opened Streams

  const FRAMEFLAG: seq<byte> := [0xfa, 0xc3, 0xc6, 0xc9, 0x05, 0x3c, 0x39, 0x36]

  // ----- writing -----

  function Framed(p: seq<byte>): seq<byte> {
    FRAMEFLAG + Put16(Truncate16(|p|)) + p
  }

  /** A frame is the flag, the length modulo 65536 in little-endian order, and the packet. */
  lemma FrameBytes(p: seq<byte>)
    ensures Framed(p) == [0xfa, 0xc3, 0xc6, 0xc9, 0x05, 0x3c, 0x39, 0x36, |p| % 256, |p| / 256 % 256] + p
  {
    hide Little;
    var n := |p| % 65536;
    PutBytes(n, 0);
    LowerHalf(|p|);
    assert Framed(p) == FRAMEFLAG + [n % 256, n / 256] + p;
  }

  lemma LowerHalf(n: nat)
    ensures Truncate16(n) == n % 65536 && n % 65536 % 256 == n % 256 && n % 65536 / 256 == n / 256 % 256
  {
    var q, m := n / 65536, n % 65536;
    var x, y := m / 256, m % 256;
    assert n == 65536 * q + 256 * x + y;
    assert n == 256 * (256 * q + x) + y;
    assert n / 256 == 256 * q + x;
  }

  function FramedAll(packets: seq<seq<byte>>): seq<byte> {
    if |packets| == 0 then []
    else FramedAll(packets[..|packets| - 1]) + Framed(packets[|packets| - 1])
  }

  /** The bytes that the writer sends for the packets of its channel. A write that fails, after any
      part of its frame, ends the loop; sent is the number of writes that did not. */
  method TcpWriter(packets: seq<seq<byte>>) returns (written: seq<byte>, sent: nat)
    ensures sent <= |packets|
    ensures sent == |packets| ==> written == FramedAll(packets)
    ensures sent < |packets| ==> FramedAll(packets[..sent]) <= written <= FramedAll(packets[..sent + 1])
  {
    hide Framed, FramedAll;
    written, sent := [], 0;
    FramedNone();
    while sent < |packets|
      invariant sent <= |packets| && written == FramedAll(packets[..sent])
    {
      var final := MakeFrame(packets[sent]);
      FramedNext(packets, sent);
      var fails: bool := *;
      if fails {
        var part: int := *;
        written := written + final[..if 0 <= part <= |final| then part else 0];
        return;
      }
      written := written + final;
      sent := sent + 1;
    }
    assert packets[..sent] == packets;
  }

  method MakeFrame(p: seq<byte>) returns (final: seq<byte>)
    ensures final == Framed(p)
  {
    final := [];
    final := final + FRAMEFLAG;
    var bdl := Put16(Truncate16(|p|));
    final := final + bdl;
    final := final + p;
  }

  lemma FramedNone()
    ensures FramedAll([]) == []
  {
  }

  lemma FramedNext(packets: seq<seq<byte>>, k: nat)
    requires k < |packets|
    ensures FramedAll(packets[..k + 1]) == FramedAll(packets[..k]) + Framed(packets[k])
  {
    hide Framed;
    assert packets[..k + 1][..k] == packets[..k];
  }

  // ----- where a scan finds the flag -----

  /** How many of the first bytes of s agree with the flag. */
  function Agreeing(s: seq<byte>): (i: nat)
    ensures i <= 8 && i <= |s| && s[..i] == FRAMEFLAG[..i]
    ensures i < 8 && i < |s| ==> s[i] != FRAMEFLAG[i]
  {
    AgreeingFrom(s, 0)
  }

  function AgreeingFrom(s: seq<byte>, from: nat): (i: nat)
    requires from <= 8 && from <= |s| && s[..from] == FRAMEFLAG[..from]
    ensures i <= 8 && i <= |s| && s[..i] == FRAMEFLAG[..i]
    ensures i < 8 && i < |s| ==> s[i] != FRAMEFLAG[i]
    decreases 8 - from
  {
    if from == 8 || from == |s| || s[from] != FRAMEFLAG[from] then from
    else assert s[..from + 1] == s[..from] + [s[from]]; AgreeingFrom(s, from + 1)
  }

  lemma AgreeingUnique(s: seq<byte>, i: nat)
    requires i <= 8 && i <= |s| && s[..i] == FRAMEFLAG[..i]
    requires i < 8 && i < |s| ==> s[i] != FRAMEFLAG[i]
    ensures Agreeing(s) == i
  {
    var k := Agreeing(s);
    if k < i { AgreeingAt(s, i, k); }
    if i < k { AgreeingAt(s, k, i); }
  }

  lemma AgreeingAt(s: seq<byte>, n: nat, j: nat)
    requires j < n <= 8 && n <= |s| && s[..n] == FRAMEFLAG[..n]
    ensures s[j] == FRAMEFLAG[j]
  {
    assert s[j] == s[..n][j];
  }

  /** What follows the flag that the scan of s finds, when no read is cut short: a window that first
      differs from the flag at place i moves on by i + 1 bytes. */
  function Found(s: seq<byte>): (rest: Option<seq<byte>>)
    ensures rest.Some? ==> |rest.value| + 8 <= |s|
    decreases |s|
  {
    if |s| < 8 then None
    else
      var i := Agreeing(s);
      if i == 8 then Some(s[8..])
      else if |s| < 8 + i + 1 then None
      else Found(s[i + 1..])
  }

  /** A reader that fails still returns the frame it was filling, with zeros at its end. */
  datatype Outcome = Failed(partial: seq<byte>) | Frame(payload: seq<byte>, rest: seq<byte>)

  function AfterFlag(s: seq<byte>): Outcome {
    if |s| < 2 then Failed([])
    else if |s| - 2 < Get16(s[..2]) then Failed(s[2..] + Zeros(Get16(s[..2]) - (|s| - 2)))
    else Frame(s[2..2 + Get16(s[..2])], s[2 + Get16(s[..2])..])
  }

  /** Behind the flag come two bytes of length, the lower first, and that many bytes; of a frame that is
      cut off the bytes that are there are followed by zeros. */
  lemma AfterFlagMeans(s: seq<byte>)
    requires |s| >= 2
    ensures var n := s[0] as int + 256 * s[1] as int;
            if |s| - 2 >= n then AfterFlag(s) == Frame(s[2..2 + n], s[2 + n..])
            else AfterFlag(s) == Failed(s[2..] + Zeros(n - (|s| - 2)))
    ensures AfterFlag([]) == Failed([]) && AfterFlag(s[..1]) == Failed([])
  {
    hide Get16;
    GetBytes(s[..2], [0, 0, 0, 0]);
  }

  /** What one call of the reader makes of the stream s. */
  function Reading(s: seq<byte>): Outcome {
    var found := Found(s);
    if found.None? then Failed([]) else AfterFlag(found.value)
  }

  // ----- noise before a flag -----

  /** A scan of the noise alone ends at its end: no window that the scan looks at begins a flag that
      the noise breaks off, or holds a whole one. */
  predicate Settles(noise: seq<byte>)
    decreases |noise|
  {
    var i := Agreeing(noise);
    |noise| == 0 || (i < 8 && i < |noise| && Settles(noise[i + 1..]))
  }

  lemma AgreeingOfLonger(noise: seq<byte>, rest: seq<byte>)
    ensures var i := Agreeing(noise);
            var j := Agreeing(noise + FRAMEFLAG + rest);
            if i < 8 && i < |noise| then j == i
            else if i == 8 then j == 8
            else if |noise| == 0 then j == 8
            else j == |noise|
  {
    var i := Agreeing(noise);
    var s := noise + FRAMEFLAG + rest;
    assert s[..|noise|] == noise;
    assert s[..i] == noise[..i];
    if |noise| == 0 {
      assert s[..8] == FRAMEFLAG[..8];
      AgreeingUnique(s, 8);
    } else {
      AgreeingUnique(s, i);
    }
  }

  /** The scan stops exactly at the flag behind the noise if and only if the noise settles. */
  lemma {:induction false} FoundBehindNoise(noise: seq<byte>, rest: seq<byte>)
    ensures Found(noise + FRAMEFLAG + rest) == Some(rest) <==> Settles(noise)
    decreases |noise|
  {
    var s := noise + FRAMEFLAG + rest;
    var i := Agreeing(noise);
    AgreeingOfLonger(noise, rest);
    if |noise| == 0 {
      assert s[8..] == rest;
    } else if i == 8 {
    } else if i < |noise| {
      assert s[i + 1..] == noise[i + 1..] + FRAMEFLAG + rest;
      FoundBehindNoise(noise[i + 1..], rest);
    }
  }

  /** Noise without the first byte of the flag settles; that byte alone does not, and the frame behind
      it is missed. */
  lemma {:induction false} PlainNoiseSettles(noise: seq<byte>)
    requires 0xfa !in noise
    ensures Settles(noise)
  {
    if |noise| > 0 {
      AgreeingUnique(noise, 0);
      PlainNoiseSettles(noise[1..]);
    }
  }

  lemma FlagByteHidesFrame(rest: seq<byte>)
    ensures Found([0xfa] + FRAMEFLAG + rest) != Some(rest)
  {
    AgreeingUnique([0xfa], 1);
    FoundBehindNoise([0xfa], rest);
  }

  /** A frame behind settled noise is read back, cut to its length modulo 65536, and what follows it
      is left. */
  lemma FrameBehindNoise(noise: seq<byte>, p: seq<byte>, rest: seq<byte>)
    requires Settles(noise)
    ensures Reading(noise + Framed(p) + rest)
         == Frame(p[..Truncate16(|p|)], p[Truncate16(|p|)..] + rest)
  {
    hide Found, Settles, FRAMEFLAG;
    var n := Truncate16(|p|);
    var tail := Put16(n) + p + rest;
    assert noise + Framed(p) + rest == noise + FRAMEFLAG + tail;
    FoundBehindNoise(noise, tail);
    assert tail[..2] == Put16(n);
    Get16OfPut(n);
    assert tail[2..] == p + rest;
    assert tail[2..2 + n] == p[..n];
    assert tail[2 + n..] == p[n..] + rest;
  }

  // ----- noise before a flag, with reads that may be cut short -----

  /** The window after a read that was to fill i + 1 places and brought bytes. */
  function Refilled(head: seq<byte>, i: nat, bytes: seq<byte>): (r: seq<byte>)
    requires i < 8 == |head| && |bytes| <= i + 1
    ensures |r| == 8
  {
    head[i + 1..] + bytes + Zeros(i + 1 - |bytes|)
  }

  /** From the window head with left still to come, the scan finds a flag with goal behind it,
      however many bytes each read brings. */
  ghost predicate Always(head: seq<byte>, left: seq<byte>, goal: seq<byte>)
    requires |head| == 8
    decreases |left|
  {
    var i := Agreeing(head);
    if i == 8 then left == goal
    else
      && left != []
      && forall n :: 1 <= n <= i + 1 && n <= |left| ==> Always(Refilled(head, i, left[..n]), left[n..], goal)
  }

  /** The scan of s has only one outcome. */
  ghost predicate Certain(s: seq<byte>) {
    |s| >= 8 && Found(s).Some? && Always(s[..8], s[8..], Found(s).value)
  }

  lemma ZeroEnds(head: seq<byte>, goal: seq<byte>)
    requires |head| == 8 && head[7] == 0
    ensures !Always(head, [], goal)
  {
    if Agreeing(head) == 8 { AgreeingAt(head, 8, 7); }
  }

  lemma {:induction false} TooLate(head: seq<byte>, left: seq<byte>, goal: seq<byte>)
    requires |head| == 8 && |left| < |goal|
    ensures !Always(head, left, goal)
    decreases |left|
  {
    var i := Agreeing(head);
    if i < 8 && left != [] { TooLate(Refilled(head, i, left[..1]), left[1..], goal); }
  }

  lemma SameEnd(s: seq<byte>, k: nat, a: nat, b: nat)
    requires k + a == b <= |s|
    ensures s[k..][a..] == s[b..]
  {
  }

  /** Without a flag right before goal some choice of reads fails. */
  lemma {:induction false} FlagBroken(head: seq<byte>, left: seq<byte>, goal: seq<byte>)
    requires |head| == 8 && |goal| <= |left| && (head + left)[|left| - |goal|..][..8] != FRAMEFLAG
    ensures !Always(head, left, goal)
    decreases |left|
  {
    var i := Agreeing(head);
    if i == 8 {
      assert head[..8] == head && FRAMEFLAG[..8] == FRAMEFLAG;
      assert (head + left)[0..][..8] == head;
    } else if left != [] {
      var n := if i + 1 <= |left| then i + 1 else |left|;
      var next, rest := Refilled(head, i, left[..n]), left[n..];
      if n < i + 1 {
        assert rest == [];
        ZeroEnds(next, goal);
      } else if |rest| < |goal| {
        TooLate(next, rest, goal);
      } else {
        assert next + rest == (head + left)[i + 1..];
        SameEnd(head + left, i + 1, |rest| - |goal|, |left| - |goal|);
        FlagBroken(next, rest, goal);
      }
    }
  }

  lemma FlagSize()
    ensures |FRAMEFLAG| == 8 && FRAMEFLAG[0] == 0xfa
  {
  }

  lemma FlagHasNoZero(k: nat)
    requires k < 8
    ensures FRAMEFLAG[k] != 0 && (k > 0 ==> FRAMEFLAG[k] != 0xfa)
  {
  }

  /** A zero that a short read put between the bytes of the flag breaks it. */
  lemma ZeroBreaks(head: seq<byte>, left: seq<byte>, goal: seq<byte>)
    requires |head| == 8 && head[7] == 0 && |goal| <= |left| <= |goal| + 7
    ensures !Always(head, left, goal)
  {
    hide FRAMEFLAG;
    FlagSize();
    var d := |left| - |goal|;
    assert (head + left)[d..][..8][7 - d] == 0;
    FlagHasNoZero(7 - d);
    FlagBroken(head, left, goal);
  }

  /** A window that begins with 0xfa and ends within the flag behind the noise. */
  lemma FlagCut(w: seq<byte>, rest: seq<byte>)
    requires 0 < |w| < 8 && w[0] == 0xfa
    ensures !Always(w + FRAMEFLAG[..8 - |w|], FRAMEFLAG[8 - |w|..] + rest, rest)
  {
    hide FRAMEFLAG;
    FlagSize();
    var k := |w|;
    var head, left := w + FRAMEFLAG[..8 - k], FRAMEFLAG[8 - k..] + rest;
    var i := Agreeing(head);
    FlagHasNoZero(k);
    if i == 8 {
      AgreeingAt(head, 8, k);
    } else {
      assert head[0] == FRAMEFLAG[0];
      assert i > 0;
      ZeroBreaks(Refilled(head, i, left[..1]), left[1..], rest);
    }
  }

  /** Under 8 bytes of noise, all in the window with the front of the flag behind them. */
  lemma {:induction false} ShortNoise(w: seq<byte>, rest: seq<byte>)
    requires |w| < 8
    ensures Always(w + FRAMEFLAG[..8 - |w|], FRAMEFLAG[8 - |w|..] + rest, rest) <==> 0xfa !in w
    decreases |w|
  {
    hide FRAMEFLAG, Always;
    FlagSize();
    if |w| == 0 {
      NoNoise(rest);
      assert w == [];
    } else if w[0] == 0xfa {
      FlagCut(w, rest);
    } else {
      ShortNoiseTurn(w, rest);
      ShortNoise(w[1..], rest);
    }
  }

  lemma NoNoise(rest: seq<byte>)
    ensures Always([] + FRAMEFLAG[..8], FRAMEFLAG[8..] + rest, rest)
  {
    hide FRAMEFLAG;
    FlagSize();
    var head := [] + FRAMEFLAG[..8];
    assert head[..8] == FRAMEFLAG[..8];
    AgreeingUnique(head, 8);
    assert FRAMEFLAG[8..] + rest == rest;
  }

  lemma ShortNoiseTurn(w: seq<byte>, rest: seq<byte>)
    requires 0 < |w| < 8 && w[0] != 0xfa
    ensures Always(w + FRAMEFLAG[..8 - |w|], FRAMEFLAG[8 - |w|..] + rest, rest)
       <==> Always(w[1..] + FRAMEFLAG[..9 - |w|], FRAMEFLAG[9 - |w|..] + rest, rest)
  {
    hide FRAMEFLAG;
    FlagSize();
    var k := |w|;
    var head, left := w + FRAMEFLAG[..8 - k], FRAMEFLAG[8 - k..] + rest;
    AgreeingUnique(head, 0);
    assert Refilled(head, 0, left[..1]) == w[1..] + FRAMEFLAG[..9 - k];
    assert left[1..] == FRAMEFLAG[9 - k..] + rest;
  }

  /** Told from the noise alone, w of it in the window and r to come: whatever the reads bring, each
      window is less far into a flag than there is noise to come; or just as far, and then it has no
      0xfa once the noise is used up and the first byte of the flag read with it. */
  predicate RobustFrom(w: seq<byte>, r: seq<byte>)
    requires |w| == 8
    decreases |r|
  {
    var i := Agreeing(w);
    && i < 8 && i <= |r|
    && (forall n :: 1 <= n <= i + 1 && n <= |r| ==> RobustFrom(Refilled(w, i, r[..n]), r[n..]))
    && (i == |r| ==> 0xfa !in w[i + 1..] + r)
  }

  predicate Robust(noise: seq<byte>) {
    if |noise| < 8 then 0xfa !in noise else RobustFrom(noise[..8], noise[8..])
  }

  /** One turn from a window full of noise, whatever the size n of the read. */
  lemma NoiseTurn(w: seq<byte>, r: seq<byte>, rest: seq<byte>, n: nat)
    requires |w| == 8 && Agreeing(w) < 8 && 1 <= n <= Agreeing(w) + 1
    ensures var i, left := Agreeing(w), r + FRAMEFLAG + rest;
            && |left| >= n
            && (n == |r| + 1 ==> |left[n..]| == |rest| + 7)
            && (n <= |r| ==> left[..n] == r[..n] && left[n..] == r[n..] + FRAMEFLAG + rest)
            && (n == |r| + 1 == i + 1 ==>
                  && Refilled(w, i, left[..n]) == (w[i + 1..] + r) + FRAMEFLAG[..1]
                  && left[n..] == FRAMEFLAG[1..] + rest)
            && (n == |r| + 1 <= i ==> Refilled(w, i, left[..n])[7] == 0 && left[n..] == FRAMEFLAG[1..] + rest)
  {
    var left := r + FRAMEFLAG + rest;
    if n == |r| + 1 {
      assert left[..n] == r + FRAMEFLAG[..1];
      assert left[n..] == FRAMEFLAG[1..] + rest;
    }
  }

  lemma {:induction false} LongNoise(w: seq<byte>, r: seq<byte>, rest: seq<byte>)
    requires |w| == 8
    ensures Always(w, r + FRAMEFLAG + rest, rest) <==> RobustFrom(w, r)
    decreases |r|
  {
    hide FRAMEFLAG;
    FlagSize();
    var i, left := Agreeing(w), r + FRAMEFLAG + rest;
    if i < 8 {
      if i > |r| {
        NoiseTurn(w, r, rest, |r| + 1);
        ZeroBreaks(Refilled(w, i, left[..|r| + 1]), left[|r| + 1..], rest);
      } else {
        forall n | 1 <= n <= i + 1
          ensures n <= |left|
          ensures Always(Refilled(w, i, left[..n]), left[n..], rest)
             <==> if n <= |r| then RobustFrom(Refilled(w, i, r[..n]), r[n..]) else 0xfa !in w[i + 1..] + r
        {
          NoiseTurn(w, r, rest, n);
          if n <= |r| {
            LongNoise(Refilled(w, i, r[..n]), r[n..], rest);
          } else {
            ShortNoise(w[i + 1..] + r, rest);
          }
        }
      }
    }
  }

  /** The scan finds the flag behind the noise however short its reads are, if and only if the noise is
      robust. */
  lemma AlwaysBehindNoise(noise: seq<byte>, rest: seq<byte>)
    ensures var s := noise + FRAMEFLAG + rest;
            |s| >= 8 && (Always(s[..8], s[8..], rest) <==> Robust(noise))
  {
    var s := noise + FRAMEFLAG + rest;
    if |noise| < 8 {
      assert s[..8] == noise + FRAMEFLAG[..8 - |noise|];
      assert s[8..] == FRAMEFLAG[8 - |noise|..] + rest;
      ShortNoise(noise, rest);
    } else {
      assert s[..8] == noise[..8];
      assert s[8..] == noise[8..] + FRAMEFLAG + rest;
      LongNoise(noise[..8], noise[8..], rest);
    }
  }

  /** What is found in any case is found with whole reads. */
  lemma {:induction false} AlwaysFound(head: seq<byte>, left: seq<byte>, goal: seq<byte>)
    requires |head| == 8 && Always(head, left, goal)
    ensures Found(head + left) == Some(goal)
    decreases |left|
  {
    var i, s := Agreeing(head), head + left;
    assert s[..i] == head[..i];
    AgreeingUnique(s, i);
    if i == 8 {
      assert s[8..] == left;
    } else if |left| < i + 1 {
      var next := Refilled(head, i, left[..|left|]);
      assert left[|left|..] == [];
      ZeroEnds(next, goal);
    } else {
      var next := Refilled(head, i, left[..i + 1]);
      assert next + left[i + 1..] == s[i + 1..];
      AlwaysFound(next, left[i + 1..], goal);
    }
  }

  lemma RobustIsCertain(noise: seq<byte>, rest: seq<byte>)
    requires Robust(noise)
    ensures var s := noise + FRAMEFLAG + rest;
            Certain(s) && Found(s) == Some(rest) && Settles(noise)
  {
    var s := noise + FRAMEFLAG + rest;
    AlwaysBehindNoise(noise, rest);
    AlwaysFound(s[..8], s[8..], rest);
    assert s[..8] + s[8..] == s;
    FoundBehindNoise(noise, rest);
  }

  lemma {:induction false} PlainRobustFrom(w: seq<byte>, r: seq<byte>)
    requires |w| == 8 && 0xfa !in w && 0xfa !in r
    ensures RobustFrom(w, r)
    decreases |r|
  {
    AgreeingUnique(w, 0);
    if |r| > 0 {
      assert Refilled(w, 0, r[..1]) == w[1..] + [r[0]];
      PlainRobustFrom(Refilled(w, 0, r[..1]), r[1..]);
    }
  }

  /** Noise without the first byte of the flag is robust. */
  lemma PlainNoiseIsRobust(noise: seq<byte>)
    requires 0xfa !in noise
    ensures Robust(noise)
  {
    if |noise| >= 8 { PlainRobustFrom(noise[..8], noise[8..]); }
  }

  /** Noise of 0xfa and 0 settles, but a short read loses the frame behind it. */
  lemma SettledNoiseMissed(rest: seq<byte>)
    ensures var s := [0xfa, 0] + FRAMEFLAG + rest;
            Found(s) == Some(rest) && !Always(s[..8], s[8..], rest)
  {
    var noise: seq<byte> := [0xfa, 0];
    AgreeingUnique(noise, 1);
    assert noise[2..] == [];
    FoundBehindNoise(noise, rest);
    AlwaysBehindNoise(noise, rest);
    assert noise[0] == 0xfa;
  }

  // ----- reading -----

  /** The window after taking used bytes of s: its last k bytes are the last bytes taken, and the byte
      before them is a zero that a short read left. */
  ghost predicate Window(s: seq<byte>, head: seq<byte>, used: nat, k: nat) {
    && |head| == 8 && k <= 8 && k <= used <= |s|
    && (forall j :: 8 - k <= j < 8 ==> head[j] == s[used - 8 + j])
    && (k < 8 ==> head[7 - k] == 0)
  }

  ghost function Slid(k: nat, i: nat, n: nat): nat {
    if n <= i then 0 else if k + n <= 8 then k + n else 8
  }

  lemma Slide(s: seq<byte>, head: seq<byte>, used: nat, k: nat, i: nat, one: seq<byte>, n: nat)
    requires Window(s, head, used, k) && i < 8
    requires |one| == i + 1 && n <= |one| && used + n <= |s|
    requires forall j :: 0 <= j < |one| ==> one[j] == if j < n then s[used + j] else 0
    ensures Window(s, head[i + 1..] + one, used + n, Slid(k, i, n))
  {
  }

  /** A window that shows the flag holds no zero of a short read: it is a stretch of the stream. */
  lemma FlagIsReal(s: seq<byte>, used: nat, k: nat)
    requires Window(s, FRAMEFLAG, used, k)
    ensures k == 8 && s[used - 8..] == FRAMEFLAG + s[used..]
  {
    var t := s[used - 8..];
    forall j | 0 <= j < 8 ensures t[j] == FRAMEFLAG[j] {
      assert t[j] == s[used - 8 + j];
    }
    assert t[8..] == s[used..];
    assert t == t[..8] + t[8..];
  }

  lemma WindowShows(s: seq<byte>, head: seq<byte>, used: nat)
    requires Window(s, head, used, 8)
    ensures s[used - 8..][..8] == head
  {
  }

  lemma FoundStep(s: seq<byte>, i: nat)
    requires |s| >= 8 && i < 8 && s[..i] == FRAMEFLAG[..i] && s[i] != FRAMEFLAG[i]
    ensures Found(s) == if |s| < 8 + i + 1 then None else Found(s[i + 1..])
  {
    hide FRAMEFLAG, Agreeing;
    AgreeingUnique(s, i);
  }

  /** What the scan of the whole stream still depends on, as long as reads are whole: the stream from
      the window on; after a read cut short by the end it cannot succeed. */
  ghost predicate OnTrack(s: seq<byte>, used: nat, k: nat) {
    if k == 8 && 8 <= used <= |s| then Found(s) == Found(s[used - 8..])
    else used == |s| && Found(s) == None
  }

  lemma TrackStep(s: seq<byte>, head: seq<byte>, used: nat, k: nat, i: nat, n: nat)
    requires Window(s, head, used, k) && OnTrack(s, used, k)
    requires i < 8 && head[..i] == FRAMEFLAG[..i] && head[i] != FRAMEFLAG[i]
    requires 1 <= n <= i + 1 && used + n <= |s|
    requires n == if i + 1 <= |s| - used then i + 1 else |s| - used
    ensures OnTrack(s, used + n, Slid(k, i, n))
  {
    hide Found;
    WindowShows(s, head, used);
    var t := s[used - 8..];
    assert t[..i] == head[..i] && t[i] == head[i];
    FoundStep(t, i);
    assert n == i + 1 ==> t[i + 1..] == s[used + n - 8..];
  }

  lemma TrackEnd(s: seq<byte>, head: seq<byte>, k: nat, i: nat)
    requires Window(s, head, |s|, k) && OnTrack(s, |s|, k)
    requires i < 8 && head[..i] == FRAMEFLAG[..i] && head[i] != FRAMEFLAG[i]
    ensures Found(s) == None
  {
    hide Found;
    if k == 8 {
      WindowShows(s, head, |s|);
      var t := s[|s| - 8..];
      assert t[..i] == head[..i] && t[i] == head[i];
      FoundStep(t, i);
    }
  }

  lemma TrackFound(s: seq<byte>, used: nat)
    requires 8 <= used <= |s| && OnTrack(s, used, 8) && s[used - 8..] == FRAMEFLAG + s[used..]
    ensures Found(s) == Some(s[used..])
  {
    var t := s[used - 8..];
    assert t[..8] == FRAMEFLAG[..8];
    AgreeingUnique(t, 8);
    assert t[8..] == s[used..];
  }

  /** The state of a scan that started with s. */
  ghost predicate Scanning(whole: bool, s: seq<byte>, left: seq<byte>, head: seq<byte>, used: nat, k: nat) {
    && used <= |s| && left == s[used..] && Window(s, head, used, k)
    && (whole ==> OnTrack(s, used, k))
    && (Certain(s) ==> Always(head, left, Found(s).value))
  }

  lemma ScanStart(whole: bool, s: seq<byte>)
    requires |s| >= 8
    ensures Scanning(whole, s, s[8..], s[..8], 8, 8)
  {
    hide Found, Always;
    assert s[0..] == s;
  }

  lemma ScanTurn(whole: bool, s: seq<byte>, left: seq<byte>, head: seq<byte>, used: nat, k: nat,
                 i: nat, one: seq<byte>, n: nat)
    requires Scanning(whole, s, left, head, used, k)
    requires i < 8 && head[..i] == FRAMEFLAG[..i] && head[i] != FRAMEFLAG[i]
    requires |one| == i + 1 && 1 <= n <= |one| && n <= |left|
    requires one[..n] == left[..n] && one[n..] == Zeros(i + 1 - n)
    requires whole ==> n == if i + 1 <= |left| then i + 1 else |left|
    ensures Scanning(whole, s, left[n..], head[i + 1..] + one, used + n, Slid(k, i, n))
  {
    hide Window, OnTrack, Slid, FRAMEFLAG, Always, Found;
    forall j | 0 <= j < |one| ensures one[j] == if j < n then s[used + j] else 0 {
      if j < n { assert one[..n][j] == left[..n][j]; } else { assert one[n..][j - n] == 0; }
    }
    WindowSize(s, head, used, k);
    Slide(s, head, used, k, i, one, n);
    if whole { TrackStep(s, head, used, k, i, n); }
    assert left[n..] == s[used + n..];
    assert head[i + 1..] + one == Refilled(head, i, left[..n]) by {
      assert one == one[..n] + one[n..];
    }
    if Certain(s) { AlwaysTurn(head, left, Found(s).value, i, n); }
  }

  lemma WindowSize(s: seq<byte>, head: seq<byte>, used: nat, k: nat)
    requires Window(s, head, used, k)
    ensures |head| == 8
  {
  }

  lemma AlwaysTurn(head: seq<byte>, left: seq<byte>, goal: seq<byte>, i: nat, n: nat)
    requires |head| == 8 && Always(head, left, goal)
    requires i < 8 && head[..i] == FRAMEFLAG[..i] && head[i] != FRAMEFLAG[i]
    requires 1 <= n <= i + 1 && n <= |left|
    ensures Always(Refilled(head, i, left[..n]), left[n..], goal)
  {
    AgreeingUnique(head, i);
  }

  lemma ScanEnd(whole: bool, s: seq<byte>, head: seq<byte>, used: nat, k: nat, i: nat)
    requires Scanning(whole, s, [], head, used, k)
    requires i < 8 && head[..i] == FRAMEFLAG[..i] && head[i] != FRAMEFLAG[i]
    ensures whole || Certain(s) ==> Found(s) == None
  {
    hide Certain, Found;
    assert used == |s|;
    AgreeingUnique(head, i);
    if whole { TrackEnd(s, head, k, i); }
  }

  lemma ScanFound(whole: bool, s: seq<byte>, left: seq<byte>, used: nat, k: nat)
    requires Scanning(whole, s, left, FRAMEFLAG, used, k)
    ensures |left| + 8 <= |s| && s[|s| - |left| - 8..] == FRAMEFLAG + left
    ensures whole || Certain(s) ==> Found(s) == Some(left)
  {
    hide Found;
    FlagIsReal(s, used, k);
    assert FRAMEFLAG[..8] == FRAMEFLAG;
    AgreeingUnique(FRAMEFLAG, 8);
    if whole { TrackFound(s, used); }
  }

  /** Reads up to and including the next flag. Every turn that goes on has taken a byte. When reads are
      whole, or the scan of the stream has only one outcome, that is the outcome. */
  method FindFlag(c: Source) returns (err: bool)
    modifies c
    ensures err ==> c.incoming == []
    ensures !err ==>
              (&& |c.incoming| + 8 <= |old(c.incoming)|
               && old(c.incoming)[|old(c.incoming)| - |c.incoming| - 8..] == FRAMEFLAG + c.incoming)
    ensures c.whole || Certain(old(c.incoming)) ==>
              Found(old(c.incoming)) == if err then None else Some(c.incoming)
  {
    hide Scanning, FRAMEFLAG, Always;
    ghost var s := c.incoming;
    var first := new byte[8](_ => 0);
    var n, failed := ReadFull(c, first);
    if failed { return true; }
    hide Found, Certain;
    assert first[..8] == first[..];
    var head := first[..];
    ghost var used, k := 8, 8;
    ScanStart(c.whole, s);
    while true
      invariant |head| == 8 && Scanning(c.whole, s, c.incoming, head, used, k)
      decreases |c.incoming|
    {
      var i := Mismatch(head);
      if i == 8 {
        ScanFound(c.whole, s, c.incoming, used, k);
        return false;
      }
      var one := new byte[i + 1](_ => 0);
      assert forall m :: 0 <= m <= i + 1 ==> one[m..] == Zeros(i + 1 - m);
      ghost var left := c.incoming;
      var m, eof := c.Read(one, 0, i + 1);
      if eof {
        ScanEnd(c.whole, s, head, used, k, i);
        return true;
      }
      assert one[0..m] == one[..][..m] && one[m..] == one[..][m..];
      ScanTurn(c.whole, s, left, head, used, k, i, one[..], m);
      head := head[i + 1..] + one[..];
      used, k := used + m, Slid(k, i, m);
    }
  }

  method Mismatch(head: seq<byte>) returns (i: nat)
    requires |head| == 8
    ensures i <= 8 && head[..i] == FRAMEFLAG[..i] && (i < 8 ==> head[i] != FRAMEFLAG[i])
    ensures i == 8 ==> head == FRAMEFLAG
  {
    i := 0;
    while i < 8
      invariant i <= 8 && head[..i] == FRAMEFLAG[..i]
    {
      if FRAMEFLAG[i] != head[i] { return; }
      i := i + 1;
    }
  }

  method ReadBehindFlag(c: Source) returns (frame: seq<byte>, err: bool)
    modifies c
    ensures AfterFlag(old(c.incoming)) == if err then Failed(frame) else Frame(frame, c.incoming)
    ensures err ==> c.incoming == []
    ensures !err ==> |frame| < 0x1_0000 && old(c.incoming) == Put16(|frame|) + frame + c.incoming
  {
    hide Put16, Get16;
    ghost var t := c.incoming;
    var bdl := new byte[2](_ => 0);
    var n, failed := ReadFull(c, bdl);
    if failed { return [], true; }
    assert bdl[..2] == bdl[..] == t[..2];
    Put16OfGet(bdl[..]);
    var buf := new byte[Get16(bdl[..])](_ => 0);
    assert forall m :: 0 <= m <= buf.Length ==> buf[m..] == Zeros(buf.Length - m);
    n, err := ReadFull(c, buf);
    frame := buf[..];
    if !err {
      assert buf[..n] == frame;
      assert t[2..][..n] == t[2..2 + n];
      assert t[2..][n..] == t[2 + n..];
      assert t == t[..2] + t[2..2 + n] + t[2 + n..];
    } else {
      assert buf[..n] == t[2..][..n] == t[2..];
      assert frame == buf[..n] + Zeros(buf.Length - n);
    }
  }

  /** t is what follows some flag in s. */
  ghost predicate FollowsFlag(s: seq<byte>, t: seq<byte>) {
    |t| + 8 <= |s| && s[|s| - |t| - 8..] == FRAMEFLAG + t
  }

  /** readFrame: on success the bytes taken end in a flag, the length of the frame and the frame, even
      when reads were cut short; on failure the stream is used up. */
  method ReadFrame(c: Source) returns (frame: seq<byte>, err: bool)
    modifies c
    ensures err ==> c.incoming == []
    ensures err && frame != [] ==>
              exists t :: FollowsFlag(old(c.incoming), t) && AfterFlag(t) == Failed(frame)
    ensures !err ==>
              (&& |frame| < 0x1_0000
               && var at := |old(c.incoming)| - |c.incoming| - |frame| - 10;
                  at >= 0 && old(c.incoming)[at..] == FRAMEFLAG + Put16(|frame|) + frame + c.incoming)
    ensures c.whole || Certain(old(c.incoming)) ==>
              Reading(old(c.incoming)) == if err then Failed(frame) else Frame(frame, c.incoming)
  {
    hide Found, Certain, FRAMEFLAG, AfterFlag;
    err := FindFlag(c);
    if err { return [], true; }
    ghost var t := c.incoming;
    assert FollowsFlag(old(c.incoming), t);
    frame, err := ReadBehindFlag(c);
    if !err {
      assert FRAMEFLAG + t == FRAMEFLAG + Put16(|frame|) + frame + c.incoming;
    }
  }

  // ----- a list of frames -----

  datatype Sent = Sent(noise: seq<byte>, packet: seq<byte>)

  function StreamOf(list: seq<Sent>, tail: seq<byte>): seq<byte> {
    if |list| == 0 then tail
    else list[0].noise + Framed(list[0].packet) + StreamOf(list[1..], tail)
  }

  function Packets(list: seq<Sent>): seq<seq<byte>> {
    if |list| == 0 then [] else [list[0].packet] + Packets(list[1..])
  }

  ghost predicate Readable(list: seq<Sent>) {
    forall i :: 0 <= i < |list| ==> Robust(list[i].noise) && |list[i].packet| < 0x1_0000
  }

  /** The receiving loop: frames until the first failure. In however small chunks the stream arrives,
      it receives exactly the packets sent, between robust noise. */
  method Serve(c: Source, ghost list: seq<Sent>, ghost tail: seq<byte>) returns (frames: seq<seq<byte>>)
    requires c.incoming == StreamOf(list, tail) && Readable(list) && 0xfa !in tail
    modifies c
    ensures frames == Packets(list) && c.incoming == []
  {
    hide Framed, Certain, Robust;
    frames := [];
    ghost var left := list;
    while true
      invariant c.incoming == StreamOf(left, tail) && Readable(left)
      invariant frames + Packets(left) == Packets(list)
      decreases |c.incoming|
    {
      ghost var s := c.incoming;
      if |left| > 0 { FirstFrame(left, tail); }
      var frame, err := ReadFrame(c);
      if err { return; }
      HasFlag(s, |s| - |c.incoming| - |frame| - 10, Put16(|frame|) + frame + c.incoming);
      assert frames + ([frame] + Packets(left[1..])) == (frames + [frame]) + Packets(left[1..]);
      frames := frames + [frame];
      left := left[1..];
    }
  }

  lemma HasFlag(s: seq<byte>, at: nat, t: seq<byte>)
    requires at <= |s| && s[at..] == FRAMEFLAG + t
    ensures 0xfa in s
  {
    assert s[at] == s[at..][0];
  }

  lemma FirstFrame(list: seq<Sent>, tail: seq<byte>)
    requires |list| > 0 && Readable(list)
    ensures Certain(StreamOf(list, tail))
    ensures Reading(StreamOf(list, tail)) == Frame(list[0].packet, StreamOf(list[1..], tail))
  {
    hide Found, Framed, Reading, Certain, Robust, FRAMEFLAG;
    var noise, p, rest := list[0].noise, list[0].packet, StreamOf(list[1..], tail);
    FramedIsCertain(noise, p, rest);
    FrameBehindNoise(noise, p, rest);
    assert p[..|p|] == p && p[|p|..] + rest == rest;
  }

  lemma FramedIsCertain(noise: seq<byte>, p: seq<byte>, rest: seq<byte>)
    requires Robust(noise)
    ensures Certain(noise + Framed(p) + rest) && Settles(noise)
  {
    hide Certain, Robust, FRAMEFLAG, Found, Settles;
    var tail := Put16(Truncate16(|p|)) + p + rest;
    RobustIsCertain(noise, tail);
    assert noise + FRAMEFLAG + tail == noise + Framed(p) + rest;
  }

  // ----- from writer to reader -----

  /** The packets of a writer, with no noise between them. */
  function Unspaced(packets: seq<seq<byte>>): seq<Sent> {
    if |packets| == 0 then [] else [Sent([], packets[0])] + Unspaced(packets[1..])
  }

  lemma {:induction false} UnspacedParts(packets: seq<seq<byte>>)
    requires forall p :: p in packets ==> |p| < 0x1_0000
    ensures Packets(Unspaced(packets)) == packets && Readable(Unspaced(packets))
  {
    if |packets| > 0 { UnspacedParts(packets[1..]); }
  }

  lemma {:induction false} FramedFromFront(packets: seq<seq<byte>>)
    requires |packets| > 0
    ensures FramedAll(packets) == Framed(packets[0]) + FramedAll(packets[1..])
  {
    hide Framed;
    var last := |packets| - 1;
    if last == 0 {
      assert packets[..0] == [] && packets[1..] == [];
    } else {
      FramedFromFront(packets[..last]);
      assert packets[..last][1..] == packets[1..][..last - 1];
    }
  }

  lemma {:induction false} FramedIsStream(packets: seq<seq<byte>>)
    ensures FramedAll(packets) == StreamOf(Unspaced(packets), [])
  {
    hide Framed;
    if |packets| > 0 {
      FramedFromFront(packets);
      FramedIsStream(packets[1..]);
      assert [] + Framed(packets[0]) == Framed(packets[0]);
    }
  }

  /** What the writer writes for packets under 65536 bytes, the reader receives, in however small
      chunks it arrives. */
  method Transfer(packets: seq<seq<byte>>, whole: bool) returns (frames: seq<seq<byte>>, sent: nat)
    requires forall p :: p in packets ==> |p| < 0x1_0000
    ensures sent == |packets| ==> frames == packets
  {
    hide FramedAll, StreamOf, Packets, Readable;
    var written;
    written, sent := TcpWriter(packets);
    frames := [];
    if sent == |packets| {
      FramedIsStream(packets);
      UnspacedParts(packets);
      var c := new Source(written, whole);
      frames := Serve(c, Unspaced(packets), []);
    }
  }
}
