/** The binary linkage configuration of src/octopus/msgs/ld2cfg.go.

    A configuration that was read holds slices of the buffer it was read from. */
module Ld2Config {

  import opened Bytes
  import opened Crc
  import opened Slices

  // ----- OR of a byte with a clear lower half -----

  function OrBits(p: seq<bool>, q: seq<bool>): (r: seq<bool>)
    requires |p| == |q|
    ensures |r| == |p|
  {
    seq(|p|, i requires 0 <= i < |p| => p[i] || q[i])
  }

  function OrByte(a: byte, b: byte): byte {
    OfBits(OrBits(BitsOf(a), BitsOf(b)))
  }

  lemma {:induction false} BinaryOfSum(a: nat, c: nat, high: nat, low: nat)
    requires c < Power2(low)
    ensures Binary(Power2(low) * a + c, high + low) == Binary(a, high) + Binary(c, low)
  {
    if low > 0 {
      Halves(Power2(low - 1), a, c);
      BinaryOfSum(a, c / 2, high, low - 1);
    } else {
      assert Binary(a, high) + [] == Binary(a, high);
    }
  }

  lemma Halves(p: nat, a: nat, c: nat)
    ensures (2 * p * a + c) / 2 == p * a + c / 2 && (2 * p * a + c) % 2 == c % 2
  {
    assert 2 * p * a == 2 * (p * a);
  }

  lemma Nibbles(h: nat, l: nat)
    requires h < 16 && l < 16
    ensures BitsOf(16 * h + l) == Binary(h, 4) + Binary(l, 4)
  {
    assert Power2(4) == 16;
    BinaryOfSum(h, l, 4, 4);
  }

  lemma NibbleInjective(l: nat, m: nat)
    requires l < 16 && m < 16 && Binary(l, 4) == Binary(m, 4)
    ensures l == m
  {
    hide Binary, Number;
    assert Power2(4) == 16;
    NumberOfBinary(l, 4);
    NumberOfBinary(m, 4);
  }

  /** The lower half comes from the second byte; when that has no other half, OR is addition. */
  lemma OrWithLowerHalf(a: nat, h: nat, l: nat)
    requires a < 16 && h < 16 && l < 16
    ensures OrByte(16 * a, 16 * h + l) % 16 == l
    ensures OrByte(16 * a, l) == 16 * a + l
  {
    hide Binary, OfBits, BitsOf;
    NoBits(4);
    Nibbles(a, 0);
    Nibbles(h, l);
    var r := OrByte(16 * a, 16 * h + l);
    BitsOfOfBits(OrBits(BitsOf(16 * a), BitsOf(16 * h + l)));
    Nibbles(r / 16, r % 16);
    assert Binary(r % 16, 4) == BitsOf(r)[4..] == Binary(l, 4);
    NibbleInjective(r % 16, l);
    OrOfNibbles(a, l);
  }

  lemma OrOfNibbles(a: nat, l: nat)
    requires a < 16 && l < 16
    ensures OrByte(16 * a, l) == 16 * a + l
  {
    hide Binary, OfBits, BitsOf;
    NoBits(4);
    Nibbles(a, 0);
    Nibbles(0, l);
    Nibbles(a, l);
    assert OrBits(BitsOf(16 * a), BitsOf(l)) == BitsOf(16 * a + l);
    OfBitsOfBitsOf(16 * a + l);
  }

  // ----- values -----

  datatype Config = Config(
    checksum: byte, version: byte, ldtype: byte, andOr: byte, devType: seq<byte>, devTypeRvs: seq<byte>,
    alarmLength: byte, alarm: seq<seq<byte>>, actionLength: byte, actionPreLocation: byte,
    actionCtn: seq<byte>)

  const BLANK := Config(0, 0, 0, 0, [], [], 0, [], 0, 0, [])

  function Reversed(s: seq<byte>): seq<byte>
    requires |s| == 4
  {
    [s[3], s[2], s[1], s[0]]
  }

  // ----- reading -----

  function Count(s: seq<byte>): (n: nat)
    requires |s| >= 8
    ensures n < 16
  {
    s[2] % 16
  }

  /** The length that is compared is the length modulo 256. */
  predicate HasAction(s: seq<byte>)
    requires |s| >= 8
  {
    |s| % 256 > 8 + 2 * Count(s)
  }

  /** Reading s indexes only within s. */
  predicate Complete(s: seq<byte>) {
    |s| >= 8 && |s| >= 8 + 2 * Count(s) + if HasAction(s) then 2 else 0
  }

  function Alarms(s: seq<byte>, n: nat): (alarms: seq<seq<byte>>)
    requires |s| >= 8 + 2 * n
    ensures |alarms| == n
  {
    seq(n, i requires 0 <= i < n => s[8 + 2 * i..10 + 2 * i])
  }

  /** The configuration c after reading s into it. */
  function Parsed(c: Config, s: seq<byte>): Config
    requires Complete(s)
  {
    var n := Count(s);
    var d := c.(checksum := s[0], version := s[1], ldtype := s[2] / 32, andOr := s[2] / 16 % 2,
                devType := s[4..8], devTypeRvs := Reversed(s[4..8]),
                alarmLength := n, alarm := Alarms(s, n));
    if HasAction(s) then
      d.(actionLength := s[8 + 2 * n], actionPreLocation := s[9 + 2 * n], actionCtn := s[10 + 2 * n..])
    else d
  }

  // ----- writing -----

  function Concat(parts: seq<seq<byte>>): seq<byte> {
    if |parts| == 0 then [] else Concat(parts[..|parts| - 1]) + parts[|parts| - 1]
  }

  function PackedHead(ldtype: byte, andOr: byte, alarms: nat): byte {
    OrByte(16 * (2 * (ldtype % 8) + andOr % 2), alarms % 256)
  }

  function HeadByte(c: Config): byte {
    PackedHead(c.ldtype, c.andOr, |c.alarm|)
  }

  function Body(c: Config): seq<byte> {
    [c.version, HeadByte(c), 0] + c.devType + Concat(c.alarm)
    + if c.actionLength > 0 then [c.actionLength, c.actionPreLocation] + c.actionCtn else []
  }

  function Printed(c: Config): seq<byte> {
    [Crc8(Body(c))] + Body(c)
  }

  // ----- round trips -----

  lemma {:induction false} ConcatOfPairs(parts: seq<seq<byte>>)
    requires forall i :: 0 <= i < |parts| ==> |parts[i]| == 2
    ensures |Concat(parts)| == 2 * |parts|
    ensures forall i :: 0 <= i < |parts| ==> Concat(parts)[2 * i..2 * i + 2] == parts[i]
  {
    if |parts| > 0 {
      var last := |parts| - 1;
      ConcatOfPairs(parts[..last]);
      forall i | 0 <= i < |parts| ensures Concat(parts)[2 * i..2 * i + 2] == parts[i] {
        if i < last {
          assert Concat(parts)[2 * i..2 * i + 2] == Concat(parts[..last])[2 * i..2 * i + 2];
          assert parts[..last][i] == parts[i];
        }
      }
    }
  }

  lemma {:induction false} ConcatOfAlarms(s: seq<byte>, n: nat)
    requires |s| >= 8 + 2 * n
    ensures Concat(Alarms(s, n)) == s[8..8 + 2 * n]
  {
    if n > 0 {
      ConcatOfAlarms(s, n - 1);
      assert Alarms(s, n)[..n - 1] == Alarms(s, n - 1);
      assert s[8..8 + 2 * n] == s[8..8 + 2 * (n - 1)] + s[8 + 2 * (n - 1)..10 + 2 * (n - 1)];
    }
  }

  /** The shape that the format has room for. */
  predicate Fits(c: Config) {
    |c.devType| == 4 && |c.alarm| < 16 && forall i :: 0 <= i < |c.alarm| ==> |c.alarm[i]| == 2
  }

  function ActionSize(c: Config): nat {
    if c.actionLength > 0 then 2 + |c.actionCtn| else 0
  }

  lemma Packing(x: nat, y: nat, k: nat)
    requires x < 8 && y < 2 && k < 16
    ensures var b := 16 * (2 * x + y) + k;
            b < 256 && b / 32 == x && b / 16 == 2 * x + y && b / 16 % 2 == y && b % 16 == k
  {
  }

  lemma HeadByteParts(c: Config)
    ensures HeadByte(c) % 16 == |c.alarm| % 16
    ensures |c.alarm| < 16 ==> HeadByte(c) / 32 == c.ldtype % 8 && HeadByte(c) / 16 % 2 == c.andOr % 2
  {
    hide OrByte;
    var x, y, k := c.ldtype % 8, c.andOr % 2, |c.alarm| % 256;
    OrWithLowerHalf(2 * x + y, k / 16, k % 16);
    if |c.alarm| < 16 { Packing(x, y, k); }
  }

  lemma PrintedPieces(c: Config)
    requires Fits(c)
    ensures var s, n := Printed(c), |c.alarm|;
            && |s| == 8 + 2 * n + ActionSize(c)
            && s[1] == c.version && s[2] == HeadByte(c)
            && s[4..8] == c.devType && Alarms(s, n) == c.alarm
            && (c.actionLength > 0 ==>
                  s[8 + 2 * n..] == [c.actionLength, c.actionPreLocation] + c.actionCtn)
  {
    hide HeadByte, Concat, Crc8;
    var s, n, alarms := Printed(c), |c.alarm|, Concat(c.alarm);
    ConcatOfPairs(c.alarm);
    assert s[8..8 + 2 * n] == alarms;
    forall i | 0 <= i < n ensures s[8 + 2 * i..10 + 2 * i] == c.alarm[i] {
      assert s[8 + 2 * i..10 + 2 * i] == s[8..8 + 2 * n][2 * i..2 * i + 2];
    }
  }

  /** The bytes of a configuration, written. */
  lemma PrintedBytes(c: Config)
    requires Fits(c)
    ensures var s, n := Printed(c), |c.alarm|;
            && |s| >= 8 + 2 * n
            && s[0] == Crc8(s[1..]) && s[1] == c.version
            && s[2] == 32 * (c.ldtype % 8) + 16 * (c.andOr % 2) + n && s[3] == 0
            && s[4..8] == c.devType
            && (forall i :: 0 <= i < n ==> s[8 + 2 * i..10 + 2 * i] == c.alarm[i])
            && s[8 + 2 * n..] == if c.actionLength > 0 then [c.actionLength, c.actionPreLocation] + c.actionCtn else []
  {
    hide HeadByte, Concat, Crc8;
    PrintedPieces(c);
    HeadByteIs(c);
    var s, n := Printed(c), |c.alarm|;
    assert s[1..] == Body(c);
    assert Body(c)[2] == 0 && s[3] == Body(c)[2];
    forall i | 0 <= i < n ensures s[8 + 2 * i..10 + 2 * i] == c.alarm[i] {
      assert Alarms(s, n)[i] == s[8 + 2 * i..10 + 2 * i];
    }
  }

  lemma HeadByteIs(c: Config)
    requires |c.alarm| < 16
    ensures HeadByte(c) == 32 * (c.ldtype % 8) + 16 * (c.andOr % 2) + |c.alarm|
  {
    hide OrByte;
    OrWithLowerHalf(2 * (c.ldtype % 8) + c.andOr % 2, 0, |c.alarm|);
  }

  /** What each byte read means. */
  lemma ParsedBytes(c: Config, s: seq<byte>)
    requires |s| >= 8
    ensures var n := s[2] % 16;
            var more := |s| % 256 > 8 + 2 * n;
            && (Complete(s) <==> |s| >= 8 + 2 * n + if more then 2 else 0)
            && (Complete(s) ==>
                  var d := Parsed(c, s);
                  && d.checksum == s[0] && d.version == s[1]
                  && d.ldtype == s[2] / 32 && d.andOr == s[2] / 16 % 2 && d.alarmLength == n
                  && d.devType == s[4..8] && d.devTypeRvs == [s[7], s[6], s[5], s[4]]
                  && |d.alarm| == n
                  && (forall i :: 0 <= i < n ==> d.alarm[i] == s[8 + 2 * i..10 + 2 * i])
                  && (more ==> [d.actionLength, d.actionPreLocation] + d.actionCtn == s[8 + 2 * n..])
                  && (more || (d.actionLength == c.actionLength && d.actionPreLocation == c.actionPreLocation
                               && d.actionCtn == c.actionCtn)))
  {
    if Complete(s) && HasAction(s) {
      var n := Count(s);
      assert s[8 + 2 * n..] == [s[8 + 2 * n], s[9 + 2 * n]] + s[10 + 2 * n..];
    }
  }

  /** c and d agree but for the fields that reading computes. */
  predicate SameContent(c: Config, d: Config) {
    && c.version == d.version && c.ldtype == d.ldtype && c.andOr == d.andOr
    && c.devType == d.devType && c.alarm == d.alarm
    && c.actionLength == d.actionLength && c.actionPreLocation == d.actionPreLocation
    && c.actionCtn == d.actionCtn
  }

  /** What can be told before writing: the fields fit their widths and the action, if it is written,
      makes the length modulo 256 exceed the length without it. */
  predicate Storable(c: Config) {
    && Fits(c) && c.ldtype < 8 && c.andOr < 2
    && if c.actionLength == 0 then c.actionPreLocation == 0 && c.actionCtn == []
       else (10 + 2 * |c.alarm| + |c.actionCtn|) % 256 > 8 + 2 * |c.alarm|
  }

  predicate ReadsBack(c: Config) {
    Complete(Printed(c)) && SameContent(Parsed(BLANK, Printed(c)), c)
  }

  /** A configuration that is written and read again is the same if and only if it is storable. */
  lemma ReadOfWritten(c: Config)
    ensures ReadsBack(c) <==> Storable(c)
  {
    hide Printed, HeadByte;
    if Fits(c) {
      PrintedPieces(c);
      HeadByteParts(c);
    } else if Complete(Printed(c)) {
      var d := Parsed(BLANK, Printed(c));
      assert Fits(d);
    }
  }

  /** An action of 246 bytes makes the length 256, and is not read back. */
  lemma LongActionLost()
    ensures !ReadsBack(BLANK.(devType := [0, 0, 0, 0], actionLength := 1, actionCtn := Zeros(246)))
  {
    hide ReadsBack, Zeros;
    ReadOfWritten(BLANK.(devType := [0, 0, 0, 0], actionLength := 1, actionCtn := Zeros(246)));
  }

  lemma WrittenChecksum(c: Config)
    requires Storable(c)
    ensures ReadsBack(c)
    ensures var d := Parsed(BLANK, Printed(c));
            && d.alarmLength == |c.alarm| && d.devTypeRvs == Reversed(c.devType)
            && Crc8(Printed(c)[1..] + [d.checksum]) == 0
  {
    hide HeadByte, Crc8;
    ReadOfWritten(c);
    PrintedPieces(c);
    HeadByteParts(c);
    var s := Printed(c);
    assert s[1..] == Body(c);
    CrcResidue(Body(c), s[0]);
  }

  /** The byte strings that writing can produce, told from their bytes alone. */
  predicate Canonical(s: seq<byte>)
    requires Complete(s)
  {
    && s[0] == Crc8(s[1..]) && s[3] == 0
    && if HasAction(s) then s[8 + 2 * Count(s)] != 0 else |s| == 8 + 2 * Count(s)
  }

  lemma PackedByte(b: byte)
    ensures PackedHead(b / 32, b / 16 % 2, b % 16) == b
  {
    hide OrByte;
    Packing(b / 32, b / 16 % 2, b % 16);
    OrWithLowerHalf(b / 16, 0, b % 16);
  }

  lemma HeadByteOfParsed(s: seq<byte>)
    requires Complete(s)
    ensures HeadByte(Parsed(BLANK, s)) == s[2]
  {
    hide PackedHead;
    PackedByte(s[2]);
  }

  lemma BodyOfParsed(s: seq<byte>)
    requires Complete(s)
    ensures var n := Count(s);
            Body(Parsed(BLANK, s)) == [s[1], s[2], 0] + s[4..8 + 2 * n]
                                      + if HasAction(s) && s[8 + 2 * n] > 0 then s[8 + 2 * n..] else []
  {
    hide HeadByte, Count, HasAction, Concat;
    CompleteLength(s);
    var n := Count(s);
    HeadByteOfParsed(s);
    ConcatOfAlarms(s, n);
    assert s[4..8] + s[8..8 + 2 * n] == s[4..8 + 2 * n];
    if HasAction(s) { assert s[8 + 2 * n..] == [s[8 + 2 * n], s[9 + 2 * n]] + s[10 + 2 * n..]; }
  }

  /** A byte string that is read and written again is the same if and only if it is canonical. */
  lemma WrittenOfRead(s: seq<byte>)
    requires Complete(s)
    ensures Printed(Parsed(BLANK, s)) == s <==> Canonical(s)
  {
    hide Body, Parsed, Crc8;
    BodyOfParsed(s);
    var n, b := Count(s), Body(Parsed(BLANK, s));
    assert Printed(Parsed(BLANK, s)) == s <==> s[0] == Crc8(b) && b == s[1..] by {
      assert s == [s[0]] + s[1..];
    }
    var tail := if HasAction(s) && s[8 + 2 * n] > 0 then s[8 + 2 * n..] else [];
    assert s[1..] == [s[1], s[2], s[3]] + s[4..8 + 2 * n] + s[8 + 2 * n..];
    assert s[1..][2] == s[3];
    assert b == s[1..] <==> s[3] == 0 && |tail| == |s[8 + 2 * n..]| by {
      assert b[2] == 0 && |b| == 3 + |s[4..8 + 2 * n]| + |tail|;
    }
  }

  /** A byte string whose fourth byte is 1 is not written again as it was read. */
  lemma FourthByteLost()
    ensures Complete([0, 0, 0, 1, 0, 0, 0, 0])
    ensures Printed(Parsed(BLANK, [0, 0, 0, 1, 0, 0, 0, 0])) != [0, 0, 0, 1, 0, 0, 0, 0]
  {
    hide Printed, Parsed, Crc8;
    WrittenOfRead([0, 0, 0, 1, 0, 0, 0, 0]);
  }

  // ----- turning the byte order -----

  function Turned(s: seq<byte>): (t: seq<byte>)
    requires Complete(s)
    ensures |t| == |s|
  {
    seq(|s|, i requires 0 <= i < |s| => s[TurnedFrom(Count(s), i)])
  }

  /** Where the byte at i comes from: 4..8 is reversed and the n pairs behind it are swapped. */
  function TurnedFrom(n: nat, i: nat): (j: nat)
    ensures i < 8 + 2 * n ==> j < 8 + 2 * n
    ensures i >= 8 + 2 * n ==> j == i
  {
    if 4 <= i < 8 then 11 - i
    else if 8 <= i < 8 + 2 * n then (if i % 2 == 0 then i + 1 else i - 1)
    else i
  }

  lemma TurnedFromTwice(n: nat, i: nat)
    ensures TurnedFrom(n, TurnedFrom(n, i)) == i
  {
  }

  lemma TurnedFromPair(n: nat, i: nat)
    requires i < n
    ensures TurnedFrom(n, 8 + 2 * i) == 9 + 2 * i && TurnedFrom(n, 9 + 2 * i) == 8 + 2 * i
  {
  }

  lemma TurnedHead(s: seq<byte>)
    requires Complete(s)
    ensures Complete(Turned(s)) && Count(Turned(s)) == Count(s) && HasAction(Turned(s)) == HasAction(s)
  {
    assert Turned(s)[2] == s[2];
  }

  /** Turning twice changes nothing; after one turn the device type and each alarm read as the
      reverse of what they were. */
  lemma TurnedTwice(s: seq<byte>)
    requires Complete(s)
    ensures Complete(Turned(s)) && Turned(Turned(s)) == s
    ensures Turned(s)[4..8] == Reversed(s[4..8]) == [s[7], s[6], s[5], s[4]]
    ensures forall i :: 0 <= i < Count(s) ==>
              Turned(s)[8 + 2 * i] == s[9 + 2 * i] && Turned(s)[9 + 2 * i] == s[8 + 2 * i]
  {
    hide Complete, Count;
    TurnedHead(s);
    var n, t := Count(s), Turned(s);
    forall i | 0 <= i < |s| ensures Turned(t)[i] == s[i] {
      hide TurnedFrom;
      TurnedFromTwice(n, i);
      assert Turned(t)[i] == t[TurnedFrom(n, i)] == s[TurnedFrom(n, TurnedFrom(n, i))];
    }
    forall i | 0 <= i < n ensures t[8 + 2 * i] == s[9 + 2 * i] && t[9 + 2 * i] == s[8 + 2 * i] {
      hide TurnedFrom;
      TurnedFromPair(n, i);
      CompleteLength(s);
    }
    CompleteLength(s);
  }

  /** t is s with the first n pairs behind the first 8 bytes swapped. */
  ghost predicate SwappedPairs(s: seq<byte>, t: seq<byte>, n: nat) {
    && |s| == |t| >= 8 + 2 * n
    && (forall i :: 0 <= i < n ==> t[8 + 2 * i] == s[9 + 2 * i] && t[9 + 2 * i] == s[8 + 2 * i])
    && (forall i :: 8 + 2 * n <= i < |s| ==> t[i] == s[i])
  }

  lemma TurnedIs(s: seq<byte>, m: seq<byte>, t: seq<byte>)
    requires Complete(s) && |s| == |m| && m[..4] == s[..4] && m[8..] == s[8..]
    requires m[4..8] == Reversed(s[4..8])
    requires SwappedPairs(m, t, Count(s)) && t[..8] == m[..8]
    ensures t == Turned(s)
  {
    var n := Count(s);
    forall i | 0 <= i < |s| ensures t[i] == Turned(s)[i] {
      if i < 4 {
        assert t[i] == t[..8][i] == m[..4][i] == s[..4][i];
      } else if i < 8 {
        assert t[i] == t[..8][i] == m[4..8][i - 4];
      } else if i < 8 + 2 * n {
        var k := (i - 8) / 2;
        assert i == 8 + 2 * k || i == 9 + 2 * k;
        assert m[8 + 2 * k] == m[8..][2 * k] == s[8 + 2 * k];
        assert m[9 + 2 * k] == m[8..][2 * k + 1] == s[9 + 2 * k];
      } else {
        assert m[i] == m[8..][i - 8] == s[8..][i - 8];
      }
    }
  }

  lemma Incomplete(s: seq<byte>)
    requires |s| < 8 || |s| < 8 + 2 * Count(s)
    ensures !Complete(s)
  {
  }

  lemma CompleteLength(s: seq<byte>)
    requires Complete(s)
    ensures |s| >= 8 + 2 * Count(s)
  {
  }

  // ----- the class -----

  /** The bytes of a slice; a nil slice has none. */
  function Text(s: Slice): seq<byte>
    reads if s.View? then {s.a} else {}
  {
    if s.View? then s.a[s.lo..s.hi] else []
  }

  class CFGLD2 {
    var Checksum: byte
    var Version: byte
    var Ldtype: byte
    var AndOr: byte
    var DevType: Slice
    var DevTypeRvs: Slice
    var AlarmLength: byte
    var Alarm: seq<Slice>
    var ActionLength: byte
    var ActionPreLocation: byte
    var ActionCtn: Slice
    var Final: array<byte>

    constructor (final: array<byte>)
      ensures Final == final && Value() == BLANK
    {
      Checksum, Version, Ldtype, AndOr, AlarmLength, ActionLength, ActionPreLocation := 0, 0, 0, 0, 0, 0, 0;
      DevType, DevTypeRvs, ActionCtn, Alarm := Nil, Nil, Nil, [];
      Final := final;
    }

    ghost function Arrays(): set<array<byte>>
      reads this
    {
      (set i | 0 <= i < |Alarm| && Alarm[i].View? :: Alarm[i].a)
      + (if DevType.View? then {DevType.a} else {})
      + (if DevTypeRvs.View? then {DevTypeRvs.a} else {})
      + (if ActionCtn.View? then {ActionCtn.a} else {})
    }

    ghost function AlarmTexts(): seq<seq<byte>>
      reads this, Arrays()
    {
      seq(|Alarm|, i requires 0 <= i < |Alarm| reads this, Arrays() => Text(Alarm[i]))
    }

    ghost function Value(): Config
      reads this, Arrays()
    {
      Config(Checksum, Version, Ldtype, AndOr, Text(DevType), Text(DevTypeRvs), AlarmLength, AlarmTexts(),
             ActionLength, ActionPreLocation, Text(ActionCtn))
    }

    /** The slices that reading makes into the buffer. */
    ghost predicate Sliced()
      reads this, Final
      requires Complete(Final[..])
    {
      var n := Count(Final[..]);
      && DevType == View(Final, 4, 8)
      && |Alarm| == n && (forall i :: 0 <= i < n ==> Alarm[i] == View(Final, 8 + 2 * i, 10 + 2 * i))
      && (HasAction(Final[..]) ==> ActionCtn == View(Final, 10 + 2 * n, Final.Length))
    }

    method ReadHead()
      requires Final.Length >= 8
      modifies `Checksum, `Version, `Ldtype, `AndOr, `AlarmLength, `DevType, `DevTypeRvs
      ensures Checksum == Final[0] && Version == Final[1]
      ensures Ldtype == Final[2] / 32 && AndOr == Final[2] / 16 % 2 && AlarmLength == Count(Final[..])
      ensures DevType == View(Final, 4, 8)
      ensures DevTypeRvs.View? && fresh(DevTypeRvs.a) && Text(DevTypeRvs) == Reversed(Final[4..8])
    {
      hide Reversed;
      Checksum, Version := Final[0], Final[1];
      Ldtype, AndOr, AlarmLength := Final[2] / 32, Final[2] / 16 % 2, Final[2] % 16;
      DevType := View(Final, 4, 8);
      var rvs := new byte[4](_ => 0);
      PutBig32(rvs, 0, Get32(Final[4..8]));
      DevTypeRvs := View(rvs, 0, 4);
    }

    method CutAlarms()
      requires Final.Length >= 8 + 2 * AlarmLength
      modifies `Alarm
      ensures |Alarm| == AlarmLength
      ensures forall i :: 0 <= i < AlarmLength ==> Alarm[i] == View(Final, 8 + 2 * i, 10 + 2 * i)
    {
      Alarm := seq(AlarmLength, _ => Nil);
      for n := 0 to AlarmLength
        invariant |Alarm| == AlarmLength
        invariant forall i :: 0 <= i < n ==> Alarm[i] == View(Final, 8 + 2 * i, 10 + 2 * i)
      {
        Alarm := Alarm[n := View(Final, 8 + n * 2, 8 + n * 2 + 2)];
      }
    }

    method ReadAction() returns (panicked: bool)
      requires 8 + 2 * AlarmLength <= Final.Length && AlarmLength == Count(Final[..])
      modifies `ActionLength, `ActionPreLocation, `ActionCtn
      ensures panicked == !Complete(Final[..])
      ensures !HasAction(Final[..]) ==>
                ActionLength == old(ActionLength) && ActionPreLocation == old(ActionPreLocation)
                && ActionCtn == old(ActionCtn)
      ensures HasAction(Final[..]) && !panicked ==>
                ActionLength == Final[8 + 2 * AlarmLength] && ActionPreLocation == Final[9 + 2 * AlarmLength]
                && ActionCtn == View(Final, 10 + 2 * AlarmLength, Final.Length)
    {
      var finalLen := Final.Length % 256;
      if finalLen > 8 + AlarmLength * 2 {
        if Final.Length < 10 + AlarmLength * 2 { return true; }
        ActionLength := Final[8 + AlarmLength * 2];
        ActionPreLocation := Final[8 + AlarmLength * 2 + 1];
        ActionCtn := View(Final, 8 + AlarmLength * 2 + 2, Final.Length);
      }
      return false;
    }

    /** B2O: reads Final; indexing past its end stops it. An action that Final lacks leaves the fields
        for the action as they were. */
    method B2O() returns (panicked: bool)
      modifies this
      ensures Final == old(Final)
      ensures panicked == !Complete(Final[..])
      ensures !panicked ==> Sliced() && DevTypeRvs.View? && fresh(DevTypeRvs.a)
      ensures !panicked ==> AlarmLength == Count(Final[..]) && Text(DevTypeRvs) == Reversed(Final[4..8])
      ensures !panicked ==> Value() == Parsed(old(Value()), Final[..])
    {
      hide Reversed, Count, HasAction, Complete, Crc8;
      ghost var s := Final[..];
      if Final.Length < 8 {
        Incomplete(s);
        return true;
      }
      ReadHead();
      if Final.Length < 8 + 2 * AlarmLength {
        Incomplete(s);
        return true;
      }
      CutAlarms();
      panicked := ReadAction();
      assert AlarmTexts() == Alarms(s, AlarmLength);
    }

    method TurnDevType()
      requires Final.Length >= 8 && DevType == View(Final, 4, 8)
      modifies Final
      ensures Final[..4] == old(Final[..4]) && Final[8..] == old(Final[8..])
      ensures Final[4..8] == Reversed(old(Final[4..8]))
    {
      hide Reversed;
      var tmp := Get32(Text(DevType));
      PutBig32(Final, 4, tmp);
    }

    method SwapAlarms()
      requires Final.Length >= 8 + 2 * AlarmLength
      modifies Final
      ensures Final[..8] == old(Final[..8])
      ensures SwappedPairs(old(Final[..]), Final[..], AlarmLength)
    {
      for n := 0 to AlarmLength
        invariant Final[..8] == old(Final[..8])
        invariant SwappedPairs(old(Final[..]), Final[..], n)
      {
        Final[8 + n * 2], Final[8 + n * 2 + 1] := Final[8 + n * 2 + 1], Final[8 + n * 2];
      }
    }

    /** RvsDT: reads Final and turns the device type and the alarms around in place, so that the slices
        that were just read show the turned bytes; DevTypeRvs, a copy, shows the same device type. */
    method RvsDT() returns (panicked: bool)
      modifies this, Final
      ensures Final == old(Final)
      ensures panicked == !Complete(old(Final[..]))
      ensures panicked ==> Final[..] == old(Final[..])
      ensures !panicked ==> Final[..] == Turned(old(Final[..]))
      ensures !panicked ==> Sliced() && Text(DevType) == Text(DevTypeRvs)
    {
      hide Reversed, Count, HasAction, Complete, Turned, SwappedPairs, Parsed;
      panicked := B2O();
      if panicked { return; }
      ghost var s := Final[..];
      CompleteLength(s);
      DevType := View(Final, 4, 8);
      TurnDevType();
      ghost var m := Final[..];
      SwapAlarms();
      TurnedIs(s, m, Final[..]);
      TurnedHead(s);
    }

    method AppendAlarms(buf: seq<byte>, ghost texts: seq<seq<byte>>) returns (r: seq<byte>)
      requires texts == AlarmTexts()
      ensures r == buf + Concat(texts)
    {
      r := buf;
      for i := 0 to |Alarm|
        invariant r == buf + Concat(texts[..i])
      {
        assert texts[..i + 1][..i] == texts[..i];
        r := r + Text(Alarm[i]);
      }
      assert texts[..|Alarm|] == texts;
    }

    /** O2B: Final becomes a new buffer; Checksum is not set. */
    method O2B()
      modifies `Final
      ensures fresh(Final) && Value() == old(Value())
      ensures Final[..] == Printed(old(Value()))
    {
      hide PackedHead, Crc8, Concat;
      ghost var c := Value();
      var b3 := PackedHead(Ldtype, AndOr, |Alarm|);
      var buf := [Version, b3, 0];
      buf := buf + Text(DevType);
      buf := AppendAlarms(buf, c.alarm);
      ghost var front := buf;
      assert front == [c.version, HeadByte(c), 0] + c.devType + Concat(c.alarm);
      if ActionLength > 0 {
        buf := buf + ([ActionLength, ActionPreLocation] + Text(ActionCtn));
      }
      assert buf == front + if c.actionLength > 0 then [c.actionLength, c.actionPreLocation] + c.actionCtn else [];
      assert buf == Body(c);
      var checksum := Crc.Crc(buf, |buf|);
      assert buf[..|buf|] == buf;
      var bytes := [checksum] + buf;
      Final := new byte[|bytes|](i requires 0 <= i < |bytes| => bytes[i]);
      assert Final[..] == bytes == Printed(c);
    }
  }

  /** binary.BigEndian.PutUint32 */
  method PutBig32(a: array<byte>, at: nat, n: u32)
    requires at + 4 <= a.Length
    modifies a
    ensures a[at..at + 4] == Reversed(Put32(n))
    ensures a[..at] == old(a[..at]) && a[at + 4..] == old(a[at + 4..])
    ensures forall s: seq<byte> {:trigger Reversed(s)} :: |s| == 4 && Get32(s) == n ==> a[at..at + 4] == Reversed(s)
  {
    hide Put32;
    var p := Put32(n);
    a[at], a[at + 1], a[at + 2], a[at + 3] := p[3], p[2], p[1], p[0];
    forall s: seq<byte> | |s| == 4 && Get32(s) == n ensures s == p {
      Put32OfGet(s);
    }
  }
}
