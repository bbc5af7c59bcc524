/** In-place masking and the derived message key (src/octopus/msgs/msg.go). */
module MsgKeys {
  import opened Bytes

  // ----- masking -----

  /** The mask byte used for payload byte i; the sum is a 16-bit one. */
  function MaskIndex(i: nat, desp: byte): (k: nat)
    ensures k < 4
  {
    ((i + desp) % 65536) % 4
  }

  function MaskByte(s: seq<byte>, at: nat, i: nat): byte
    requires at + 4 <= |s|
  {
    s[at + MaskIndex(i, s[at])]
  }

  /** The loop counts in 16 bits: only the first (hi - lo) % 65536 bytes are masked. */
  function MaskEnd(lo: nat, hi: nat): (end: nat)
    requires lo <= hi
    ensures lo <= end <= hi
    ensures hi - lo < 65536 ==> end == hi
  {
    lo + (hi - lo) % 65536
  }

  /** s with the bytes in [lo, hi) masked by the four bytes at position at. */
  function MaskRange(s: seq<byte>, lo: nat, hi: nat, at: nat): (t: seq<byte>)
    requires lo <= hi <= |s| && at + 4 <= |s|
    ensures |t| == |s|
  {
    seq(|s|, i requires 0 <= i < |s| =>
      if lo <= i < MaskEnd(lo, hi) then XorByte(s[i], MaskByte(s, at, i - lo)) else s[i])
  }

  /** payload = a[lo..hi] and mask = a[at..at+4] are slices of one array, and do not overlap. */
  method MaskContent(a: array<byte>, lo: nat, hi: nat, at: nat)
    requires lo <= hi <= a.Length && at + 4 <= a.Length
    requires at + 4 <= lo || hi <= at
    modifies a
    ensures a[..] == MaskRange(old(a[..]), lo, hi, at)
  {
    hide XorByte, MaskIndex, MaskEnd;
    var desp := a[at];
    ghost var s := a[..];
    for iter := 0 to MaskEnd(lo, hi) - lo
      invariant forall i :: 0 <= i < a.Length && !(lo <= i < lo + iter) ==> a[i] == s[i]
      invariant forall i :: lo <= i < lo + iter ==> a[i] == XorByte(s[i], MaskByte(s, at, i - lo))
    {
      var maskIndex := MaskIndex(iter, desp);
      a[lo + iter] := XorByte(a[lo + iter], a[at + maskIndex]);
    }
  }

  /** Bytes outside the masked range, so in particular the mask itself, stay. */
  lemma MaskKeeps(s: seq<byte>, lo: nat, hi: nat, at: nat, from: nat, to: nat)
    requires lo <= hi <= |s| && at + 4 <= |s| && from <= to <= |s|
    requires to <= lo || hi <= from
    ensures MaskRange(s, lo, hi, at)[from..to] == s[from..to]
  {
    hide XorByte, MaskByte, MaskEnd;
  }

  lemma MaskByteKept(s: seq<byte>, t: seq<byte>, at: nat, i: nat)
    requires at + 4 <= |s| == |t| && s[at..at + 4] == t[at..at + 4]
    ensures MaskByte(s, at, i) == MaskByte(t, at, i)
  {
    hide MaskIndex;
    assert s[at..at + 4][0] == s[at] && t[at..at + 4][0] == t[at];
    var k := MaskIndex(i, s[at]);
    assert s[at..at + 4][k] == s[at + k] && t[at..at + 4][k] == t[at + k];
  }

  /** Masking twice is the identity, because the mask bytes are outside the masked range. */
  lemma MaskInvolution(s: seq<byte>, lo: nat, hi: nat, at: nat)
    requires lo <= hi <= |s| && at + 4 <= |s| && (at + 4 <= lo || hi <= at)
    ensures MaskRange(MaskRange(s, lo, hi, at), lo, hi, at) == s
  {
    hide XorByte, MaskByte, MaskEnd;
    var t := MaskRange(s, lo, hi, at);
    MaskKeeps(s, lo, hi, at, at, at + 4);
    forall i | 0 <= i < |s|
      ensures MaskRange(t, lo, hi, at)[i] == s[i]
    {
      if lo <= i < MaskEnd(lo, hi) {
        MaskByteKept(s, t, at, i - lo);
        XorSelf(s[i], MaskByte(s, at, i - lo));
      }
    }
  }

  /** Payload byte k is XORed with the mask byte that the first mask byte and k point to, and so for as
      many bytes as 16 bits can count; everything else stays. */
  lemma MaskedByte(s: seq<byte>, lo: nat, hi: nat, at: nat, i: nat)
    requires lo <= hi <= |s| && at + 4 <= |s| && i < |s|
    ensures MaskRange(s, lo, hi, at)[i]
         == if lo <= i < lo + (hi - lo) % 65536 then XorByte(s[i], s[at + (i - lo + s[at]) % 4]) else s[i]
  {
    hide XorByte, MaskIndex;
    if i >= lo { MaskIndexMeans(i - lo, s[at]); }
  }

  lemma MaskIndexMeans(i: nat, desp: byte)
    ensures MaskIndex(i, desp) == (i + desp) % 4
  {
    var q, m := (i + desp) / 65536, (i + desp) % 65536;
    Quarters(16384 * q, m);
    assert i + desp == 4 * (16384 * q) + m;
  }

  // ----- the derived key -----

  /** The mixing byte of round i for key position n, from the id bytes and the time bytes. */
  function Mixing(id: seq<byte>, time: seq<byte>, timeXor: byte, i: nat, n: nat): byte
    requires |id| == 8 && |time| == 4
  {
    XorByte(id[(timeXor + (i + n)) % 256 % 8], time[(i + n) % 256 % 4])
  }

  /** What the first rounds rounds XOR into key position n. */
  function Mixed(id: seq<byte>, time: seq<byte>, timeXor: byte, rounds: nat, n: nat): byte
    requires |id| == 8 && |time| == 4
  {
    if rounds == 0 then 0
    else XorByte(Mixed(id, time, timeXor, rounds - 1, n), Mixing(id, time, timeXor, rounds - 1, n))
  }

  function TimeXor(time: seq<byte>): byte
    requires |time| == 4
  {
    XorByte(XorByte(XorByte(time[0], time[1]), time[2]), time[3])
  }

  /** One to four rounds, from the two low bits. */
  function Rounds(timeXor: byte): (r: nat)
    ensures 1 <= r <= 4
  {
    timeXor % 4 + 1
  }

  function KeySeed(sequence: u16, dst: u64, time: u32): (s: seq<byte>)
    ensures |s| == 16
  {
    Put32(time) + Put64(dst) + Put16(sequence) + Put16(sequence)
  }

  function RandomKey(sequence: u16, dst: u64, time: u32): (key: seq<byte>)
    ensures |key| == 16
  {
    var t, id := Put32(time), Put64(dst);
    seq(16, n requires 0 <= n < 16 =>
      XorByte(KeySeed(sequence, dst, time)[n], Mixed(id, t, TimeXor(t), Rounds(TimeXor(t)), n)))
  }

  method RandomKeyGet(sequence: u16, dst: u64, time: u32) returns (key: array<byte>)
    ensures fresh(key) && key[..] == RandomKey(sequence, dst, time)
  {
    hide XorByte, Put64, Put32, Put16, Mixing;
    var id, timeArray, seed := Put64(dst), Put32(time), KeySeed(sequence, dst, time);
    var timeXor := TimeXor(timeArray);
    key := new byte[16](n requires 0 <= n < 16 => seed[n]);
    XorUnits(seed);
    for i := 0 to Rounds(timeXor)
      invariant forall n :: 0 <= n < 16 ==> key[n] == XorByte(seed[n], Mixed(id, timeArray, timeXor, i, n))
    {
      for n := 0 to 16
        invariant forall k :: n <= k < 16 ==> key[k] == XorByte(seed[k], Mixed(id, timeArray, timeXor, i, k))
        invariant forall k :: 0 <= k < n ==> key[k] == XorByte(seed[k], Mixed(id, timeArray, timeXor, i + 1, k))
      {
        XorAssoc(seed[n], Mixed(id, timeArray, timeXor, i, n), Mixing(id, timeArray, timeXor, i, n));
        key[n] := XorByte(key[n], Mixing(id, timeArray, timeXor, i, n));
      }
    }
  }

  /** The key without the mixing: time, id, and the sequence number twice, in little-endian order. */
  lemma SeedBytes(sequence: u16, dst: u64, time: u32, n: nat)
    requires n < 16
    ensures KeySeed(sequence, dst, time)[n]
         == if n < 4 then ShiftRight(time, n) % 256
            else if n < 12 then ShiftRight(dst, n - 4) % 256
            else if n % 2 == 0 then sequence % 256 else sequence / 256
  {
    hide ShiftRight, Little;
    PutBytes(sequence, time);
    if n < 4 { LittleAt(time, 4, n); } else if n < 12 { LittleAt(dst, 8, n - 4); }
  }

  /** What one round mixes into byte n, the sums taken without any limit on their size. */
  lemma RoundByte(id: seq<byte>, time: seq<byte>, x: byte, i: nat, n: nat)
    requires |id| == 8 && |time| == 4
    ensures Mixing(id, time, x, i, n) == XorByte(id[(x + i + n) % 8], time[(i + n) % 4])
  {
    hide XorByte;
    LowBits(x + (i + n));
    LowBits(i + n);
  }

  lemma LowBits(a: nat)
    ensures a % 256 % 8 == a % 8 && a % 256 % 4 == a % 4
  {
    var q, m := a / 256, a % 256;
    Eighths(32 * q, m);
    Quarters(64 * q, m);
    assert a == 8 * (32 * q) + m == 4 * (64 * q) + m;
  }

  lemma Eighths(q: nat, m: nat)
    ensures (8 * q + m) % 8 == m % 8
  {
  }

  lemma Quarters(q: nat, m: nat)
    ensures (4 * q + m) % 4 == m % 4
  {
  }

  /** Byte n of the key from the bytes t of the time, the bytes id of the id and the sequence number:
      one to four rounds, as the XOR x of the time bytes says, each mixing in one byte of the id,
      rotated by x, and one byte of the time. */
  lemma KeyByte(sequence: u16, dst: u64, time: u32, n: nat)
    requires n < 16
    ensures var t, id := Put32(time), Put64(dst);
            var x := XorByte(XorByte(XorByte(t[0], t[1]), t[2]), t[3]);
            var k0 := XorByte(KeySeed(sequence, dst, time)[n], XorByte(id[(x + n) % 8], t[n % 4]));
            var k1 := XorByte(k0, XorByte(id[(x + 1 + n) % 8], t[(1 + n) % 4]));
            var k2 := XorByte(k1, XorByte(id[(x + 2 + n) % 8], t[(2 + n) % 4]));
            var k3 := XorByte(k2, XorByte(id[(x + 3 + n) % 8], t[(3 + n) % 4]));
            var k := if x % 4 == 0 then k0 else if x % 4 == 1 then k1 else if x % 4 == 2 then k2 else k3;
            RandomKey(sequence, dst, time)[n] == k
  {
    hide XorByte, Put64, Put32, KeySeed, Mixing;
    var t, id := Put32(time), Put64(dst);
    var x, s := TimeXor(t), KeySeed(sequence, dst, time)[n];
    RoundByte(id, t, x, 0, n);
    RoundByte(id, t, x, 1, n);
    RoundByte(id, t, x, 2, n);
    RoundByte(id, t, x, 3, n);
    MixedRounds(id, t, x, n, s);
  }

  lemma MixedRounds(id: seq<byte>, time: seq<byte>, x: byte, n: nat, s: byte)
    requires |id| == 8 && |time| == 4
    ensures var m0, m1 := Mixing(id, time, x, 0, n), Mixing(id, time, x, 1, n);
            var m2, m3 := Mixing(id, time, x, 2, n), Mixing(id, time, x, 3, n);
            && XorByte(s, Mixed(id, time, x, 1, n)) == XorByte(s, m0)
            && XorByte(s, Mixed(id, time, x, 2, n)) == XorByte(XorByte(s, m0), m1)
            && XorByte(s, Mixed(id, time, x, 3, n)) == XorByte(XorByte(XorByte(s, m0), m1), m2)
            && XorByte(s, Mixed(id, time, x, 4, n)) == XorByte(XorByte(XorByte(XorByte(s, m0), m1), m2), m3)
  {
    hide XorByte, Mixing;
    var m0, m1 := Mixing(id, time, x, 0, n), Mixing(id, time, x, 1, n);
    var m2, m3 := Mixing(id, time, x, 2, n), Mixing(id, time, x, 3, n);
    XorUnit(m0);
    assert Mixed(id, time, x, 0, n) == 0;
    assert Mixed(id, time, x, 1, n) == XorByte(0, m0) == m0;
    assert Mixed(id, time, x, 2, n) == XorByte(m0, m1);
    assert Mixed(id, time, x, 3, n) == XorByte(XorByte(m0, m1), m2);
    assert Mixed(id, time, x, 4, n) == XorByte(XorByte(XorByte(m0, m1), m2), m3);
    XorAssoc(s, m0, m1);
    XorAssoc(s, XorByte(m0, m1), m2);
    XorAssoc(s, XorByte(XorByte(m0, m1), m2), m3);
  }

  /** At four rounds every byte of the time is mixed in once, so that only their XOR is left. */
  lemma FourRounds(sequence: u16, dst: u64, time: u32, n: nat)
    requires n < 16
    requires var t := Put32(time); XorByte(XorByte(XorByte(t[0], t[1]), t[2]), t[3]) % 4 == 3
    ensures var t, id := Put32(time), Put64(dst);
            var x := XorByte(XorByte(XorByte(t[0], t[1]), t[2]), t[3]);
            var pair := XorByte(id[(x + n) % 8], id[(x + 1 + n) % 8]);
            var ids := XorByte(XorByte(pair, id[(x + 2 + n) % 8]), id[(x + 3 + n) % 8]);
            RandomKey(sequence, dst, time)[n] == XorByte(KeySeed(sequence, dst, time)[n], XorByte(ids, x))
  {
    hide XorByte, Put64, Put32, KeySeed, RandomKey;
    KeyByte(sequence, dst, time, n);
    var t, id := Put32(time), Put64(dst);
    var x := XorByte(XorByte(XorByte(t[0], t[1]), t[2]), t[3]);
    var a0, a1, a2, a3 := id[(x + n) % 8], id[(x + 1 + n) % 8], id[(x + 2 + n) % 8], id[(x + 3 + n) % 8];
    var b0, b1, b2, b3 := t[n % 4], t[(1 + n) % 4], t[(2 + n) % 4], t[(3 + n) % 4];
    Regroup(KeySeed(sequence, dst, time)[n], a0, a1, a2, a3, b0, b1, b2, b3);
    Rotated(t, n);
  }

  /** XOR of four pairs, taken apart. */
  lemma Regroup(s: byte, a0: byte, a1: byte, a2: byte, a3: byte, b0: byte, b1: byte, b2: byte, b3: byte)
    ensures XorByte(XorByte(XorByte(XorByte(s, XorByte(a0, b0)), XorByte(a1, b1)), XorByte(a2, b2)), XorByte(a3, b3))
         == XorByte(s, XorByte(XorByte(XorByte(XorByte(a0, a1), a2), a3), XorByte(XorByte(XorByte(b0, b1), b2), b3)))
  {
    hide XorByte;
    var a01, b01 := XorByte(a0, a1), XorByte(b0, b1);
    var a02, b02 := XorByte(a01, a2), XorByte(b01, b2);
    XorSwap(a0, b0, a1, b1);
    XorSwap(a01, b01, a2, b2);
    XorSwap(a02, b02, a3, b3);
    XorAssoc(s, XorByte(a0, b0), XorByte(a1, b1));
    XorAssoc(s, XorByte(a01, b01), XorByte(a2, b2));
    XorAssoc(s, XorByte(a02, b02), XorByte(a3, b3));
  }

  lemma Rotated(t: seq<byte>, n: nat)
    requires |t| == 4
    ensures XorByte(XorByte(XorByte(t[n % 4], t[(1 + n) % 4]), t[(2 + n) % 4]), t[(3 + n) % 4])
         == XorByte(XorByte(XorByte(t[0], t[1]), t[2]), t[3])
  {
    hide XorByte;
    Turn(t[0], t[1], t[2], t[3]);
    Turn(t[1], t[2], t[3], t[0]);
    Turn(t[2], t[3], t[0], t[1]);
  }

  lemma Turn(a: byte, b: byte, c: byte, d: byte)
    ensures XorByte(XorByte(XorByte(b, c), d), a) == XorByte(XorByte(XorByte(a, b), c), d)
  {
    hide XorByte;
    XorComm(XorByte(XorByte(b, c), d), a);
    XorAssoc(a, XorByte(b, c), d);
    XorAssoc(a, b, c);
  }

  function One(on: bool): byte {
    if on then 1 else 0
  }

  lemma XorOnes(p: bool, q: bool)
    ensures XorByte(One(p), One(q)) == One(p != q)
  {
    hide XorByte;
    XorUnit(0);
    XorUnit(1);
  }

  /** Sequence 1, id 1, time 1. */
  lemma KeyOfOnes()
    ensures RandomKey(1, 1, 1) == [0, 0, 0, 1, 0, 0, 1, 0, 1, 0, 0, 1, 0, 0, 0, 0]
  {
    hide RandomKey;
    OnesByte(0); OnesByte(1); OnesByte(2); OnesByte(3);
    OnesByte(4); OnesByte(5); OnesByte(6); OnesByte(7);
    OnesByte(8); OnesByte(9); OnesByte(10); OnesByte(11);
    OnesByte(12); OnesByte(13); OnesByte(14); OnesByte(15);
  }

  lemma OnesByte(n: nat)
    requires n < 16
    ensures var first, second := ((1 + n) % 8 == 0) != (n % 4 == 0), ((2 + n) % 8 == 0) != ((1 + n) % 4 == 0);
            RandomKey(1, 1, 1)[n] == One(((n == 0 || n == 4 || n == 12 || n == 14) != first) != second)
  {
    hide XorByte, KeySeed, RandomKey, Put32, Put64, One;
    var a, b, c, d := (1 + n) % 8 == 0, n % 4 == 0, (2 + n) % 8 == 0, (1 + n) % 4 == 0;
    var e := n == 0 || n == 4 || n == 12 || n == 14;
    KeyByte(1, 1, 1, n);
    OnesBytes(n, (1 + n) % 8, n % 4);
    OnesBytes(n, (2 + n) % 8, (1 + n) % 4);
    OnesXor();
    XorOnes(a, b);
    XorOnes(c, d);
    XorOnes(e, a != b);
    XorOnes(e != (a != b), c != d);
  }

  lemma OnesXor()
    ensures var t := Put32(1); XorByte(XorByte(XorByte(t[0], t[1]), t[2]), t[3]) == 1
  {
    hide XorByte, Put32;
    PutBytes(1, 1);
    XorUnit(1);
  }

  lemma OnesBytes(n: nat, j: nat, k: nat)
    requires n < 16 && j < 8 && k < 4
    ensures KeySeed(1, 1, 1)[n] == One(n == 0 || n == 4 || n == 12 || n == 14)
    ensures Put64(1)[j] == One(j == 0) && Put32(1)[k] == One(k == 0)
  {
    hide Little;
    SeedBytes(1, 1, 1, n);
    LittleAt(1, 8, j);
    LittleAt(1, 4, k);
    OneShifted(n);
    OneShifted(if n >= 4 then n - 4 else 0);
    OneShifted(j);
    OneShifted(k);
  }

  lemma {:induction false} OneShifted(k: nat)
    ensures ShiftRight(0, k) == 0 && ShiftRight(1, k) == if k == 0 then 1 else 0
  {
    if k > 0 { OneShifted(k - 1); }
  }

  lemma XorUnits(s: seq<byte>)
    ensures forall n :: 0 <= n < |s| ==> XorByte(s[n], 0) == s[n]
  {
    hide XorByte;
    forall n | 0 <= n < |s|
      ensures XorByte(s[n], 0) == s[n]
    {
      XorUnit(s[n]);
    }
  }

  /** Between the same pair at the same time, every sequence number has its own key. */
  lemma KeysDifferBySequence(q: u16, r: u16, dst: u64, time: u32)
    requires RandomKey(q, dst, time) == RandomKey(r, dst, time)
    ensures q == r
  {
    hide XorByte, Put64, Put32, Put16, Get16, Mixed, Rounds;
    var t, id := Put32(time), Put64(dst);
    forall n | n == 12 || n == 13
      ensures KeySeed(q, dst, time)[n] == KeySeed(r, dst, time)[n]
    {
      var mixed := Mixed(id, t, TimeXor(t), Rounds(TimeXor(t)), n);
      assert RandomKey(q, dst, time)[n] == RandomKey(r, dst, time)[n];
      XorSelf(KeySeed(q, dst, time)[n], mixed);
      XorSelf(KeySeed(r, dst, time)[n], mixed);
    }
    assert KeySeed(q, dst, time)[12] == Put16(q)[0] && KeySeed(q, dst, time)[13] == Put16(q)[1];
    assert KeySeed(r, dst, time)[12] == Put16(r)[0] && KeySeed(r, dst, time)[13] == Put16(r)[1];
    assert Put16(q) == Put16(r);
    Get16OfPut(q);
    Get16OfPut(r);
  }

  /** The key of level 3: the derived key XOR the first 16 bytes of the shared secret. */
  function SecretKey(a: seq<byte>, mz: seq<byte>): (key: seq<byte>)
    requires |a| == 16 && |mz| >= 16
    ensures |key| == 16 && forall n :: 0 <= n < 16 ==> key[n] == XorByte(a[n], mz[n])
  {
    Xor(a, mz[..16])
  }
}
