/** The one-byte checksum of src/octopus/common/common.go and its algebra.

    `Crc8` is the register after a whole message. Its meaning is stated by the polynomial results:
    read a byte string as a polynomial over GF(2), highest coefficient first; `Crc8(m)` is the
    unique remainder of m(x) * x^8 modulo x^8 + x^5 + x^4 + 1. */
module Crc {
  import opened Bytes

  predicate TopBit(c: byte) {
    c >= 0x80
  }

  /** c << 1 in eight bits. */
  function Double(c: byte): byte {
    2 * c % 256
  }

  /** One turn of the inner loop: shift out the top bit, and reduce when it was set. */
  function Shift(c: byte): byte {
    if TopBit(c) then XorByte(Double(c), 0x31) else Double(c)
  }

  function Shifts(c: byte, n: nat): byte {
    if n == 0 then c else Shift(Shifts(c, n - 1))
  }

  /** Eight turns of the inner loop. */
  function Reduce(c: byte): byte {
    Shift(Shift(Shift(Shift(Shift(Shift(Shift(Shift(c))))))))
  }

  lemma ReduceIsEightShifts(c: byte)
    ensures Shifts(c, 8) == Reduce(c)
  {
    hide Shift;
    assert Shifts(c, 1) == Shift(c);
    assert Shifts(c, 2) == Shift(Shifts(c, 1));
    assert Shifts(c, 3) == Shift(Shifts(c, 2));
    assert Shifts(c, 4) == Shift(Shifts(c, 3));
    assert Shifts(c, 5) == Shift(Shifts(c, 4));
    assert Shifts(c, 6) == Shift(Shifts(c, 5));
    assert Shifts(c, 7) == Shift(Shifts(c, 6));
  }

  function Update(c: byte, m: seq<byte>): byte
    decreases |m|
  {
    if |m| == 0 then c else Reduce(XorByte(Update(c, m[..|m| - 1]), m[|m| - 1]))
  }

  function Crc8(m: seq<byte>): byte {
    Update(0, m)
  }

  method Crc(msg: seq<byte>, n: nat) returns (headerCheck: byte)
    requires n <= |msg|
    ensures headerCheck == Crc8(msg[..n])
  {
    hide Reduce, XorByte;
    headerCheck := 0;
    for i := 0 to n
      invariant headerCheck == Crc8(msg[..i])
    {
      headerCheck := XorByte(headerCheck, msg[i]);
      ghost var start := headerCheck;
      for done := 0 to 8
        invariant headerCheck == Shifts(start, done)
      {
        if headerCheck >= 0x80 {
          headerCheck := XorByte(2 * headerCheck % 256, 0x31);
        } else {
          headerCheck := 2 * headerCheck % 256;
        }
      }
      ReduceIsEightShifts(start);
      assert msg[..i + 1][..i] == msg[..i];
    }
  }

  // ----- the register as a linear bijection -----

  lemma {:induction false} TopBinary(n: nat, width: nat)
    requires width > 0 && n < Power2(width)
    ensures Binary(n, width)[0] <==> n >= Power2(width - 1)
  {
    if width > 1 {
      TopBinary(n / 2, width - 1);
    } else {
      assert Binary(n, 1) == Binary(n / 2, 0) + [n % 2 == 1];
    }
  }

  lemma {:induction false} DropTopBit(n: nat, width: nat)
    ensures Binary(n, width + 1)[1..] == Binary(n, width)
  {
    if width > 0 {
      DropTopBit(n / 2, width - 1);
      assert Binary(n, width + 1) == Binary(n / 2, width) + [n % 2 == 1];
    }
  }

  lemma {:induction false} BinaryModulo(n: nat, width: nat)
    ensures Binary(n + Power2(width), width) == Binary(n, width)
  {
    if width > 0 {
      BinaryModulo(n / 2, width - 1);
      assert (n + Power2(width)) / 2 == n / 2 + Power2(width - 1);
    }
  }

  lemma TopBitIsFirst(c: byte)
    ensures BitsOf(c)[0] == TopBit(c)
  {
    assert Power2(8) == 256 && Power2(7) == 128;
    TopBinary(c, 8);
  }

  lemma BinaryStep(n: nat, width: nat)
    ensures Binary(n, width + 1) == Binary(n / 2, width) + [n % 2 == 1]
  {}

  lemma DoubleBits(c: byte)
    ensures BitsOf(Double(c)) == BitsOf(c)[1..] + [false]
  {
    hide Binary;
    assert Power2(8) == 256;
    DropTopBit(c, 7);
    BinaryStep(2 * c, 7);
    if c >= 128 {
      BinaryModulo(2 * c - 256, 8);
    }
  }

  lemma TopBitOfXor(a: byte, b: byte)
    ensures TopBit(XorByte(a, b)) == (TopBit(a) != TopBit(b))
  {
    hide BitsOf, TopBit, XorByte;
    TopBitIsFirst(a);
    TopBitIsFirst(b);
    TopBitIsFirst(XorByte(a, b));
    BitsOfXor(a, b);
  }

  lemma DoubleOfXor(a: byte, b: byte)
    ensures Double(XorByte(a, b)) == XorByte(Double(a), Double(b))
  {
    hide BitsOf, XorByte, Double;
    DoubleBits(a);
    DoubleBits(b);
    DoubleBits(XorByte(a, b));
    BitsOfXor(a, b);
    BitsOfXor(Double(a), Double(b));
    assert BitsOf(Double(XorByte(a, b))) == BitsOf(XorByte(Double(a), Double(b)));
    BitsInjective(Double(XorByte(a, b)), XorByte(Double(a), Double(b)));
  }

  lemma ShiftLinear(a: byte, b: byte)
    ensures Shift(XorByte(a, b)) == XorByte(Shift(a), Shift(b))
  {
    hide XorByte, TopBit, Double;
    TopBitOfXor(a, b);
    DoubleOfXor(a, b);
    var x, y, g := Double(a), Double(b), 0x31;
    XorAssoc(x, y, g);
    XorAssoc(x, g, y);
    XorComm(g, y);
    XorSwap(x, g, y, g);
    XorUnit(g);
    XorUnit(XorByte(x, y));
  }

  lemma ShiftZero(c: byte)
    ensures Shift(c) == 0 <==> c == 0
  {
    hide XorByte;
    XorZero(Double(c), 0x31);
  }

  lemma ReduceLinear(a: byte, b: byte)
    ensures Reduce(XorByte(a, b)) == XorByte(Reduce(a), Reduce(b))
  {
    hide Shift, XorByte;
    var a1, b1 := Shift(a), Shift(b);
    var a2, b2 := Shift(a1), Shift(b1);
    var a3, b3 := Shift(a2), Shift(b2);
    var a4, b4 := Shift(a3), Shift(b3);
    var a5, b5 := Shift(a4), Shift(b4);
    var a6, b6 := Shift(a5), Shift(b5);
    var a7, b7 := Shift(a6), Shift(b6);
    ShiftLinear(a, b);
    ShiftLinear(a1, b1);
    ShiftLinear(a2, b2);
    ShiftLinear(a3, b3);
    ShiftLinear(a4, b4);
    ShiftLinear(a5, b5);
    ShiftLinear(a6, b6);
    ShiftLinear(a7, b7);
  }

  lemma ReduceZero(c: byte)
    ensures Reduce(c) == 0 <==> c == 0
  {
    hide Shift;
    var c1 := Shift(c);
    var c2 := Shift(c1);
    var c3 := Shift(c2);
    var c4 := Shift(c3);
    var c5 := Shift(c4);
    var c6 := Shift(c5);
    ShiftZero(c);
    ShiftZero(c1);
    ShiftZero(c2);
    ShiftZero(c3);
    ShiftZero(c4);
    ShiftZero(c5);
    ShiftZero(c6);
    ShiftZero(Shift(c6));
  }

  /** Different registers reduce to different registers. */
  lemma ReduceInjective(a: byte, b: byte)
    ensures Reduce(a) == Reduce(b) <==> a == b
  {
    hide XorByte, Reduce;
    XorZero(a, b);
    ReduceLinear(a, b);
    ReduceZero(XorByte(a, b));
    XorZero(Reduce(a), Reduce(b));
  }

  /** XOR-linearity, with the starting registers as a further pair of operands. */
  lemma {:induction false} UpdateLinear(a: byte, b: byte, m: seq<byte>, n: seq<byte>)
    requires |m| == |n|
    ensures Update(XorByte(a, b), Xor(m, n)) == XorByte(Update(a, m), Update(b, n))
    decreases |m|
  {
    hide XorByte, Reduce;
    if |m| == 0 {
    } else {
      var k := |m| - 1;
      assert Xor(m, n)[..k] == Xor(m[..k], n[..k]);
      UpdateLinear(a, b, m[..k], n[..k]);
      var u, v := Update(a, m[..k]), Update(b, n[..k]);
      XorSwap(u, v, m[k], n[k]);
      ReduceLinear(XorByte(u, m[k]), XorByte(v, n[k]));
    }
  }

  lemma {:induction false} UpdateConcat(c: byte, m: seq<byte>, n: seq<byte>)
    ensures Update(c, m + n) == Update(Update(c, m), n)
    decreases |n|
  {
    hide XorByte, Reduce;
    if |n| == 0 {
      assert m + n == m;
    } else {
      var k := |n| - 1;
      assert (m + n)[..|m + n| - 1] == m + n[..k];
      UpdateConcat(c, m, n[..k]);
    }
  }

  /** Whatever is fed in afterwards, two different registers stay different. */
  lemma {:induction false} UpdateInjective(a: byte, b: byte, m: seq<byte>)
    ensures Update(a, m) == Update(b, m) <==> a == b
    decreases |m|
  {
    hide XorByte, Reduce;
    if |m| == 0 {
    } else {
      var k := |m| - 1;
      UpdateInjective(a, b, m[..k]);
      var u, v := Update(a, m[..k]), Update(b, m[..k]);
      XorInjective(u, v, m[k]);
      ReduceInjective(XorByte(u, m[k]), XorByte(v, m[k]));
    }
  }

  lemma CrcLinear(m: seq<byte>, n: seq<byte>)
    requires |m| == |n|
    ensures Crc8(Xor(m, n)) == XorByte(Crc8(m), Crc8(n))
  {
    XorUnit(0);
    UpdateLinear(0, 0, m, n);
  }

  /** A message followed by its own checksum byte has checksum 0, and no other byte does that. */
  lemma CrcResidue(m: seq<byte>, c: byte)
    ensures Crc8(m + [c]) == 0 <==> c == Crc8(m)
  {
    hide XorByte, Reduce;
    assert (m + [c])[..|m|] == m;
    ReduceZero(XorByte(Crc8(m), c));
    XorZero(Crc8(m), c);
  }

  lemma {:induction false} CrcOfZeros(n: nat)
    ensures Crc8(Zeros(n)) == 0
  {
    hide XorByte, Reduce;
    if n > 0 {
      assert Zeros(n)[..n - 1] == Zeros(n - 1);
      CrcOfZeros(n - 1);
      XorUnit(0);
      ReduceZero(0);
    }
  }

  /** What was already in the checksum buffer d is harmless exactly when its own checksum is 0. */
  lemma CrcPrefix(d: seq<byte>, m: seq<byte>)
    ensures Crc8(d + m) == Crc8(m) <==> Crc8(d) == 0
  {
    hide XorByte, Reduce;
    UpdateConcat(0, d, m);
    UpdateInjective(Crc8(d), 0, m);
  }

  lemma CrcSingleByte(a: seq<byte>, b: seq<byte>, i: nat)
    requires i < |a| && AgreeExcept(a, b, i) && a[i] != b[i]
    ensures Crc8(a) != Crc8(b)
  {
    hide XorByte, Reduce;
    var c, rest := Crc8(a[..i]), a[i + 1..];
    SplitAt(a, i);
    SplitAt(b, i);
    assert a[..i] == b[..i] && rest == b[i + 1..];
    XorInjective(a[i], b[i], c);
    ReduceInjective(XorByte(c, a[i]), XorByte(c, b[i]));
    UpdateInjective(Reduce(XorByte(c, a[i])), Reduce(XorByte(c, b[i])), rest);
  }

  lemma SplitAt(a: seq<byte>, i: nat)
    requires i < |a|
    ensures Crc8(a) == Update(Reduce(XorByte(Crc8(a[..i]), a[i])), a[i + 1..])
  {
    hide XorByte, Reduce;
    assert a == a[..i + 1] + a[i + 1..];
    assert a[..i + 1][..i] == a[..i];
    UpdateConcat(0, a[..i + 1], a[i + 1..]);
  }
}
