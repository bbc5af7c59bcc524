/** Bytes, fixed-width integers in little-endian order, bits, and XOR.

    A byte is a number below 256 and a fixed-width integer is a number below its modulus. Shifts and
    masks of the gateway's code are written as divisions and remainders by powers of two, and XOR is
    defined bit by bit. */
module Bytes {

  type byte = b: int | 0 <= b < 256
  type u16 = n: int | 0 <= n < 0x1_0000
  type u32 = n: int | 0 <= n < 0x1_0000_0000
  type u64 = n: int | 0 <= n < 0x1_0000_0000_0000_0000

  datatype Option<+T> = None | Some(value: T)

  datatype Result<+T, +E> = Ok(value: T) | Err(error: E)

  // ----- conversions that drop the higher bits -----

  function ToByte(n: nat): (b: byte)
    ensures n < 256 ==> b == n
  {
    n % 256
  }

  function Truncate16(n: nat): (r: u16)
    ensures n < 0x1_0000 ==> r == n
  {
    n % 0x1_0000
  }

  // ----- bits -----

  type Bits8 = s: seq<bool> | |s| == 8 witness [false, false, false, false, false, false, false, false]

  /** The number written in binary by bits, highest first. */
  function Number(bits: seq<bool>): nat {
    if |bits| == 0 then 0
    else 2 * Number(bits[..|bits| - 1]) + if bits[|bits| - 1] then 1 else 0
  }

  /** The lowest width bits of n, highest first. */
  function Binary(n: nat, width: nat): (bits: seq<bool>)
    ensures |bits| == width
  {
    if width == 0 then [] else Binary(n / 2, width - 1) + [n % 2 == 1]
  }

  function Power2(n: nat): (p: nat)
    ensures p > 0
  {
    if n == 0 then 1 else 2 * Power2(n - 1)
  }

  lemma {:induction false} NumberOfBinary(n: nat, width: nat)
    requires n < Power2(width)
    ensures Number(Binary(n, width)) == n
  {
    if width == 0 {
    } else {
      NumberOfBinary(n / 2, width - 1);
      assert Binary(n, width)[..width - 1] == Binary(n / 2, width - 1);
    }
  }

  lemma {:induction false} BinaryOfNumber(bits: seq<bool>)
    ensures Number(bits) < Power2(|bits|)
    ensures Binary(Number(bits), |bits|) == bits
    decreases |bits|
  {
    if |bits| == 0 {
    } else {
      BinaryOfNumber(bits[..|bits| - 1]);
      assert bits == bits[..|bits| - 1] + [bits[|bits| - 1]];
    }
  }

  function BitsOf(b: byte): Bits8 {
    Binary(b, 8)
  }

  function OfBits(bits: Bits8): byte {
    BinaryOfNumber(bits);
    assert Power2(8) == 256;
    Number(bits)
  }

  lemma BitsOfOfBits(bits: Bits8)
    ensures BitsOf(OfBits(bits)) == bits
  {
    BinaryOfNumber(bits);
  }

  lemma OfBitsOfBitsOf(b: byte)
    ensures OfBits(BitsOf(b)) == b
  {
    assert Power2(8) == 256;
    NumberOfBinary(b, 8);
  }

  lemma BitsInjective(a: byte, b: byte)
    requires BitsOf(a) == BitsOf(b)
    ensures a == b
  {
    hide BitsOf, OfBits;
    OfBitsOfBitsOf(a);
    OfBitsOfBitsOf(b);
  }

  // ----- XOR -----

  function XorBits(p: seq<bool>, q: seq<bool>): (r: seq<bool>)
    requires |p| == |q|
    ensures |r| == |p|
  {
    seq(|p|, i requires 0 <= i < |p| => p[i] != q[i])
  }

  function XorByte(a: byte, b: byte): byte {
    OfBits(XorBits(BitsOf(a), BitsOf(b)))
  }

  lemma BitsOfXor(a: byte, b: byte)
    ensures BitsOf(XorByte(a, b)) == XorBits(BitsOf(a), BitsOf(b))
  {
    hide BitsOf, OfBits;
    BitsOfOfBits(XorBits(BitsOf(a), BitsOf(b)));
  }

  lemma ZeroBits()
    ensures forall i :: 0 <= i < 8 ==> !BitsOf(0)[i]
  {
    NoBits(8);
  }

  lemma {:induction false} NoBits(width: nat)
    ensures forall i :: 0 <= i < width ==> !Binary(0, width)[i]
  {
    if width == 0 {
    } else {
      NoBits(width - 1);
    }
  }

  lemma XorComm(a: byte, b: byte)
    ensures XorByte(a, b) == XorByte(b, a)
  {
    hide BitsOf, OfBits;
    assert XorBits(BitsOf(a), BitsOf(b)) == XorBits(BitsOf(b), BitsOf(a));
  }

  lemma XorAssoc(a: byte, b: byte, c: byte)
    ensures XorByte(XorByte(a, b), c) == XorByte(a, XorByte(b, c))
  {
    hide BitsOf, OfBits;
    BitsOfXor(a, b);
    BitsOfXor(b, c);
    assert XorBits(XorBits(BitsOf(a), BitsOf(b)), BitsOf(c)) == XorBits(BitsOf(a), XorBits(BitsOf(b), BitsOf(c)));
  }

  lemma XorUnit(a: byte)
    ensures XorByte(a, 0) == a == XorByte(0, a) && XorByte(a, a) == 0
  {
    hide BitsOf, OfBits;
    ZeroBits();
    OfBitsOfBitsOf(a);
    OfBitsOfBitsOf(0);
    assert XorBits(BitsOf(a), BitsOf(0)) == BitsOf(a) == XorBits(BitsOf(0), BitsOf(a));
    assert XorBits(BitsOf(a), BitsOf(a)) == BitsOf(0);
  }

  lemma XorSelf(a: byte, k: byte)
    ensures XorByte(XorByte(a, k), k) == a
  {
    hide XorByte;
    XorAssoc(a, k, k);
    XorUnit(k);
    XorUnit(a);
  }

  lemma XorZero(a: byte, b: byte)
    ensures XorByte(a, b) == 0 <==> a == b
  {
    hide XorByte;
    XorSelf(a, b);
    XorUnit(b);
  }

  lemma XorInjective(a: byte, b: byte, c: byte)
    ensures XorByte(a, c) == XorByte(b, c) <==> a == b
    ensures XorByte(c, a) == XorByte(c, b) <==> a == b
  {
    hide XorByte;
    XorSelf(a, c);
    XorSelf(b, c);
    XorComm(a, c);
    XorComm(b, c);
  }

  lemma XorSwap(a: byte, b: byte, c: byte, d: byte)
    ensures XorByte(XorByte(a, b), XorByte(c, d)) == XorByte(XorByte(a, c), XorByte(b, d))
  {
    hide XorByte;
    XorAssoc(a, b, XorByte(c, d));
    XorAssoc(b, c, d);
    XorComm(b, c);
    XorAssoc(c, b, d);
    XorAssoc(a, c, XorByte(b, d));
  }

  // ----- integers in little-endian order -----

  function Little(n: nat, width: nat): (s: seq<byte>)
    ensures |s| == width
  {
    if width == 0 then [] else [n % 256] + Little(n / 256, width - 1)
  }

  function Value(s: seq<byte>): nat {
    if |s| == 0 then 0 else s[0] + 256 * Value(s[1..])
  }

  function Power256(n: nat): (p: nat)
    ensures p > 0
  {
    if n == 0 then 1 else 256 * Power256(n - 1)
  }

  lemma {:induction false} ValueOfLittle(n: nat, width: nat)
    requires n < Power256(width)
    ensures Value(Little(n, width)) == n
  {
    if width == 0 {
    } else {
      ValueOfLittle(n / 256, width - 1);
      assert Little(n, width)[1..] == Little(n / 256, width - 1);
    }
  }

  lemma {:induction false} LittleOfValue(s: seq<byte>)
    ensures Value(s) < Power256(|s|)
    ensures Little(Value(s), |s|) == s
  {
    if |s| == 0 {
    } else {
      hide Value;
      LittleOfValue(s[1..]);
      ValueStep(s);
      LowByte(s[0], Value(s[1..]));
      assert s == [s[0]] + s[1..];
    }
  }

  /** n >> (8 * k). */
  function ShiftRight(n: nat, k: nat): nat {
    if k == 0 then n else ShiftRight(n / 256, k - 1)
  }

  lemma {:induction false} LittleAt(n: nat, width: nat, i: nat)
    requires i < width
    ensures Little(n, width)[i] == ShiftRight(n, i) % 256
  {
    if i > 0 { LittleAt(n / 256, width - 1, i - 1); }
  }

  lemma LowByte(b: byte, n: nat)
    ensures (b as int + 256 * n) % 256 == b && (b as int + 256 * n) / 256 == n
  {
  }

  function Put16(n: u16): (s: seq<byte>) ensures |s| == 2 { Little(n, 2) }
  function Put32(n: u32): (s: seq<byte>) ensures |s| == 4 { Little(n, 4) }
  function Put64(n: u64): (s: seq<byte>) ensures |s| == 8 { Little(n, 8) }

  function Get16(s: seq<byte>): u16
    requires |s| == 2
  {
    LittleOfValue(s);
    assert Power256(2) == 0x1_0000;
    Value(s)
  }

  function Get32(s: seq<byte>): u32
    requires |s| == 4
  {
    LittleOfValue(s);
    assert Power256(4) == 0x1_0000_0000;
    Value(s)
  }

  function Get64(s: seq<byte>): u64
    requires |s| == 8
  {
    LittleOfValue(s);
    assert Power256(8) == 0x1_0000_0000_0000_0000;
    Value(s)
  }

  /** Little-endian order, byte by byte. */
  lemma PutBytes(m: u16, n: u32)
    ensures Put16(m) == [m % 256, m / 256]
    ensures Put32(n) == [n % 256, n / 256 % 256, n / 256 / 256 % 256, n / 256 / 256 / 256]
  {
    LittleAt(m, 2, 0);
    LittleAt(m, 2, 1);
    LittleAt(n, 4, 0);
    LittleAt(n, 4, 1);
    LittleAt(n, 4, 2);
    LittleAt(n, 4, 3);
    assert ShiftRight(m, 1) == m / 256 && ShiftRight(n, 1) == n / 256;
    assert ShiftRight(n, 2) == ShiftRight(n / 256, 1) && ShiftRight(n, 3) == ShiftRight(n / 256, 2);
    assert ShiftRight(n / 256, 2) == ShiftRight(n / 256 / 256, 1);
  }

  lemma GetBytes(a: seq<byte>, b: seq<byte>)
    requires |a| == 2 && |b| == 4
    ensures Get16(a) == a[0] as int + 256 * a[1] as int
    ensures Get32(b) == b[0] as int + 256 * (b[1] as int + 256 * (b[2] as int + 256 * b[3] as int))
  {
    hide Value;
    ValueOfNone();
    ValueStep(a);
    ValueStep(a[1..]);
    ValueStep(b);
    ValueStep(b[1..]);
    ValueStep(b[2..]);
    ValueStep(b[3..]);
    assert a[1..][1..] == [] && b[1..][1..] == b[2..] && b[2..][1..] == b[3..] && b[3..][1..] == [];
  }

  lemma ValueStep(s: seq<byte>)
    requires |s| > 0
    ensures Value(s) == s[0] as int + 256 * Value(s[1..])
  {
  }

  lemma ValueOfNone()
    ensures Value([]) == 0
  {
  }

  lemma Get64Byte(s: seq<byte>, k: nat)
    requires |s| == 8 && k < 8
    ensures ShiftRight(Get64(s), k) % 256 == s[k]
  {
    hide Little, Value;
    LittleOfValue(s);
    LittleAt(Value(s), 8, k);
  }

  lemma Get16OfPut(n: u16)
    ensures Get16(Put16(n)) == n
  {
    assert Power256(2) == 0x1_0000;
    ValueOfLittle(n, 2);
  }

  lemma Get32OfPut(n: u32)
    ensures Get32(Put32(n)) == n
  {
    assert Power256(4) == 0x1_0000_0000;
    ValueOfLittle(n, 4);
  }

  lemma Get64OfPut(n: u64)
    ensures Get64(Put64(n)) == n
  {
    assert Power256(8) == 0x1_0000_0000_0000_0000;
    ValueOfLittle(n, 8);
  }

  lemma Put16OfGet(s: seq<byte>)
    requires |s| == 2
    ensures Put16(Get16(s)) == s
  {
    LittleOfValue(s);
  }

  lemma Put32OfGet(s: seq<byte>)
    requires |s| == 4
    ensures Put32(Get32(s)) == s
  {
    LittleOfValue(s);
  }

  // ----- byte strings -----

  function Zeros(n: nat): (s: seq<byte>)
    ensures |s| == n
  {
    seq(n, _ => 0)
  }

  function Xor(a: seq<byte>, b: seq<byte>): (s: seq<byte>)
    requires |a| == |b|
    ensures |s| == |a|
  {
    seq(|a|, i requires 0 <= i < |a| => XorByte(a[i], b[i]))
  }

  /** The two strings agree everywhere except, possibly, at position i. */
  ghost predicate AgreeExcept(a: seq<byte>, b: seq<byte>, i: int) {
    |a| == |b| && forall k :: 0 <= k < |a| && k != i ==> a[k] == b[k]
  }
}
