/** What the checksum means: remainders of polynomials over GF(2), and bursts of bit errors.

    A polynomial is the sequence of its coefficients, highest power first. */
module CrcAlgebra {
  import opened Bytes
  import opened Crc

  type Poly = seq<bool>

  function Bits(m: seq<byte>): (p: Poly)
    ensures |p| == 8 * |m|
    decreases |m|
  {
    if |m| == 0 then [] else Bits(m[..|m| - 1]) + BitsOf(m[|m| - 1])
  }

  function Zero(n: nat): (p: Poly)
    ensures |p| == n
  {
    seq(n, _ => false)
  }

  predicate At(p: Poly, i: int) {
    0 <= i < |p| && p[i]
  }

  /** Coefficient i of the product of q with the generator x^8 + x^5 + x^4 + 1. */
  predicate TimesGenerator(q: Poly, i: int) {
    (At(q, i) != At(q, i - 3)) != (At(q, i - 4) != At(q, i - 8))
  }

  /** p(x) * x^8 == q(x) * g(x) + r(x), with deg r < 8, coefficient by coefficient. */
  ghost predicate Divides(p: Poly, q: Poly, r: Poly) {
    && |q| == |p|
    && |r| == 8
    && forall i :: 0 <= i < |p| + 8 ==> At(p, i) == (TimesGenerator(q, i) != At(r, i - |p|))
  }

  /** r is a remainder of p(x) * x^8 by the generator. */
  ghost predicate IsRemainder(p: Poly, r: Poly) {
    exists q: Poly :: Divides(p, q, r)
  }

  lemma AtConcat(p: Poly, q: Poly, i: int)
    ensures At(p + q, i) == (At(p, i) != At(q, i - |p|))
  {}

  lemma TimesGeneratorConcat(p: Poly, q: Poly, i: int)
    ensures TimesGenerator(p + q, i) == (TimesGenerator(p, i) != TimesGenerator(q, i - |p|))
  {
    AtConcat(p, q, i);
    AtConcat(p, q, i - 3);
    AtConcat(p, q, i - 4);
    AtConcat(p, q, i - 8);
  }

  // ----- one byte -----

  lemma GeneratorBits()
    ensures BitsOf(0x31) == [false, false, true, true, false, false, false, true]
  {
    assert Binary(0x31, 4) == [false, false, false, true];
    assert Binary(0x31, 2) == [false, true];
    assert Binary(3, 2) == [true, true];
    assert Binary(3, 4) == [false, false, true, true];
  }

  /** One turn of division: the top coefficient times the generator, plus the shifted rest. */
  lemma ShiftCoefficient(c: byte, j: int)
    ensures At(BitsOf(c), j) == (TimesGenerator([TopBit(c)], j) != At(BitsOf(Shift(c)), j - 1))
  {
    hide BitsOf, XorByte, TopBit, Double;
    DoubleBits(c);
    GeneratorBits();
    BitsOfXor(Double(c), 0x31);
    TopBitIsFirst(c);
    assert At(BitsOf(Double(c)), j - 1) == (j != 0 && At(BitsOf(c), j));
    assert At(BitsOf(0x31), j - 1) == (j == 3 || j == 4 || j == 8);
    if 1 <= j <= 8 {
      assert At(XorBits(BitsOf(Double(c)), BitsOf(0x31)), j - 1)
          == (At(BitsOf(Double(c)), j - 1) != At(BitsOf(0x31), j - 1));
    }
  }

  /** The bits shifted out in the first n turns. */
  function ShiftedOut(v: byte, n: nat): (q: Poly)
    ensures |q| == n
  {
    if n == 0 then [] else ShiftedOut(v, n - 1) + [TopBit(Shifts(v, n - 1))]
  }

  lemma {:induction false} PartialDivision(v: byte, n: nat, i: int)
    ensures At(BitsOf(v), i) == (TimesGenerator(ShiftedOut(v, n), i) != At(BitsOf(Shifts(v, n)), i - n))
  {
    hide BitsOf, Shift, TopBit;
    if n == 0 {
    } else {
      var c := Shifts(v, n - 1);
      PartialDivision(v, n - 1, i);
      ShiftCoefficient(c, i - (n - 1));
      TimesGeneratorConcat(ShiftedOut(v, n - 1), [TopBit(c)], i);
    }
  }

  lemma ByteDivision(v: byte)
    ensures Divides(BitsOf(v), ShiftedOut(v, 8), BitsOf(Reduce(v)))
  {
    hide BitsOf, Reduce, ShiftedOut, Shifts;
    ReduceIsEightShifts(v);
    forall i | 0 <= i < 16
      ensures At(BitsOf(v), i) == (TimesGenerator(ShiftedOut(v, 8), i) != At(BitsOf(Reduce(v)), i - 8))
    {
      PartialDivision(v, 8, i);
    }
  }

  // ----- whole messages -----

  function MessageQuotient(m: seq<byte>): (q: Poly)
    ensures |q| == 8 * |m|
    decreases |m|
  {
    if |m| == 0 then [] else
    var k := |m| - 1;
    MessageQuotient(m[..k]) + ShiftedOut(XorByte(Crc8(m[..k]), m[k]), 8)
  }

  /** Appending eight coefficients: the old remainder moves up by x^8 and meets the new ones. */
  lemma DividesExtend(p: Poly, q: Poly, r: Poly, b: Poly, v: Poly, d: Poly, s: Poly)
    requires Divides(p, q, r)
    requires |b| == |v| == 8 && forall i :: 0 <= i < 8 ==> v[i] == (r[i] != b[i])
    requires Divides(v, d, s)
    ensures Divides(p + b, q + d, s)
  {
    var n := |p|;
    forall i | 0 <= i < n + 16
      ensures At(p + b, i) == (TimesGenerator(q + d, i) != At(s, i - (n + 8)))
    {
      AtConcat(p, b, i);
      TimesGeneratorConcat(q, d, i);
      if n <= i {
        assert At(v, i - n) == (TimesGenerator(d, i - n) != At(s, i - n - 8));
        assert At(v, i - n) == (At(r, i - n) != At(b, i - n));
      }
    }
  }

  lemma {:induction false} CrcDivides(m: seq<byte>)
    ensures Divides(Bits(m), MessageQuotient(m), BitsOf(Crc8(m)))
    decreases |m|
  {
    hide BitsOf, Reduce, ShiftedOut, XorByte;
    if |m| == 0 {
      ZeroBits();
    } else {
      var k := |m| - 1;
      var c, v := Crc8(m[..k]), XorByte(Crc8(m[..k]), m[k]);
      CrcDivides(m[..k]);
      ByteDivision(v);
      BitsOfXor(c, m[k]);
      DividesExtend(Bits(m[..k]), MessageQuotient(m[..k]), BitsOf(c), BitsOf(m[k]),
                    BitsOf(v), ShiftedOut(v, 8), BitsOf(Reduce(v)));
    }
  }

  /** Two divisions of the same polynomial have the same quotient and the same remainder. */
  lemma DivisionUnique(p: Poly, q: Poly, r: Poly, q': Poly, r': Poly)
    requires Divides(p, q, r) && Divides(p, q', r')
    ensures q == q' && r == r'
  {
    QuotientUnique(p, q, r, q', r', |p|);
    assert q == q';
    forall i | 0 <= i < 8
      ensures r[i] == r'[i]
    {
      assert At(p, |p| + i) == (TimesGenerator(q, |p| + i) != At(r, i));
      assert At(p, |p| + i) == (TimesGenerator(q', |p| + i) != At(r', i));
    }
  }

  lemma {:induction false} QuotientUnique(p: Poly, q: Poly, r: Poly, q': Poly, r': Poly, n: nat)
    requires Divides(p, q, r) && Divides(p, q', r') && n <= |p|
    ensures q[..n] == q'[..n]
  {
    if n == 0 {
    } else {
      var i := n - 1;
      QuotientUnique(p, q, r, q', r', i);
      assert forall j :: j < i ==> At(q, j) == At(q', j) by {
        assert forall j :: 0 <= j < i ==> q[..i][j] == q'[..i][j];
      }
      assert At(p, i) == TimesGenerator(q, i) == TimesGenerator(q', i);
      assert q[..n] == q[..i] + [q[i]] && q'[..n] == q'[..i] + [q'[i]];
    }
  }

  /** The checksum of m is the one and only remainder of m(x) * x^8 by the generator. */
  lemma CrcIsRemainder(m: seq<byte>, r: Poly)
    ensures IsRemainder(Bits(m), r) <==> r == BitsOf(Crc8(m))
  {
    CrcDivides(m);
    if IsRemainder(Bits(m), r) {
      var q :| Divides(Bits(m), q, r);
      DivisionUnique(Bits(m), MessageQuotient(m), BitsOf(Crc8(m)), q, r);
    }
  }

  // ----- bursts -----

  /** The two strings differ, and only within the 8 bits from bit k on. */
  ghost predicate DifferInBurst(a: seq<byte>, b: seq<byte>, k: nat) {
    && |a| == |b|
    && a != b
    && forall i :: 0 <= i < 8 * |a| && !(k <= i < k + 8) ==> Bits(a)[i] == Bits(b)[i]
  }

  lemma {:induction false} MessageBitsOfXor(a: seq<byte>, b: seq<byte>, i: nat)
    requires |a| == |b| && i < 8 * |a|
    ensures Bits(Xor(a, b))[i] == (Bits(a)[i] != Bits(b)[i])
    decreases |a|
  {
    hide BitsOf, XorByte;
    var k := |a| - 1;
    assert Xor(a, b)[..k] == Xor(a[..k], b[..k]);
    if i < 8 * k {
      MessageBitsOfXor(a[..k], b[..k], i);
    } else {
      BitsOfXor(a[k], b[k]);
    }
  }

  lemma {:induction false} MessageBitsInjective(a: seq<byte>, b: seq<byte>)
    requires Bits(a) == Bits(b)
    ensures a == b
    decreases |a|
  {
    hide BitsOf, OfBits;
    if |a| == 0 {
    } else {
      var k := |a| - 1;
      assert Bits(a)[..8 * k] == Bits(a[..k]) && Bits(b)[..8 * k] == Bits(b[..k]);
      assert Bits(a)[8 * k..] == BitsOf(a[k]) && Bits(b)[8 * k..] == BitsOf(b[k]);
      MessageBitsInjective(a[..k], b[..k]);
      OfBitsOfBitsOf(a[k]);
      OfBitsOfBitsOf(b[k]);
      assert a == a[..k] + [a[k]] && b == b[..k] + [b[k]];
    }
  }

  /** A nonzero multiple of the generator spans at least nine coefficients. */
  lemma MultipleSpan(p: Poly, q: Poly, k: nat)
    requires Divides(p, q, Zero(8))
    requires forall i :: 0 <= i < |p| && !(k <= i < k + 8) ==> !p[i]
    ensures forall i :: 0 <= i < |p| ==> !p[i]
  {
    if i :| 0 <= i < |q| && q[i] {
      var first, last := Ends(p, q, i);
      assert false;
    }
    forall i | 0 <= i < |p|
      ensures !p[i]
    {
      assert At(p, i) == (TimesGenerator(q, i) != At(Zero(8), i - |p|));
    }
  }

  /** The highest and the lowest coefficient of a nonzero multiple are at least 8 apart. */
  lemma Ends(p: Poly, q: Poly, i: nat) returns (first: nat, last: nat)
    requires Divides(p, q, Zero(8)) && i < |q| && q[i]
    ensures first <= last && At(p, first) && At(p, last + 8)
  {
    first := FirstTrue(q, i);
    last := LastTrue(q, i);
    assert TimesGenerator(q, first);
    assert TimesGenerator(q, last + 8);
  }

  lemma {:induction false} FirstTrue(q: Poly, i: nat) returns (f: nat)
    requires i < |q| && q[i]
    ensures f <= i && q[f] && forall j :: 0 <= j < f ==> !q[j]
    decreases i
  {
    if j :| 0 <= j < i && q[j] {
      f := FirstTrue(q, j);
    } else {
      f := i;
    }
  }

  lemma {:induction false} LastTrue(q: Poly, i: nat) returns (l: nat)
    requires i < |q| && q[i]
    ensures i <= l < |q| && q[l] && forall j :: l < j < |q| ==> !q[j]
    decreases |q| - i
  {
    if j :| i < j < |q| && q[j] {
      l := LastTrue(q, j);
    } else {
      l := i;
    }
  }

  /** Every nonempty burst of at most eight consecutive bit errors changes the checksum. */
  lemma CrcDetectsBurst(a: seq<byte>, b: seq<byte>, k: nat)
    requires DifferInBurst(a, b, k)
    ensures Crc8(a) != Crc8(b)
  {
    hide BitsOf, XorByte, Reduce, Divides;
    if Crc8(a) == Crc8(b) {
      var d := Xor(a, b);
      CrcLinear(a, b);
      XorUnit(Crc8(a));
      CrcDivides(d);
      ZeroBits();
      assert BitsOf(0) == Zero(8) by {
        assert forall i :: 0 <= i < 8 ==> At(BitsOf(0), i) == BitsOf(0)[i];
      }
      forall i | 0 <= i < 8 * |a|
        ensures Bits(d)[i] == (Bits(a)[i] != Bits(b)[i])
      {
        MessageBitsOfXor(a, b, i);
      }
      MultipleSpan(Bits(d), MessageQuotient(d), k);
      assert Bits(a) == Bits(b);
      MessageBitsInjective(a, b);
    }
  }
}
