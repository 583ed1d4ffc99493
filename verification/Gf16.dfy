/** GF(2^4) with the polynomial x^4 + x + 1: a concrete field that satisfies the laws, so that what is
    proved from them is not vacuous. */
module Gf16 {
  import opened GaloisField

  /** An element: the bit `bi` is the coefficient of x^i. */
  datatype Nibble = Nibble(b0: bool, b1: bool, b2: bool, b3: bool)

  const ZERO := Nibble(false, false, false, false)
  const ONE := Nibble(true, false, false, false)

  function Xor(a: Nibble, b: Nibble): Nibble {
    Nibble(a.b0 != b.b0, a.b1 != b.b1, a.b2 != b.b2, a.b3 != b.b3)
  }

  /** Multiplication by x. */
  function XTime(a: Nibble): Nibble {
    Nibble(a.b3, a.b0 != a.b3, a.b1, a.b2)
  }

  /** Multiplication by x^k. */
  function Times(a: Nibble, k: nat): Nibble {
    if k == 0 then a else XTime(Times(a, k - 1))
  }

  /** The exponent of a nonzero element as a power of x. */
  function Log(a: Nibble): nat {
    match a
    case Nibble(_, false, false, false) => 0
    case Nibble(false, true, false, false) => 1
    case Nibble(false, false, true, false) => 2
    case Nibble(false, false, false, true) => 3
    case Nibble(true, true, false, false) => 4
    case Nibble(false, true, true, false) => 5
    case Nibble(false, false, true, true) => 6
    case Nibble(true, true, false, true) => 7
    case Nibble(true, false, true, false) => 8
    case Nibble(false, true, false, true) => 9
    case Nibble(true, true, true, false) => 10
    case Nibble(false, true, true, true) => 11
    case Nibble(true, true, true, true) => 12
    case Nibble(true, false, true, true) => 13
    case Nibble(true, false, false, true) => 14
  }

  function Mul(a: Nibble, b: Nibble): Nibble {
    if b == ZERO then ZERO else Times(a, Log(b))
  }

  function Inv(a: Nibble): Nibble {
    Times(ONE, if Log(a) <= 15 then 15 - Log(a) else 0)
  }

  function OfNat(n: nat): Nibble {
    Nibble(n % 2 == 1, n / 2 % 2 == 1, n / 4 % 2 == 1, n / 8 % 2 == 1)
  }

  function ToNat(a: Nibble): nat {
    (if a.b0 then 1 else 0) + (if a.b1 then 2 else 0) + (if a.b2 then 4 else 0) + (if a.b3 then 8 else 0)
  }

  function EncodeSize(n: nat): seq<Nibble> {
    [OfNat(n % 16), OfNat(n / 16 % 16), OfNat(n / 256 % 16), OfNat(n / 4096 % 16)]
  }

  function DecodeSize(v: seq<Nibble>): nat {
    if |v| != 4 then 0
    else ToNat(v[0]) + 16 * ToNat(v[1]) + 256 * ToNat(v[2]) + 4096 * ToNat(v[3])
  }

  const FIELD: Field<Nibble> :=
    Field(4, ZERO, ONE, Xor, Mul, Inv, OfNat, 4, 65535, EncodeSize, DecodeSize)

  lemma TimesXor(a: Nibble, b: Nibble, k: nat)
    ensures Times(Xor(a, b), k) == Xor(Times(a, k), Times(b, k))
  {
  }

  lemma {:induction k} TimesZero(k: nat)
    ensures Times(ZERO, k) == ZERO
  {
  }

  lemma {:induction false} TimesTimes(a: Nibble, j: nat, k: nat)
    ensures Times(Times(a, j), k) == Times(a, j + k)
  {
    hide XTime;
    if k > 0 {
      TimesTimes(a, j, k - 1);
    }
  }

  /** x generates the multiplicative group. */
  lemma LogExp(a: Nibble)
    requires a != ZERO
    ensures Log(a) < 15 && Times(ONE, Log(a)) == a
  {
    var x3 := Times(ONE, 3);
    var x6 := Times(x3, 3);
    var x9 := Times(x6, 3);
    var x12 := Times(x9, 3);
    assert x3 == Nibble(false, false, false, true);
    assert x6 == Nibble(false, false, true, true);
    assert x9 == Nibble(false, true, false, true);
    assert x12 == Nibble(true, true, true, true);
    TimesTimes(ONE, 3, 3);
    TimesTimes(ONE, 6, 3);
    TimesTimes(ONE, 9, 3);
    var k := Log(a);
    if k < 3 {
    } else if k < 6 {
      TimesTimes(ONE, 3, k - 3);
    } else if k < 9 {
      TimesTimes(ONE, 6, k - 6);
    } else if k < 12 {
      TimesTimes(ONE, 9, k - 9);
    } else {
      TimesTimes(ONE, 12, k - 12);
    }
  }

  lemma TimesNonZero(a: Nibble, k: nat)
    requires a != ZERO
    ensures Times(a, k) != ZERO
  {
  }

  lemma Commutes(a: Nibble, b: Nibble)
    ensures Mul(a, b) == Mul(b, a)
  {
    if a == ZERO {
      TimesZero(Log(b));
    } else if b == ZERO {
      TimesZero(Log(a));
    } else {
      LogExp(a);
      LogExp(b);
      TimesTimes(ONE, Log(a), Log(b));
      TimesTimes(ONE, Log(b), Log(a));
    }
  }

  lemma Associates(a: Nibble, b: Nibble, c: Nibble)
    ensures Mul(Mul(a, b), c) == Mul(a, Mul(b, c))
  {
    if b == ZERO {
      TimesZero(Log(c));
    } else if c != ZERO {
      var d := Mul(b, c);
      TimesNonZero(b, Log(c));
      if a == ZERO {
        TimesZero(Log(b));
        TimesZero(Log(c));
        TimesZero(Log(d));
      } else {
        Commutes(a, d);
        Commutes(a, b);
        TimesTimes(b, Log(a), Log(c));
        TimesTimes(b, Log(c), Log(a));
      }
    }
  }

  lemma Inverts(a: Nibble)
    requires a != ZERO
    ensures Mul(Inv(a), a) == ONE
  {
    LogExp(a);
    TimesTimes(ONE, 15 - Log(a), Log(a));
    TimesTimes(ONE, 12, 3);
    LogExp(Nibble(true, true, true, true));
    assert Times(Nibble(true, true, true, true), 3) == ONE;
  }

  lemma NibbleRoundTrip(n: nat)
    requires n < 16
    ensures ToNat(OfNat(n)) == n
  {
  }

  lemma Digits(n: nat)
    requires n <= 65535
    ensures n == n % 16 + 16 * (n / 16 % 16) + 256 * (n / 256 % 16) + 4096 * (n / 4096 % 16)
  {
    assert n / 256 == n / 16 / 16 && n / 4096 == n / 256 / 16;
  }

  lemma SizeRoundTrip(n: nat)
    requires n <= 65535
    ensures |EncodeSize(n)| == 4 && DecodeSize(EncodeSize(n)) == n
  {
    Digits(n);
    var v := EncodeSize(n);
    assert ToNat(v[0]) == n % 16 by { NibbleRoundTrip(n % 16); }
    assert ToNat(v[1]) == n / 16 % 16 by { NibbleRoundTrip(n / 16 % 16); }
    assert ToNat(v[2]) == n / 256 % 16 by { NibbleRoundTrip(n / 256 % 16); }
    assert ToNat(v[3]) == n / 4096 % 16 by { NibbleRoundTrip(n / 4096 % 16); }
  }

  lemma Distributes(a: Nibble, b: Nibble, c: Nibble)
    ensures Mul(a, Xor(b, c)) == Xor(Mul(a, b), Mul(a, c))
  {
    Commutes(a, Xor(b, c));
    Commutes(a, b);
    Commutes(a, c);
    TimesXor(b, c, Log(a));
  }

  /** The product, bit by bit of the second factor. */
  function Bits(a: Nibble, b: Nibble): Nibble {
    var x1, x2, x3 := XTime(a), XTime(XTime(a)), XTime(XTime(XTime(a)));
    Xor(Xor(if b.b0 then a else ZERO, if b.b1 then x1 else ZERO),
        Xor(if b.b2 then x2 else ZERO, if b.b3 then x3 else ZERO))
  }

  lemma OneBit(a: Nibble, b0: bool, b1: bool, b2: bool, b3: bool)
    ensures Mul(a, Nibble(b0, false, false, false)) == Bits(a, Nibble(b0, false, false, false))
    ensures Mul(a, Nibble(false, b1, false, false)) == Bits(a, Nibble(false, b1, false, false))
    ensures Mul(a, Nibble(false, false, b2, false)) == Bits(a, Nibble(false, false, b2, false))
    ensures Mul(a, Nibble(false, false, false, b3)) == Bits(a, Nibble(false, false, false, b3))
  {
    assert Times(a, 1) == XTime(a) && Times(a, 2) == XTime(XTime(a)) && Times(a, 3) == XTime(XTime(XTime(a)));
  }

  lemma MulBits(a: Nibble, b: Nibble)
    ensures Mul(a, b) == Bits(a, b)
  {
    var p0, p1 := Nibble(b.b0, false, false, false), Nibble(false, b.b1, false, false);
    var p2, p3 := Nibble(false, false, b.b2, false), Nibble(false, false, false, b.b3);
    OneBit(a, b.b0, b.b1, b.b2, b.b3);
    Distributes(a, p0, p1);
    Distributes(a, p2, p3);
    Distributes(a, Xor(p0, p1), Xor(p2, p3));
    assert Xor(Xor(p0, p1), Xor(p2, p3)) == b;
    hide Mul;
  }

  lemma XorLaws(a: Nibble, b: Nibble, c: Nibble)
    ensures Xor(a, b) == Xor(b, a) && Xor(Xor(a, b), c) == Xor(a, Xor(b, c))
    ensures Xor(ZERO, a) == a && Xor(a, a) == ZERO
  {
  }

  lemma OneIsUnit(a: Nibble)
    ensures Mul(ONE, a) == a
  {
    if a != ZERO {
      LogExp(a);
    }
  }

  /** The laws are satisfiable: GF(2^4) is a field of characteristic 2 with a lossless size encoding. */
  lemma IsField()
    ensures FIELD.Laws()
  {
    forall a: Nibble, b: Nibble, c: Nibble
      ensures FIELD.LawsAt(a, b, c)
    {
      XorLaws(a, b, c);
      Commutes(a, b);
      Associates(a, b, c);
      OneIsUnit(a);
      Distributes(a, b, c);
      if a != ZERO {
        Inverts(a);
      }
    }
    forall n: nat
      ensures FIELD.SizeAt(n)
    {
      if n <= 65535 {
        SizeRoundTrip(n);
      }
    }
    forall n: nat, m: nat
      ensures FIELD.DistinctAt(n, m)
    {
      if n < m < 16 {
        NibbleRoundTrip(n);
        NibbleRoundTrip(m);
      }
    }
  }
}
