/** GF(2^8) with bytes as elements: the extension of GF(2^4) by a root of y^2 + y + x^3. It satisfies the laws with
    sizes of two bytes, so that what is proved of bytes on the wire is not vacuous either. */
module Gf256 {
  import opened GaloisField
  import opened Gf16
  import opened Extension
  import PacketFormat

  type Byte = PacketFormat.Byte

  const GAMMA := Nibble(false, false, false, true)

  function Unpack(n: Byte): Pair<Nibble> {
    Pair(OfNat(n % 16), OfNat(n / 16))
  }

  function Pack(p: Pair<Nibble>): Byte {
    ToNat(p.lo) + 16 * ToNat(p.hi)
  }

  function Add(a: Byte, b: Byte): Byte {
    Pack(Plus(FIELD, Unpack(a), Unpack(b)))
  }

  function Multiply(a: Byte, b: Byte): Byte {
    Pack(Product(FIELD, GAMMA, Unpack(a), Unpack(b)))
  }

  function Invert(a: Byte): Byte {
    Pack(Inverse(FIELD, GAMMA, Unpack(a)))
  }

  function LowByte(n: nat): Byte {
    n % 256
  }

  function EncodeBytes(n: nat): seq<Byte> {
    [n / 256 % 256, n % 256]
  }

  function DecodeBytes(v: seq<Byte>): nat {
    if |v| == 2 then 256 * (v[0] as int) + v[1] else 0
  }

  const BYTES: Field<Byte> :=
    Field(8, 0, 1, Add, Multiply, Invert, LowByte, 2, 65535, EncodeBytes, DecodeBytes)

  // ----- no root

  /** Squaring keeps the trace, which is the coefficient of x^3. */
  lemma SquareTrace(t: Nibble)
    ensures Mul(t, t).b3 == t.b3
  {
    var u := Nibble(t.b0, t.b1, false, false);
    var v := Nibble(false, false, t.b2, t.b3);
    assert t == Xor(u, v);
    SquareXor(u, v);
    SquareLow(t.b0, t.b1);
    SquareHigh(t.b2, t.b3);
    hide Mul;
  }

  lemma SquareXor(u: Nibble, v: Nibble)
    ensures Mul(Xor(u, v), Xor(u, v)) == Xor(Mul(u, u), Mul(v, v))
  {
    var w := Xor(u, v);
    Distributes(w, u, v);
    Commutes(w, u);
    Commutes(w, v);
    Distributes(u, u, v);
    Distributes(v, u, v);
    Commutes(u, v);
    hide Mul;
  }

  lemma SquareLow(b0: bool, b1: bool)
    ensures !Mul(Nibble(b0, b1, false, false), Nibble(b0, b1, false, false)).b3
  {
    SquareXor(Nibble(b0, false, false, false), Nibble(false, b1, false, false));
    var x := Nibble(false, true, false, false);
    assert Mul(ONE, ONE) == ONE && Mul(x, x) == XTime(x);
  }

  lemma SquareHigh(b2: bool, b3: bool)
    ensures Mul(Nibble(false, false, b2, b3), Nibble(false, false, b2, b3)).b3 == b3
  {
    SquareXor(Nibble(false, false, b2, false), Nibble(false, false, false, b3));
    var x2, x3 := Nibble(false, false, true, false), Nibble(false, false, false, true);
    assert Times(x2, 1) == XTime(x2) && Times(x3, 1) == XTime(x3);
    assert Times(x3, 2) == XTime(XTime(x3));
    assert Mul(x2, x2) == XTime(XTime(x2)) && Mul(x3, x3) == XTime(XTime(XTime(x3)));
  }

  /** t^2 + t has trace zero, and x^3 has not. */
  lemma Irreducible()
    ensures NoRoot(FIELD, GAMMA)
  {
    forall t: Nibble
      ensures Value(FIELD, GAMMA, t) != FIELD.zero
    {
      hide Mul;
      SquareTrace(t);
      Distributes(t, t, ONE);
      Commutes(t, ONE);
      OneIsUnit(t);
    }
  }

  // ----- elements as bytes

  lemma PackUnpack(n: Byte)
    ensures Pack(Unpack(n)) == n
  {
    hide OfNat, ToNat;
    NibbleRoundTrip(n % 16);
    NibbleRoundTrip(n / 16);
  }

  lemma UnpackPack(p: Pair<Nibble>)
    ensures Unpack(Pack(p)) == p
  {
    hide OfNat;
    NatRoundTrip(p.lo);
    NatRoundTrip(p.hi);
  }

  lemma NatRoundTrip(a: Nibble)
    ensures OfNat(ToNat(a)) == a
  {
  }

  lemma UnpackConstants()
    ensures Unpack(0) == Pair(FIELD.zero, FIELD.zero) && Unpack(1) == Pair(FIELD.one, FIELD.zero)
  {
  }

  // ----- the laws

  lemma AddLaws(a: Byte, b: Byte, c: Byte)
    requires FIELD.Laws()
    ensures Add(a, b) == Add(b, a) && Add(Add(a, b), c) == Add(a, Add(b, c))
    ensures Add(0, a) == a && Add(a, a) == 0
  {
    var p, q, r := Unpack(a), Unpack(b), Unpack(c);
    PackUnpack(a);
    PackUnpack(0);
    UnpackConstants();
    UnpackPack(Plus(FIELD, p, q));
    UnpackPack(Plus(FIELD, q, r));
    hide Unpack, Pack, Plus;
    PlusLaws(FIELD, p, q, r);
  }

  lemma ProductLaws(a: Byte, b: Byte, c: Byte)
    requires FIELD.Laws()
    ensures Multiply(a, b) == Multiply(b, a) && Multiply(Multiply(a, b), c) == Multiply(a, Multiply(b, c))
  {
    var p, q, r := Unpack(a), Unpack(b), Unpack(c);
    UnpackPack(Product(FIELD, GAMMA, p, q));
    UnpackPack(Product(FIELD, GAMMA, q, r));
    hide Unpack, Pack, Product;
    ProductCommutes(FIELD, GAMMA, p, q);
    ProductAssociates(FIELD, GAMMA, p, q, r);
  }

  lemma SumLaws(a: Byte, b: Byte, c: Byte)
    requires FIELD.Laws()
    ensures Multiply(a, Add(b, c)) == Add(Multiply(a, b), Multiply(a, c))
  {
    var p, q, r := Unpack(a), Unpack(b), Unpack(c);
    var s := Plus(FIELD, q, r);
    UnpackPack(s);
    UnpackPack(Product(FIELD, GAMMA, p, q));
    UnpackPack(Product(FIELD, GAMMA, p, r));
    hide Unpack, Pack, Product, Plus;
    ProductCommutes(FIELD, GAMMA, p, q);
    ProductCommutes(FIELD, GAMMA, p, r);
    ProductCommutes(FIELD, GAMMA, p, s);
    ProductPlus(FIELD, GAMMA, q, r, p);
  }

  lemma UnitLaws(a: Byte)
    requires FIELD.Laws() && NoRoot(FIELD, GAMMA)
    ensures Multiply(1, a) == a && (a != 0 ==> Multiply(Invert(a), a) == 1)
  {
    var p := Unpack(a);
    PackUnpack(a);
    PackUnpack(0);
    PackUnpack(1);
    UnpackConstants();
    UnpackPack(Inverse(FIELD, GAMMA, p));
    hide Unpack, Pack, Product, Inverse, NoRoot;
    ProductOne(FIELD, GAMMA, p);
    ProductCommutes(FIELD, GAMMA, p, Unpack(1));
    if a != 0 {
      InverseInverts(FIELD, GAMMA, p);
    }
  }

  /** Bytes are a field with sizes of two bytes. */
  lemma IsField()
    ensures BYTES.Laws()
  {
    Gf16.IsField();
    Irreducible();
    forall a: Byte, b: Byte, c: Byte
      ensures BYTES.LawsAt(a, b, c)
    {
      AddLaws(a, b, c);
      ProductLaws(a, b, c);
      UnitLaws(a);
      SumLaws(a, b, c);
      hide Add, Multiply, Invert;
    }
    forall n: nat
      ensures BYTES.SizeAt(n)
    {
    }
    forall n: nat, m: nat
      ensures BYTES.DistinctAt(n, m)
    {
    }
  }
}
