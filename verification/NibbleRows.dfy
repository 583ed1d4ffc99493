/** Some coefficients in GF(2^4), and which of their rows are dependent. */
module NibbleRows {
  import opened LinearAlgebra
  import opened ChosenCoefficients
  import opened Dependence
  import opened Gf16

  // ----- products

  lemma DotOfNibbles(x: Nibble, y: Nibble, z: Nibble, u: Nibble, v: Nibble, w: Nibble)
    requires FIELD.Laws()
    ensures Dot(FIELD, [x, y, z], [u, v, w]) == Xor(Bits(x, u), Xor(Bits(y, v), Bits(z, w)))
  {
    DotOfThree(FIELD, x, y, z, [u, v, w]);
    MulBits(x, u);
    MulBits(y, v);
    MulBits(z, w);
    hide Mul, Dot, Bits;
  }

  // ----- the elements, as bits

  const E0 := Nibble(false, false, false, false)
  const E1 := Nibble(true, false, false, false)
  const E2 := Nibble(false, true, false, false)
  const E3 := Nibble(true, true, false, false)
  const E4 := Nibble(false, false, true, false)
  const E5 := Nibble(true, false, true, false)
  const E6 := Nibble(false, true, true, false)
  const E7 := Nibble(true, true, true, false)
  const E8 := Nibble(false, false, false, true)
  const E9 := Nibble(true, false, false, true)
  const E10 := Nibble(false, true, false, true)
  const E11 := Nibble(true, true, false, true)
  const E12 := Nibble(false, false, true, true)
  const E13 := Nibble(true, false, true, true)
  const E14 := Nibble(false, true, true, true)
  const E15 := Nibble(true, true, true, true)

  lemma ElementsAre()
    ensures OfNat(0) == E0
    ensures OfNat(1) == E1
    ensures OfNat(2) == E2
    ensures OfNat(3) == E3
    ensures OfNat(4) == E4
    ensures OfNat(5) == E5
    ensures OfNat(6) == E6
    ensures OfNat(7) == E7
    ensures OfNat(8) == E8
    ensures OfNat(9) == E9
    ensures OfNat(10) == E10
    ensures OfNat(11) == E11
    ensures OfNat(12) == E12
    ensures OfNat(13) == E13
    ensures OfNat(14) == E14
    ensures OfNat(15) == E15
  {
  }

  /** A coefficient with small identifiers. */
  lemma SmallCoefficient(r: nat, s: nat, n: nat)
    requires r < 40 && s < 40 && n == (r + s + 2) * (r + 1) % 15 + 1
    ensures FIELD.Coefficient(r, s) == OfNat(n)
  {
    assert (r + s + 2) * (r + 1) <= 80 * (r + 1);
    SmallCoefficientIs(FIELD, r, s);
    hide OfNat, FIELD.CoefficientIndex;
  }

  // ----- an independent repair is given up

  ghost function Row(k: nat): seq<Nibble> {
    [FIELD.Coefficient(k, 0), FIELD.Coefficient(k, 1), FIELD.Coefficient(k, 2)]
  }

  lemma RowIs(k: nat, x: nat, y: nat, z: nat)
    requires k < 40 && x == (k + 2) * (k + 1) % 15 + 1 && y == (k + 3) * (k + 1) % 15 + 1
    requires z == (k + 4) * (k + 1) % 15 + 1
    ensures Row(k) == [OfNat(x), OfNat(y), OfNat(z)]
  {
    SmallCoefficient(k, 0, x);
    SmallCoefficient(k, 1, y);
    SmallCoefficient(k, 2, z);
    hide OfNat, FIELD.Coefficient;
  }

  lemma Rows()
    ensures Row(0) == [E3, E4, E5] && Row(15) == Row(0)
    ensures Row(16) == [E7, E9, E11]
  {
    hide *;
    ElementsAre();
    RowIs(0, 3, 4, 5);
    RowIs(15, 3, 4, 5);
    RowIs(16, 7, 9, 11);
  }

  lemma FirstSum()
    ensures Xor(Bits(E3, E4), Xor(Bits(E4, E3), Bits(E5, E0))) == ZERO
  {
  }

  lemma ThirdSum()
    ensures Xor(Bits(E7, E4), Xor(Bits(E9, E3), Bits(E11, E0))) != ZERO
  {
  }

  /** What the first two rows send to zero and the third does not. */
  lemma Separated()
    requires FIELD.Laws()
    ensures var v := [E4, E3, E0];
            && |Row(0)| == |Row(15)| == |Row(16)| == 3
            && Dot(FIELD, Row(0), v) == ZERO && Dot(FIELD, Row(15), v) == ZERO && Dot(FIELD, Row(16), v) != ZERO
  {
    hide *;
    Rows();
    RowsAreWide();
    DotOfNibbles(E3, E4, E5, E4, E3, E0);
    DotOfNibbles(E7, E9, E11, E4, E3, E0);
    FirstSum();
    ThirdSum();
  }

  lemma ThirdIsIndependent()
    requires FIELD.Laws()
    ensures |Row(0)| == |Row(15)| == |Row(16)| == 3 && !Combines(FIELD, [Row(0), Row(15)], Row(16))
  {
    Separated();
    var a, v := [Row(0), Row(15)], [E4, E3, E0];
    hide Row, Combines, Dot;
    RowsAreWide();
    assert InKernel(FIELD, a, v);
    CombinesExactly(FIELD, a, Row(16));
  }

  lemma RowsAreWide()
    ensures |Row(0)| == |Row(15)| == |Row(16)| == 3
  {
  }

  lemma FirstTwoAreDependent()
    requires FIELD.Laws()
    ensures |Row(0)| == |Row(15)| == 3 && Dependent(FIELD, [Row(0), Row(15)], 3)
  {
    Rows();
    var a, w := [Row(0), Row(15)], [ONE, ONE];
    hide Row;
    assert w[0] != FIELD.zero;
    forall c | 0 <= c < 3
      ensures Dot(FIELD, w, Col(a, c)) == ZERO
    {
      DotOfTwo(FIELD, ONE, ONE, Col(a, c));
      FIELD.Law(FIELD.mul(ONE, a[0][c]), ZERO, ZERO);
    }
    assert RowTimes(FIELD, w, a, 3) == FIELD.Zeros(3);
  }

  // ----- three rows that are independent

  ghost function Delayed(): Matrix<Nibble> {
    [[E9, E11, E13], [E1, E4, E7], [E0, E14, E3]]
  }

  ghost function Undone(): Matrix<Nibble> {
    [[E0, E1, E12], [E4, E2, E5], [E10, E5, E15]]
  }

  function Sum(x: Nibble, u: Nibble, y: Nibble, v: Nibble, z: Nibble, w: Nibble): Nibble {
    Xor(Bits(x, u), Xor(Bits(y, v), Bits(z, w)))
  }

  lemma UndoneRowOne()
    ensures Sum(E0, E9, E1, E1, E12, E0) == ONE
    ensures Sum(E0, E11, E1, E4, E12, E14) == ZERO
    ensures Sum(E0, E13, E1, E7, E12, E3) == ZERO
  {
  }

  lemma UndoneRowTwo()
    ensures Sum(E4, E9, E2, E1, E5, E0) == ZERO
    ensures Sum(E4, E11, E2, E4, E5, E14) == ONE
    ensures Sum(E4, E13, E2, E7, E5, E3) == ZERO
  {
  }

  lemma UndoneRowThree()
    ensures Sum(E10, E9, E5, E1, E15, E0) == ZERO
    ensures Sum(E10, E11, E5, E4, E15, E14) == ZERO
    ensures Sum(E10, E13, E5, E7, E15, E3) == ONE
  {
  }

  lemma UndoneAt(r: nat, c: nat)
    requires FIELD.Laws() && r < 3 && c < 3
    ensures |Delayed()| == |Undone()| == 3 && |Undone()[r]| == 3 && forall k | 0 <= k < 3 :: |Delayed()[k]| == 3
    ensures Dot(FIELD, Undone()[r], Col(Delayed(), c)) == Delta(FIELD, r, c)
  {
    var l, a := Undone(), Delayed();
    UndoneRowOne();
    UndoneRowTwo();
    UndoneRowThree();
    assert Col(a, c) == [a[0][c], a[1][c], a[2][c]];
    DotOfNibbles(l[r][0], l[r][1], l[r][2], a[0][c], a[1][c], a[2][c]);
    assert l[r] == [l[r][0], l[r][1], l[r][2]];
    hide Dot, Bits, Xor;
  }

  lemma DelayedIsRegular()
    requires FIELD.Laws()
    ensures !Singular(FIELD, Delayed())
  {
    UndoneAt(0, 0);
    forall r, c | 0 <= r < 3 && 0 <= c < 3
      ensures Dot(FIELD, Undone()[r], Col(Delayed(), c)) == Delta(FIELD, r, c)
    {
      UndoneAt(r, c);
    }
    hide Dot, Singular;
    assert LeftInverse(FIELD, Undone(), Delayed());
    if Singular(FIELD, Delayed()) {
      SingularHasNoLeftInverse(FIELD, Undone(), Delayed());
    }
  }
}
