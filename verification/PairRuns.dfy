/** Two sources are lost and two repairs of them arrive: both are rebuilt exactly when the coefficients of the repairs
    determine them. */
module PairRuns {
  import opened Wrappers
  import opened GaloisField
  import opened LinearAlgebra
  import opened ChosenCoefficients
  import opened Gf16
  import Extension
  import Bytes = Gf256
  import opened Ids
  import opened Symbols
  import opened DecoderModel
  import opened EncoderModel
  import opened Delivery
  import opened DecoderInvariant
  import opened DecoderSteps
  import opened Processing
  import opened AnyOrder
  import opened Shapes
  import opened Progress
  import opened Overtaking

  ghost function Two(k: nat, l: nat, a: nat, b: nat): Shape {
    Shape(map[k := {a, b}, l := {a, b}], {a, b}, {}, Some(a))
  }

  lemma TwoIs(k: nat, l: nat, a: nat, b: nat)
    requires a < b && k < l
    ensures About(One(k, a, b), {a, b}, 1) && One(k, a, b).repairs.Keys == {k} && One(k, a, b).last == Some(a)
    ensures Two(k, l, a, b) == Shape(One(k, a, b).repairs[l := {a, b}], {a, b}, {}, Some(a))
    ensures Two(k, l, a, b).repairs.Keys == {k, l} && Two(k, l, a, b).missing == {a, b}
  {
    assert One(k, a, b).repairs.Keys == {k} && |{k}| == 1;
  }

  lemma TwoShape(k: nat, l: nat, a: nat, b: nat)
    requires a < b && k < l
    ensures MeetsRepair(One(k, a, b), l, {a, b}, Two(k, l, a, b))
  {
    hide *;
    OneShape(k, a, b);
    TwoIs(k, l, a, b);
    Pair(a, b);
    AboutMeets(One(k, a, b), l, {a, b}, 1, Two(k, l, a, b));
  }

  lemma TwoRows<E(!new)>(f: Field<E>, k: nat, l: nat, a: nat, b: nat)
    requires a < b && k < l
    ensures k in Two(k, l, a, b).repairs && l in Two(k, l, a, b).repairs
    ensures MatrixOf(f, Two(k, l, a, b), [k, l], [a, b]) == PairMatrix(f, k, l, a, b)
  {
    hide f.Coefficient;
    var m := MatrixOf(f, Two(k, l, a, b), [k, l], [a, b]);
    assert m[0] == [f.Coefficient(k, a), f.Coefficient(k, b)];
    assert m[1] == [f.Coefficient(l, a), f.Coefficient(l, b)];
  }

  lemma TwoMatrix<E(!new)>(f: Field<E>, e: State<E>, k: nat, l: nat, a: nat, b: nat)
    requires a < b && k < l && Has(e, Two(k, l, a, b))
    ensures Coefficients(f, e) == PairMatrix(f, k, l, a, b) && |e.repairs.Keys| == |e.missing.Keys| == 2
    ensures |Two(k, l, a, b).repairs.Keys| == |Two(k, l, a, b).missing| == 2
  {
    hide *;
    TwoIs(k, l, a, b);
    SortedPair(k, l);
    SortedPair(a, b);
    Pair(a, b);
    Pair(k, l);
    HasSizes(e, Two(k, l, a, b));
    MatrixIs(f, e, Two(k, l, a, b), [k, l], [a, b]);
    TwoRows(f, k, l, a, b);
  }

  lemma TwoSolved(k: nat, l: nat, a: nat, b: nat)
    ensures Solving(Two(k, l, a, b)) == Shape(map[], {}, {a, b}, Some(a))
  {
  }

  lemma SecondGoes<E>(e: State<E>, k: nat, l: nat)
    requires k < l && e.repairs.Keys == {k, l}
    ensures |e.repairs.Keys| > 0 && GiveUp(e).repairs.Keys == {k} && GiveUp(e).sources == e.sources
  {
    Pair(k, l);
  }

  lemma GivesUp<E(!new)>(f: Field<E>, e: State<E>, d: State<E>)
    requires |e.repairs.Keys| == |e.missing.Keys| == 2 && Singular(f, Coefficients(f, e)) && FullStep(f, e, d)
    ensures d == GiveUp(e)
  {
    hide Singular, Coefficients, GiveUp;
  }

  /** From the empty decoder, in both modes and for every field. */
  lemma TwoRepairs<E(!new)>(f: Field<E>, inOrder: bool, w: seq<Source<E>>, k: nat, l: nat)
    returns (d1: State<E>, d2: State<E>)
    requires f.Laws() && |w| == 2 && w[0].id < w[1].id && k < l
    ensures Takes(f, Initial(inOrder), RepairPacket(MakeRepair(f, k, w)), d1)
    ensures Takes(f, d1, RepairPacket(MakeRepair(f, l, w)), d2)
    ensures d1.lastId == Some(w[0].id)
    ensures if Determines(f, k, l, w[0].id, w[1].id)
            then d2.sources.Keys == {w[0].id, w[1].id} && d2.repairs.Keys == {}
            else d2.sources.Keys == {} && d2.repairs.Keys == {k}
  {
    hide *;
    var a, b := w[0].id, w[1].id;
    var p, q := MakeRepair(f, k, w), MakeRepair(f, l, w);
    assert w == [w[0], w[1]];
    WindowIsTwo(f, k, w[0], w[1]);
    WindowIsTwo(f, l, w[0], w[1]);
    d1 := FirstOfTwo(f, inOrder, p, a, b);
    HasIs(d1, One(k, a, b));
    TwoIs(k, l, a, b);
    TwoShape(k, l, a, b);
    var e := RepairArrives(f, d1, One(k, a, b), q, Two(k, l, a, b));
    TwoMatrix(f, e, k, l, a, b);
    PairSingularExactly(f, k, l, a, b);
    d2 := FullStepExists(f, e);
    HasIs(e, Two(k, l, a, b));
    if Determines(f, k, l, a, b) {
      SolvedHas(f, e, Two(k, l, a, b), d2);
      TwoSolved(k, l, a, b);
      HasIs(d2, Solving(Two(k, l, a, b)));
      HoldsNothing(Solving(Two(k, l, a, b)));
    } else {
      GivesUp(f, e, d2);
      SecondGoes(e, k, l);
    }
  }

  // ----- what is rebuilt

  lemma TakenGood<E(!new)>(f: Field<E>, truth: Truth<E>, d: State<E>, r: Repair<E>, d': State<E>)
    requires f.Laws() && TruthOk(f, truth) && Good(f, truth, d, {}) && RepairOk(f, truth, r)
    requires Takes(f, d, RepairPacket(r), d') && r.ids != {} && Low(d) <= Min(r.ids)
    ensures Good(f, truth, d', {})
  {
    hide Good, RepairOk, DropOutdated, MayArrive;
    if IsOld(d, Max(r.ids)) || r.id in d.repairs {
      assert d' == d;
    } else {
      RepairStepGood(f, truth, d, r, d');
    }
  }

  lemma LowOfNone<E>(inOrder: bool)
    ensures Low(Initial<E>(inOrder)) == 0
  {
  }

  /** Both sources come back, with their data, when the repairs determine them. */
  lemma BothComeBack<E(!new)>(f: Field<E>, inOrder: bool, w: seq<Source<E>>, k: nat, l: nat)
    returns (d1: State<E>, d2: State<E>)
    requires f.Laws() && |w| == 2 && w[0].id < w[1].id && k < l && Determines(f, k, l, w[0].id, w[1].id)
    requires 0 < |w[0].data| <= f.maxSize && 0 < |w[1].data| <= f.maxSize
    ensures Takes(f, Initial(inOrder), RepairPacket(MakeRepair(f, k, w)), d1)
    ensures Takes(f, d1, RepairPacket(MakeRepair(f, l, w)), d2)
    ensures d2.sources == map[w[0].id := w[0].data, w[1].id := w[1].data]
  {
    hide *;
    var truth := map[w[0].id := w[0].data, w[1].id := w[1].data];
    var p, q := MakeRepair(f, k, w), MakeRepair(f, l, w);
    d1, d2 := TwoRepairs(f, inOrder, w, k, l);
    WindowIsTrue(f, truth, w);
    MakeRepairOk(f, truth, k, w);
    MakeRepairOk(f, truth, l, w);
    assert w == [w[0], w[1]];
    WindowIsTwo(f, k, w[0], w[1]);
    WindowIsTwo(f, l, w[0], w[1]);
    Pair(w[0].id, w[1].id);
    LowIs(d1, w[0].id);
    LowOfNone<E>(inOrder);
    InitialGood(f, truth, inOrder);
    TakenGood(f, truth, Initial(inOrder), p, d1);
    TakenGood(f, truth, d1, q, d2);
    GoodGives(f, truth, d2, {});
    AllTrue(truth, d2, w);
  }

  lemma WindowIsTrue<E(!new)>(f: Field<E>, truth: Truth<E>, w: seq<Source<E>>)
    requires |w| == 2 && w[0].id < w[1].id && truth == map[w[0].id := w[0].data, w[1].id := w[1].data]
    requires 0 < |w[0].data| <= f.maxSize && 0 < |w[1].data| <= f.maxSize
    ensures TruthOk(f, truth) && WindowSorted(w) && WindowTrue(truth, w) && w != []
  {
  }

  lemma AllTrue<E>(truth: Truth<E>, d: State<E>, w: seq<Source<E>>)
    requires |w| == 2 && w[0].id < w[1].id && truth == map[w[0].id := w[0].data, w[1].id := w[1].data]
    requires SourcesTrue(truth, d) && d.sources.Keys == {w[0].id, w[1].id}
    ensures d.sources == truth
  {
  }

  // ----- bytes

  lemma ByteCoefficients()
    ensures Bytes.BYTES.Coefficient(0, 0) == 3 && Bytes.BYTES.Coefficient(0, 1) == 4
    ensures Bytes.BYTES.Coefficient(1, 0) == 7 && Bytes.BYTES.Coefficient(1, 1) == 9
  {
    SmallCoefficientIs(Bytes.BYTES, 0, 0);
    SmallCoefficientIs(Bytes.BYTES, 0, 1);
    SmallCoefficientIs(Bytes.BYTES, 1, 0);
    SmallCoefficientIs(Bytes.BYTES, 1, 1);
    hide Bytes.BYTES.CoefficientIndex, Bytes.BYTES.Coefficient;
  }

  /** 3 * 9 and 4 * 7. */
  lemma BytesDetermine()
    requires FIELD.Laws()
    ensures Determines(Bytes.BYTES, 0, 1, 0, 1)
  {
    ByteCoefficients();
    SmallProduct(3, 9);
    SmallProduct(4, 7);
    Products();
    hide Mul, ToNat, OfNat, Bytes.Multiply, Bytes.BYTES.Coefficient, FIELD.Laws;
    assert Bytes.BYTES.mul(3, 9) == Bytes.Multiply(3, 9) && Bytes.BYTES.mul(4, 7) == Bytes.Multiply(4, 7);
  }

  lemma Products()
    ensures ToNat(Mul(OfNat(9), OfNat(3))) == 8 && ToNat(Mul(OfNat(7), OfNat(4))) == 15
  {
    MulBits(OfNat(9), OfNat(3));
    MulBits(OfNat(7), OfNat(4));
    hide Mul;
  }

  /** Bytes below 16 are multiplied as half bytes. */
  lemma SmallProduct(a: nat, b: nat)
    requires FIELD.Laws() && a < 16 && b < 16
    ensures Bytes.Multiply(a, b) == ToNat(Mul(OfNat(b), OfNat(a)))
  {
    Extension.ProductOfLow(FIELD, Bytes.GAMMA, OfNat(a), OfNat(b));
    assert a % 16 == a && a / 16 == 0 && b % 16 == b && b / 16 == 0 && OfNat(0) == ZERO && ToNat(ZERO) == 0;
    hide Extension.Product, Mul, OfNat, FIELD.Laws;
    assert Bytes.Unpack(a) == Extension.Pair(OfNat(a), ZERO) && Bytes.Unpack(b) == Extension.Pair(OfNat(b), ZERO);
  }

  /** With w = 8, the first two repairs of the first two sources bring both back. */
  lemma FirstTwoComeBack(inOrder: bool, w: seq<Source<Bytes.Byte>>)
    returns (d1: State<Bytes.Byte>, d2: State<Bytes.Byte>)
    requires |w| == 2 && w[0].id == 0 && w[1].id == 1
    requires 0 < |w[0].data| <= 65535 && 0 < |w[1].data| <= 65535
    ensures Takes(Bytes.BYTES, Initial(inOrder), RepairPacket(MakeRepair(Bytes.BYTES, 0, w)), d1)
    ensures Takes(Bytes.BYTES, d1, RepairPacket(MakeRepair(Bytes.BYTES, 1, w)), d2)
    ensures d2.sources == map[0 := w[0].data, 1 := w[1].data]
  {
    assert Bytes.BYTES.maxSize == 65535;
    hide *;
    IsField();
    Bytes.IsField();
    BytesDetermine();
    d1, d2 := BothComeBack(Bytes.BYTES, inOrder, w, 0, 1);
  }
}
