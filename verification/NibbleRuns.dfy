/** Runs in GF(2^4), for which full decoding is followed with the coefficients that the decoder computes. */
module NibbleRuns {
  import opened Wrappers
  import opened LinearAlgebra
  import opened Dependence
  import opened Gf16
  import opened NibbleRows
  import opened Ids
  import opened Symbols
  import opened DecoderModel
  import opened EncoderModel
  import opened InOrderDelivery
  import opened Transmission
  import opened Processing
  import opened LostSources
  import opened GivenUp
  import opened Shapes
  import opened Progress
  import opened Overtaking

  lemma SortedTriple(a: nat, b: nat, c: nat)
    requires a < b < c
    ensures Sorted({a, b, c}) == [a, b, c] && Min({a, b, c}) == a && Max({a, b, c}) == c && |{a, b, c}| == 3
  {
    hide Sorted;
    MinIs({a, b, c}, a);
    SortedUnfolds({a, b, c}, a);
    assert {a, b, c} - {a} == {b, c};
    SortedPair(b, c);
  }

  // ----- an independent repair is given up

  ghost function Three(): set<nat> {
    {0, 1, 2}
  }

  ghost function OneOfThree(): Shape {
    Shape(map[0 := Three()], Three(), {}, Some(0))
  }

  ghost function TwoOfThree(): Shape {
    Shape(map[0 := Three(), 15 := Three()], Three(), {}, Some(0))
  }

  ghost function ThreeOfThree(): Shape {
    Shape(map[0 := Three(), 15 := Three(), 16 := Three()], Three(), {}, Some(0))
  }

  lemma ThreeIs()
    ensures Three() == {0, 1, 2} && Min(Three()) == 0 && Max(Three()) == 2 && |Three()| == 3
    ensures OneOfThree() == Shape(Empty().repairs[0 := Three()], Three(), {}, Some(0))
    ensures TwoOfThree() == Shape(OneOfThree().repairs[15 := Three()], Three(), {}, Some(0))
    ensures ThreeOfThree() == Shape(TwoOfThree().repairs[16 := Three()], Three(), {}, Some(0))
  {
    SortedTriple(0, 1, 2);
  }

  lemma ThreeShapes()
    ensures MeetsRepair(Empty(), 0, Three(), OneOfThree()) && Waits(OneOfThree())
    ensures MeetsRepair(OneOfThree(), 15, Three(), TwoOfThree()) && Waits(TwoOfThree())
    ensures MeetsRepair(TwoOfThree(), 16, Three(), ThreeOfThree())
    ensures TwoOfThree().repairs.Keys == {0, 15} && ThreeOfThree().repairs.Keys == {0, 15, 16}
  {
    hide *;
    EmptyIs(Three());
    ThreeIs();
    AboutMeets(Empty(), 0, Three(), 0, OneOfThree());
    AboutMeets(OneOfThree(), 15, Three(), 1, TwoOfThree());
    AboutMeets(TwoOfThree(), 16, Three(), 2, ThreeOfThree());
  }

  lemma RowsOf(k: nat)
    ensures Entries(FIELD, k, Three(), [0, 1, 2]) == Row(k)
  {
  }

  lemma MatrixOfTwo(s: Shape)
    requires s == TwoOfThree()
    ensures 0 in s.repairs && 15 in s.repairs && MatrixOf(FIELD, s, [0, 15], [0, 1, 2]) == [Row(0), Row(15)]
  {
    RowsOf(0);
    RowsOf(15);
    hide Entries, Row;
  }

  lemma MatrixOfThree(s: Shape)
    requires s == ThreeOfThree()
    ensures 0 in s.repairs && 15 in s.repairs && 16 in s.repairs
    ensures MatrixOf(FIELD, s, [0, 15, 16], [0, 1, 2]) == [Row(0), Row(15), Row(16)]
  {
    RowsOf(0);
    RowsOf(15);
    RowsOf(16);
    hide Entries, Row;
  }

  lemma TwoRows(d: State<Nibble>)
    requires Has(d, TwoOfThree())
    ensures Coefficients(FIELD, d) == [Row(0), Row(15)] && |d.missing.Keys| == 3
  {
    hide *;
    ThreeShapes();
    ThreeIs();
    SortedTriple(0, 1, 2);
    SortedPair(0, 15);
    HasSizes(d, TwoOfThree());
    MatrixIs(FIELD, d, TwoOfThree(), [0, 15], [0, 1, 2]);
    MatrixOfTwo(TwoOfThree());
  }

  lemma ThreeRows(e: State<Nibble>)
    requires Has(e, ThreeOfThree())
    ensures Coefficients(FIELD, e) == [Row(0), Row(15), Row(16)] && |e.missing.Keys| == |e.repairs.Keys| == 3
  {
    hide *;
    ThreeShapes();
    ThreeIs();
    SortedTriple(0, 1, 2);
    SortedTriple(0, 15, 16);
    HasSizes(e, ThreeOfThree());
    MatrixIs(FIELD, e, ThreeOfThree(), [0, 15, 16], [0, 1, 2]);
    MatrixOfThree(ThreeOfThree());
  }

  lemma TwoAreDependent(d: State<Nibble>)
    requires FIELD.Laws() && Has(d, TwoOfThree())
    ensures !Independent(FIELD, d)
  {
    TwoRows(d);
    FirstTwoAreDependent();
    hide Dependent, Coefficients, Row, Has, FIELD.Laws;
  }

  lemma DependentIsSingularMatrix(a: Matrix<Nibble>)
    requires FIELD.Laws() && a == [Row(0), Row(15), Row(16)]
    ensures Singular(FIELD, a)
  {
    hide *;
    RowsAreWide();
    FirstTwoAreDependent();
    assert a[..2] == [Row(0), Row(15)];
    SquareOfThree(a);
    SingularByLastRow(FIELD, a);
  }

  lemma SquareOfThree(a: Matrix<Nibble>)
    requires |a| == 3 && |a[0]| == |a[1]| == |a[2]| == 3
    ensures IsSquare(a, 3)
  {
  }

  lemma Fails(e: State<Nibble>)
    requires |e.missing.Keys| == |e.repairs.Keys| == 3 && Singular(FIELD, Coefficients(FIELD, e))
    ensures FullStep(FIELD, e, GiveUp(e))
  {
    hide Singular, Coefficients, GiveUp;
  }

  lemma NotRedundant(e: State<Nibble>)
    requires FIELD.Laws() && Coefficients(FIELD, e) == [Row(0), Row(15), Row(16)] && |e.repairs.Keys| == 3
    ensures !Redundant(FIELD, e)
  {
    ThirdIsIndependent();
    hide Combines, Coefficients, Row, FIELD.Laws;
    assert [Row(0), Row(15), Row(16)][..2] == [Row(0), Row(15)];
  }

  lemma ThirdIsDropped(e: State<Nibble>)
    requires FIELD.Laws() && Has(e, ThreeOfThree())
    ensures |e.repairs.Keys| == 3 && !Redundant(FIELD, e) && FullStep(FIELD, e, GiveUp(e))
  {
    hide *;
    ThreeRows(e);
    NotRedundant(e);
    DependentIsSingularMatrix(Coefficients(FIELD, e));
    Fails(e);
  }

  lemma LargestIsDropped<E>(e: State<E>)
    requires e.repairs.Keys == {0, 15, 16}
    ensures |e.repairs.Keys| > 0 && GiveUp(e).repairs.Keys == {0, 15}
    ensures GiveUp(e).missing.Keys == e.missing.Keys
  {
    SortedTriple(0, 15, 16);
  }

  /** The first three sources do not arrive, but repairs 0, 15 and 16 of them do. In GF(2^4) the first two have the same
      coefficients, so the matrix has no inverse; repair 16 is independent of them, and is the one that is given up. */
  lemma IndependentIsGivenUp(inOrder: bool, w: seq<Source<Nibble>>)
    returns (d1: State<Nibble>, d2: State<Nibble>, e: State<Nibble>, d3: State<Nibble>)
    requires |w| == 3 && w[0].id == 0 && w[1].id == 1 && w[2].id == 2
    ensures Takes(FIELD, Initial(inOrder), RepairPacket(MakeRepair(FIELD, 0, w)), d1)
    ensures Takes(FIELD, d1, RepairPacket(MakeRepair(FIELD, 15, w)), d2)
    ensures Takes(FIELD, d2, RepairPacket(MakeRepair(FIELD, 16, w)), d3)
    ensures d2.missing.Keys == {0, 1, 2} && d2.repairs.Keys == {0, 15} && !Independent(FIELD, d2)
    ensures e.repairs.Keys == {0, 15, 16} && |e.repairs.Keys| > 0 && !Redundant(FIELD, e) && d3 == GiveUp(e)
    ensures d3.missing.Keys == {0, 1, 2} && d3.repairs.Keys == {0, 15}
  {
    hide *;
    IsField();
    assert w == [w[0], w[1], w[2]];
    WindowIsThree(FIELD, 0, w[0], w[1], w[2]);
    WindowIsThree(FIELD, 15, w[0], w[1], w[2]);
    WindowIsThree(FIELD, 16, w[0], w[1], w[2]);
    InitialHas<Nibble>(inOrder);
    ThreeIs();
    ThreeShapes();
    d1 := RepairIsLinked(FIELD, Initial(inOrder), Empty(), MakeRepair(FIELD, 0, w), OneOfThree());
    d2 := RepairIsLinked(FIELD, d1, OneOfThree(), MakeRepair(FIELD, 15, w), TwoOfThree());
    HasIs(d2, TwoOfThree());
    TwoAreDependent(d2);
    e := RepairArrives(FIELD, d2, TwoOfThree(), MakeRepair(FIELD, 16, w), ThreeOfThree());
    HasIs(e, ThreeOfThree());
    ThirdIsDropped(e);
    LargestIsDropped(e);
    d3 := GiveUp(e);
  }

  // ----- a lost source comes back

  ghost function Triple(): set<nat> {
    {1, 2, 3}
  }

  ghost function Back(): Shape {
    Shape(map[3 := {2, 3}, 1 := Triple()], Triple(), {}, Some(1))
  }

  ghost function Full(): Shape {
    Shape(map[3 := {2, 3}, 1 := Triple(), 2 := Triple()], Triple(), {}, Some(1))
  }

  lemma BackIs()
    ensures Triple() == {1, 2, 3} && Min(Triple()) == 1 && Max(Triple()) == 3 && |Triple()| == 3
    ensures About(One(3, 2, 3), Triple(), 1) && One(3, 2, 3).repairs.Keys == {3} && One(3, 2, 3).last == Some(2)
    ensures Back() == Shape(One(3, 2, 3).repairs[1 := Triple()], Triple(), {}, Some(1))
    ensures Full() == Shape(Back().repairs[2 := Triple()], Triple(), {}, Some(1))
  {
    SortedTriple(1, 2, 3);
    assert One(3, 2, 3).repairs.Keys == {3} && |{3}| == 1;
  }

  lemma BackShapes()
    ensures MeetsRepair(One(3, 2, 3), 1, Triple(), Back()) && Waits(Back())
    ensures MeetsRepair(Back(), 2, Triple(), Full()) && Full().repairs.Keys == {1, 2, 3}
  {
    hide *;
    OneShape(3, 2, 3);
    BackIs();
    AboutMeets(One(3, 2, 3), 1, Triple(), 1, Back());
    AboutMeets(Back(), 2, Triple(), 2, Full());
  }

  lemma RowOne()
    ensures Entries(FIELD, 1, Triple(), [1, 2, 3]) == [OfNat(9), OfNat(11), OfNat(13)]
  {
    SmallCoefficient(1, 1, 9);
    SmallCoefficient(1, 2, 11);
    SmallCoefficient(1, 3, 13);
    hide OfNat, FIELD.Coefficient;
  }

  lemma RowTwo()
    ensures Entries(FIELD, 2, Triple(), [1, 2, 3]) == [OfNat(1), OfNat(4), OfNat(7)]
  {
    SmallCoefficient(2, 1, 1);
    SmallCoefficient(2, 2, 4);
    SmallCoefficient(2, 3, 7);
    hide OfNat, FIELD.Coefficient;
  }

  lemma RowThree()
    ensures Entries(FIELD, 3, {2, 3}, [1, 2, 3]) == [ZERO, OfNat(14), OfNat(3)]
  {
    SmallCoefficient(3, 2, 14);
    SmallCoefficient(3, 3, 3);
    hide OfNat, FIELD.Coefficient;
  }

  lemma MatrixOfFull(s: Shape)
    requires s == Full()
    ensures 1 in s.repairs && 2 in s.repairs && 3 in s.repairs
    ensures MatrixOf(FIELD, s, [1, 2, 3], [1, 2, 3]) == Delayed()
  {
    RowOne();
    RowTwo();
    RowThree();
    ElementsAre();
    hide Entries, OfNat;
  }

  lemma FullIs()
    ensures Full().missing == Triple()
  {
  }

  lemma FullIsRegular(e: State<Nibble>)
    requires FIELD.Laws() && Has(e, Full())
    ensures |Full().repairs.Keys| == |Full().missing| == 3 && !Singular(FIELD, Coefficients(FIELD, e))
  {
    hide *;
    BackIs();
    BackShapes();
    FullIs();
    SortedTriple(1, 2, 3);
    MatrixIs(FIELD, e, Full(), [1, 2, 3], [1, 2, 3]);
    MatrixOfFull(Full());
    DelayedIsRegular();
  }

  lemma FullSolved()
    ensures Solving(Full()) == Shape(map[], {}, {1, 2, 3}, Some(1)) && Settled(Solving(Full()))
  {
  }

  /** The decoder has the first two sources, and the second is lost. A repair of 2 and 3 outdates both; two delayed
      repairs of 1, 2 and 3 move the bound back, and full decoding rebuilds all three. */
  lemma RebuiltFromDelayed(d: State<Nibble>, w: seq<Source<Nibble>>)
    returns (d1: State<Nibble>, d2: State<Nibble>, e: State<Nibble>, d3: State<Nibble>)
    requires Has(d, Both()) && d.inOrder && |w| == 6 && forall k | 0 <= k < 6 :: w[k].id == k
    ensures Takes(FIELD, d, RepairPacket(MakeRepair(FIELD, 3, [w[2], w[3]])), d1) && Has(d1, One(3, 2, 3))
    ensures Takes(FIELD, d1, RepairPacket(MakeRepair(FIELD, 1, [w[1], w[2], w[3]])), d2)
    ensures Takes(FIELD, d2, RepairPacket(MakeRepair(FIELD, 2, [w[1], w[2], w[3]])), d3)
    ensures Has(e, Full()) && FullStep(FIELD, e, d3) && e.inOrder && 1 < e.firstMissing
  {
    hide *;
    IsField();
    var p, q, r := MakeRepair(FIELD, 3, [w[2], w[3]]), MakeRepair(FIELD, 1, [w[1], w[2], w[3]]),
                   MakeRepair(FIELD, 2, [w[1], w[2], w[3]]);
    WindowIsTwo(FIELD, 3, w[2], w[3]);
    WindowIsThree(FIELD, 1, w[1], w[2], w[3]);
    WindowIsThree(FIELD, 2, w[1], w[2], w[3]);
    BackIs();
    BothWaits();
    d1 := NextWindow(FIELD, d, Both(), p, 2, 3);
    LinkedForward(FIELD, d, p);
    Pair(2, 3);
    BackShapes();
    d2 := RepairIsLinked(FIELD, d1, One(3, 2, 3), q, Back());
    LinkedForward(FIELD, d1, q);
    e := RepairArrives(FIELD, d2, Back(), r, Full());
    LinkedForward(FIELD, d2, r);
    BackIs();
    BackShapes();
    FullIs();
    SortedTriple(1, 2, 3);
    HasSizes(e, Full());
    FullIs();
    d3 := FullStepExists(FIELD, e);
  }

  lemma NotListedYet(d: State<Nibble>, r: Repair<Nibble>)
    requires r.ids == {2, 3}
    ensures NotAskedFor(d, RepairPacket(r), 1)
  {
  }

  /** The delayed repair lists the lost source, which is erased. */
  lemma AskedFor(d: State<Nibble>, r: Repair<Nibble>)
    requires Has(d, One(3, 2, 3)) && r.ids == {1, 2, 3} && r.id == 1
    ensures !NotAskedFor(d, RepairPacket(r), 1)
  {
    SortedTriple(1, 2, 3);
    NotOld(d, One(3, 2, 3), 3);
    HasIs(d, One(3, 2, 3));
    OutdatingHas(FIELD, d, One(3, 2, 3), 1);
    assert 1 !in d.repairs.Keys && 1 !in DropOutdated(d, 1).sources.Keys;
    hide DropOutdated, Has, IsOld;
  }

  /** A source that is lost is handed over after all: it is rebuilt below the source that is waited for, where it is
      queued, and a later repair outdates it. */
  lemma LateSourceComesBack(w: seq<Source<Nibble>>)
    returns (d1: State<Nibble>, d2: State<Nibble>, d3: State<Nibble>, d4: State<Nibble>, d5: State<Nibble>,
             d6: State<Nibble>)
    requires |w| == 6 && forall k | 0 <= k < 6 :: w[k].id == k
    requires 0 < |w[0].data| <= FIELD.maxSize && 0 < |w[1].data| <= FIELD.maxSize
    ensures Takes(FIELD, Initial(true), RepairPacket(MakeRepair(FIELD, 0, [w[0], w[1]])), d1)
    ensures Takes(FIELD, d1, SourcePacket(w[1]), d2) && Lost(d2, 1)
    ensures Takes(FIELD, d2, RepairPacket(MakeRepair(FIELD, 3, [w[2], w[3]])), d3) && Lost(d3, 1)
    ensures Takes(FIELD, d3, RepairPacket(MakeRepair(FIELD, 1, [w[1], w[2], w[3]])), d4)
    ensures !NotAskedFor(d3, RepairPacket(MakeRepair(FIELD, 1, [w[1], w[2], w[3]])), 1)
    ensures Takes(FIELD, d4, RepairPacket(MakeRepair(FIELD, 2, [w[1], w[2], w[3]])), d5)
    ensures Takes(FIELD, d5, RepairPacket(MakeRepair(FIELD, 5, [w[4], w[5]])), d6)
    ensures d5.log <= d6.log && InLog(d6.log[|d5.log|..], 1)
  {
    hide *;
    IsField();
    assert w[0] == Source(0, w[0].data) && w[1] == Source(1, w[1].data);
    d1, d2 := LateSource(FIELD, w[0].data, w[1].data);
    LostIsInOrder(d2);
    var e: State<Nibble>;
    d3, d4, e, d5 := RebuiltFromDelayed(d2, w);
    StillLost(d2, w, d3);
    WindowIsThree(FIELD, 1, w[1], w[2], w[3]);
    AskedFor(d3, MakeRepair(FIELD, 1, [w[1], w[2], w[3]]));
    FullIsRegular(e);
    FullIs();
    BackIs();
    SolvedHas(FIELD, e, Full(), d5);
    SolvedQueues(FIELD, e, Full(), d5, 1);
    FullSolved();
    WindowIsTwo(FIELD, 5, w[4], w[5]);
    d6 := NextWindow(FIELD, d5, Solving(Full()), MakeRepair(FIELD, 5, [w[4], w[5]]), 4, 5);
  }

  lemma LostIsInOrder(d: State<Nibble>)
    requires Lost(d, 1)
    ensures d.inOrder
  {
  }

  lemma StillLost(d: State<Nibble>, w: seq<Source<Nibble>>, d': State<Nibble>)
    requires |w| == 6 && (forall k | 0 <= k < 6 :: w[k].id == k) && Lost(d, 1)
    requires Takes(FIELD, d, RepairPacket(MakeRepair(FIELD, 3, [w[2], w[3]])), d')
    ensures Lost(d', 1)
  {
    hide Lost, Receives, Defined, MakeRepair, NotAskedFor;
    WindowIsTwo(FIELD, 3, w[2], w[3]);
    NotListedYet(d, MakeRepair(FIELD, 3, [w[2], w[3]]));
    ReceivesLost(FIELD, d, RepairPacket(MakeRepair(FIELD, 3, [w[2], w[3]])), d', 1);
  }
}
