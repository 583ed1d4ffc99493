/** A run in which a source is lost and rebuilt, for any field and any two sources: two commits at a rate of two
    send both sources and a repair; the first source is lost; the callback is given both. */
module Recovery {
  import opened Wrappers
  import opened GaloisField
  import opened Ids
  import opened Symbols
  import opened DecoderModel
  import opened EncoderModel
  import opened Peeling
  import opened Delivery
  import opened DecoderInvariant
  import opened DecoderSteps
  import opened InOrderDelivery
  import opened OrderedArrival
  import opened Transmission
  import opened Runs

  function Fresh<E>(): EncoderState<E> {
    EncoderState([], 0, 0, 2, 10, true, false, 0, 0, 0, 0)
  }

  function Start<E>(): System<E> {
    System(Fresh(), [], {}, Initial(true), map[], 0)
  }

  // ----- what the encoder sends

  function RepairOf<E(!new)>(f: Field<E>, a: seq<E>, b: seq<E>): Repair<E> {
    MakeRepair(f, 0, [Source(0, a), Source(1, b)])
  }

  lemma FirstCommit<E(!new)>(f: Field<E>, a: seq<E>)
    ensures var (e, packets) := Commit(f, Fresh(), a);
            && packets == [SourcePacket(Source(0, a))]
            && e == Fresh().(window := [Source(0, a)], nextSource := 1, sentSources := 1, sentPackets := 1)
  {
    assert [] + [Source(0, a)] == [Source(0, a)];
  }

  lemma SecondCommit<E(!new)>(f: Field<E>, a: seq<E>, b: seq<E>)
    ensures var e1 := Commit(f, Fresh(), a).0;
            && e1.windowSize > 0 && e1.rate > 0 && e1.nextSource == 1
            && Commit(f, e1, b).1 == [SourcePacket(Source(1, b)), RepairPacket(RepairOf(f, a, b))]
            && Commit(f, e1, b).0.nextSource == 2
  {
    FirstCommit(f, a);
    var e1 := Commit(f, Fresh(), a).0;
    hide MakeRepair;
    assert [Source(0, a)] + [Source(1, b)] == [Source(0, a), Source(1, b)];
  }

  // ----- the states of the run, up to the loss

  function Committed<E(!new)>(f: Field<E>, a: seq<E>): System<E> {
    FirstCommit(f, a);
    Start().(enc := Commit(f, Fresh(), a).0, channel := [InFlight(SourcePacket(Source(0, a)), 1)], truth := map[0 := a])
  }

  function CommittedTwice<E(!new)>(f: Field<E>, a: seq<E>, b: seq<E>): System<E> {
    SecondCommit(f, a, b);
    var s := Committed(f, a);
    s.(enc := Commit(f, s.enc, b).0,
       channel := [InFlight(SourcePacket(Source(0, a)), 1), InFlight(SourcePacket(Source(1, b)), 2),
                   InFlight(RepairPacket(RepairOf(f, a, b)), 2)],
       truth := map[0 := a, 1 := b])
  }

  function AfterLoss<E(!new)>(f: Field<E>, a: seq<E>, b: seq<E>): System<E> {
    CommittedTwice(f, a, b).(channel := [InFlight(SourcePacket(Source(1, b)), 2),
                                         InFlight(RepairPacket(RepairOf(f, a, b)), 2)])
  }

  lemma StepsToLoss<E(!new)>(f: Field<E>, a: seq<E>, b: seq<E>)
    requires 0 < |a| <= f.maxSize && 0 < |b| <= f.maxSize
    ensures Init(Start<E>(), true)
    ensures CommitStep(f, Start(), Committed(f, a), a)
    ensures CommitStep(f, Committed(f, a), CommittedTwice(f, a, b), b)
    ensures LoseStep(CommittedTwice(f, a, b), AfterLoss(f, a, b), 0)
  {
    FirstCommit(f, a);
    SecondCommit(f, a, b);
    hide Commit, RepairOf;
    var s1, s2 := Committed(f, a), CommittedTwice(f, a, b);
    assert s1.channel == Start<E>().channel + Sent([SourcePacket(Source(0, a))], 1);
    assert s2.channel == s1.channel + Sent([SourcePacket(Source(1, b)), RepairPacket(RepairOf(f, a, b))], 2);
    assert s1.truth == Start<E>().truth[0 := a] && s2.truth == s1.truth[1 := b];
    assert AfterLoss(f, a, b).channel == s2.channel[..0] + s2.channel[1..];
  }

  // ----- the second source arrives

  lemma SecondArrives<E(!new)>(f: Field<E>, b: seq<E>) returns (d: State<E>)
    ensures SourceStep(f, Initial(true), Source(1, b), d)
    ensures d.sources == map[1 := b] && d.repairs == map[] && d.missing == map[] && d.lastId == None
  {
    var i := Initial<E>(true);
    AddIsPlain(f, i, Source(1, b));
    d := Store(Announce(i, Source(1, b)), Source(1, b));
    assert d.repairs.Keys == {};
    hide Add;
  }

  // ----- the repair arrives

  lemma RepairArrives<E(!new)>(f: Field<E>, truth: Truth<E>, d: State<E>, r: Repair<E>) returns (d': State<E>)
    requires f.Laws() && TruthOk(f, truth) && Good(f, truth, d, {}) && RepairOk(f, truth, r)
    requires d.repairs == map[] && d.missing == map[] && d.lastId == None && d.sources.Keys == {1} && r.ids == {0, 1}
    ensures RepairStep(f, d, r, d') && 0 in d'.sources
  {
    hide Good, RepairOk, DropOutdated, Add, Create, StripKnown, Link, Take, Links;
    MinIs(r.ids, 0);
    var c := DropOutdated(d, 0);
    GoodGives(f, truth, d, {});
    DropOutdatedGood(f, truth, d, 0);
    OutdatingNothing(d);
    assert 0 in r.ids && 0 !in c.sources;
    var s := StrippedRight(f, truth, c, r);
    assert s.ids == {0};
    assert |s.ids| == 1;
    assert forall k :: k !in c.repairs.Keys;
    DegreeOneGood(f, truth, c, s, 0);
    d' := Add(f, Take(Link(c, s), 0, r.id), Create(f, s));
  }

  lemma OutdatingNothing<E>(d: State<E>)
    requires d.repairs == map[] && d.missing == map[]
    ensures DropOutdated(d, 0).repairs.Keys == {} && DropOutdated(d, 0).missing.Keys == {}
    ensures DropOutdated(d, 0).sources == d.sources && Low(DropOutdated(d, 0)) == 0
  {
  }

  // ----- the whole run

  /** The oldest packet is delivered, and the decoder's next state is `d`. */
  lemma DeliverTo<E(!new)>(f: Field<E>, s: System<E>, d: State<E>) returns (s': System<E>)
    requires s.channel != [] && Receives(f, s.dec, s.channel[0].packet, d)
    ensures Next(f, s, s') && s'.dec == d && s'.truth == s.truth && s'.channel == s.channel[1..]
  {
    hide Receives;
    s' := s.(dec := d, channel := s.channel[1..], seen := s.channel[0].born);
    assert DeliverStep(f, s, s');
    DeliverIsNext(f, s, s');
  }

  lemma DeliverIsNext<E(!new)>(f: Field<E>, s: System<E>, s': System<E>)
    requires DeliverStep(f, s, s')
    ensures Next(f, s, s')
  {
    hide DeliverStep;
  }

  lemma FirstFour<E(!new)>(f: Field<E>, a: seq<E>, b: seq<E>)
    requires 0 < |a| <= f.maxSize && 0 < |b| <= f.maxSize
    ensures Run(f, [Start(), Committed(f, a), CommittedTwice(f, a, b), AfterLoss(f, a, b)], true)
  {
    StepsToLoss(f, a, b);
    hide CommitStep, LoseStep, Init, Start, Committed, CommittedTwice, AfterLoss;
    assert Next(f, Start(), Committed(f, a));
    assert Next(f, Committed(f, a), CommittedTwice(f, a, b));
    assert Next(f, CommittedTwice(f, a, b), AfterLoss(f, a, b));
  }

  lemma RepairHolds<E(!new)>(f: Field<E>, s: System<E>, a: seq<E>, b: seq<E>)
    requires Inv(f, s) && s.channel != [] && s.channel[0].packet == RepairPacket(RepairOf(f, a, b))
    ensures RepairOk(f, s.truth, RepairOf(f, a, b))
  {
    hide RepairOf, RepairOk;
    assert PacketOk(f, s, s.channel[0]);
  }

  lemma RepairIds<E(!new)>(f: Field<E>, a: seq<E>, b: seq<E>)
    ensures RepairOf(f, a, b).ids == {0, 1}
  {
    var w := [Source(0, a), Source(1, b)];
    assert w[..1] == [Source(0, a)] && w[1] == Source(1, b);
    assert MakeRepair(f, 0, [Source(0, a)]).ids == {0};
    assert RepairOf(f, a, b) == ExtendRepair(f, MakeRepair(f, 0, w[..1]), w[1]);
  }

  /** Both sources are held, so neither is the first missing one. */
  lemma BothHandedOver<E(!new)>(f: Field<E>, run: seq<System<E>>)
    requires f.Laws() && Run(f, run, true) && |run| == 6
    requires 1 in run[4].dec.sources && 0 in run[5].dec.sources
    ensures InLog(run[5].dec.log, 0) && InLog(run[5].dec.log, 1)
  {
    hide *;
    HeldIsDelivered(f, run, true, 4, 5, 1);
    HeldIsDelivered(f, run, true, 5, 5, 0);
  }

  /** The run up to the arrival of the second source. */
  lemma UpToSecond<E(!new)>(f: Field<E>, a: seq<E>, b: seq<E>) returns (run: seq<System<E>>)
    requires f.Laws() && 0 < |a| <= f.maxSize && 0 < |b| <= f.maxSize
    ensures Run(f, run, true) && |run| == 5 && run[2] == CommittedTwice(f, a, b) && run[3] == AfterLoss(f, a, b)
    ensures run[4].truth == map[0 := a, 1 := b]
    ensures run[4].channel != [] && run[4].channel[0].packet == RepairPacket(RepairOf(f, a, b))
    ensures run[4].dec.sources == map[1 := b] && run[4].dec.repairs == map[] && run[4].dec.missing == map[]
    ensures run[4].dec.lastId == None
  {
    FirstFour(f, a, b);
    LostIs(f, a, b);
    hide *;
    var first := [Start(), Committed(f, a), CommittedTwice(f, a, b), AfterLoss(f, a, b)];
    var d := SecondArrives(f, b);
    SecondReceived(f, b);
    var s := DeliverTo(f, AfterLoss(f, a, b), d);
    RunExtends(f, first, true, s);
    run := first + [s];
  }

  lemma SecondReceived<E(!new)>(f: Field<E>, b: seq<E>)
    ensures forall d | SourceStep(f, Initial(true), Source(1, b), d) ::
              Receives(f, Initial(true), SourcePacket(Source(1, b)), d)
  {
    hide SourceStep;
  }

  lemma RepairReceived<E(!new)>(f: Field<E>, d: State<E>, r: Repair<E>, d': State<E>)
    requires r.ids != {} && RepairStep(f, d, r, d')
    ensures Receives(f, d, RepairPacket(r), d')
  {
    hide RepairStep;
  }

  /** There is a run that commits both sources, loses the first one before it is delivered, and ends with both of
      them handed over. */
  lemma LostSourceIsRecovered<E(!new)>(f: Field<E>, a: seq<E>, b: seq<E>) returns (run: seq<System<E>>)
    requires f.Laws() && 0 < |a| <= f.maxSize && 0 < |b| <= f.maxSize
    ensures Run(f, run, true) && |run| == 6
    ensures run[2].truth == map[0 := a, 1 := b] && LoseStep(run[2], run[3], 0)
    ensures run[2].channel != [] && run[2].channel[0].packet == SourcePacket(Source(0, a))
    ensures InLog(run[5].dec.log, 0) && InLog(run[5].dec.log, 1)
  {
    hide *;
    StepsToLoss(f, a, b);
    LostIs(f, a, b);
    var before := UpToSecond(f, a, b);
    var s := before[4];
    RunInv(f, before, true, 4);
    InvGives(f, s);
    CommittedIsSized(f, s);
    RepairHolds(f, s, a, b);
    RepairIds(f, a, b);
    var d := RepairArrives(f, s.truth, s.dec, RepairOf(f, a, b));
    RepairReceived(f, s.dec, RepairOf(f, a, b), d);
    var s' := DeliverTo(f, s, d);
    RunExtends(f, before, true, s');
    run := before + [s'];
    BothHandedOver(f, run);
  }

  lemma CommittedIsSized<E(!new)>(f: Field<E>, s: System<E>)
    requires EncoderOk(f, s.truth, s.enc)
    ensures TruthOk(f, s.truth)
  {
  }

  lemma LostIs<E(!new)>(f: Field<E>, a: seq<E>, b: seq<E>)
    ensures var s := AfterLoss(f, a, b);
            && |s.channel| == 2 && s.dec == Initial(true) && s.truth == map[0 := a, 1 := b]
            && s.channel[0].packet == SourcePacket(Source(1, b))
            && s.channel[1].packet == RepairPacket(RepairOf(f, a, b))
    ensures CommittedTwice(f, a, b).truth == map[0 := a, 1 := b]
    ensures CommittedTwice(f, a, b).channel != []
    ensures CommittedTwice(f, a, b).channel[0].packet == SourcePacket(Source(0, a))
  {
    hide RepairOf, Commit;
  }
}
