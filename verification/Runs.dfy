/** What holds in every run of encoder, network and decoder, whatever is committed, lost, acknowledged or
    reconfigured, and in whatever order this happens. */
module Runs {
  import opened GaloisField
  import opened Ids
  import opened Symbols
  import opened DecoderModel
  import opened EncoderModel
  import opened Peeling
  import opened Delivery
  import opened DecoderInvariant
  import opened DecoderSteps
  import opened InOrderDelivery
  import opened OrderedArrival
  import opened NestedDecoding
  import opened SavedIterator
  import opened Permanence
  import opened Transmission
  import opened AnyOrder

  ghost predicate Run<E(!new)>(f: Field<E>, run: seq<System<E>>, inOrder: bool) {
    && run != []
    && Init(run[0], inOrder)
    && forall i | 0 <= i < |run| - 1 :: Next(f, run[i], run[i + 1])
  }

  lemma RunExtends<E(!new)>(f: Field<E>, run: seq<System<E>>, inOrder: bool, s': System<E>)
    requires Run(f, run, inOrder) && Next(f, run[|run| - 1], s')
    ensures Run(f, run + [s'], inOrder)
  {
    hide Next, Init;
    var longer := run + [s'];
    forall i | 0 <= i < |longer| - 1
      ensures Next(f, longer[i], longer[i + 1])
    {
      if i < |run| - 1 {
        assert Next(f, run[i], run[i + 1]);
      }
    }
  }

  lemma {:induction false} RunInv<E(!new)>(f: Field<E>, run: seq<System<E>>, inOrder: bool, i: nat)
    requires f.Laws() && Run(f, run, inOrder) && i < |run|
    ensures Inv(f, run[i]) && run[i].dec.inOrder == inOrder
  {
    hide Inv, Next;
    if i == 0 {
      InitInv(f, run[0], inOrder);
    } else {
      RunInv(f, run, inOrder, i - 1);
      assert Next(f, run[i - 1], run[i - 1 + 1]);
      NextInv(f, run[i - 1], run[i]);
      ModeIsFixed(f, run[i - 1], run[i]);
    }
  }

  // ----- the decoder's assertions

  /** What the decoder's assertions ask of the next packet: the preconditions of `Decoder.ReceiveSource` and
      `Decoder.ReceiveRepair`, under which every one of them is proved. */
  ghost predicate Acceptable<E(!new)>(f: Field<E>, truth: Truth<E>, d: State<E>, p: Packet<E>) {
    TruthOk(f, truth) && Good(f, truth, d, {}) && Balanced(d) && MayReceive(f, truth, d, p)
  }

  lemma NextIsAcceptable<E(!new)>(f: Field<E>, s: System<E>)
    requires f.Laws() && Inv(f, s) && s.channel != []
    ensures Acceptable(f, s.truth, s.dec, s.channel[0].packet)
  {
    var p := s.channel[0];
    assert PacketOk(f, s, p);
    hide Good, Shape, Complete, Balanced, RepairOk, MayArrive, DropOutdated, Strippable, Alone, Links, Before;
    hide SourceKeepsIterators, RepairKeepsIterators;
    GoodGives(f, s.truth, s.dec, {});
    match p.packet
    case SourcePacket(src) =>
      EncodesKnown(s.dec, src.id);
      ShapeGives(s.dec);
      NothingReady(s.dec);
      NothingReadyKeeps(f, s.dec, src);
    case RepairPacket(r) =>
      WindowGives(s.dec, r.ids, p.born);
      NewRepairMayArrive(f, s.truth, s.dec, r.ids, s.seen, p.born);
      NewRepairKeeps(f, s.truth, s.dec, r, s.seen, p.born);
  }

  /** A later repair with a single unknown source meets no held repair, so nothing is scanned. */
  lemma NewRepairKeeps<E(!new)>(f: Field<E>, truth: Truth<E>, d: State<E>, r: Repair<E>, bound: nat, born: nat)
    requires Orderly(f, truth, d, bound) && bound <= born && r.ids != {} && Window(d, r.ids, born)
    ensures RepairKeepsIterators(d, r)
  {
    hide Good, Shape, Complete, Balanced, MayArrive, DropOutdated, Links, DegreeTwo, LoneKeepsIterators;
    var c := DropOutdated(d, Min(r.ids));
    WindowGives(d, r.ids, born);
    NewRepairMayArrive(f, truth, d, r.ids, bound, born);
    OutdatedOrderly(f, truth, d, Min(r.ids), bound);
    GoodGives(f, truth, c, {});
    ShapeGives(c);
    if |r.ids - c.sources.Keys| == 1 {
      NoneHeld(c, r.ids - c.sources.Keys);
    }
    NoRepairsKeep(c, r.ids - c.sources.Keys);
  }

  // ----- one step

  /** Nothing is taken back: what was committed, what the callback was given, what the decoder holds and has
      not given it yet, and how far the window has moved. */
  ghost predicate Advances<E>(s: System<E>, s': System<E>) {
    && s.truth.Keys <= s'.truth.Keys && (forall m | m in s.truth :: s'.truth[m] == s.truth[m])
    && s.dec.log <= s'.dec.log
    && Kept(s.dec, s'.dec)
    && StillResolved(s.dec, s'.dec)
    && LowMark(s.enc) <= LowMark(s'.enc) && s.enc.nextSource <= s'.enc.nextSource
  }

  lemma ReceiveKeeps<E(!new)>(f: Field<E>, truth: Truth<E>, d: State<E>, p: Packet<E>, d': State<E>)
    requires f.Laws() && Acceptable(f, truth, d, p) && Complete(d) && Receives(f, d, p, d')
    ensures Logged(d, d') && Kept(d, d') && StillResolved(d, d')
  {
    hide Good, Balanced, Complete, RepairOk, MayArrive, DropOutdated, Strippable, SourceStep, RepairStep;
    hide Logged, Kept, StillResolved, TruthOk;
    match p
    case SourcePacket(src) =>
      SourceStepKeeps(f, truth, d, src, d');
      SourceStepGood(f, truth, d, src, d');
    case RepairPacket(r) =>
      RepairStepKeeps(f, truth, d, r, d');
      RepairStepGood(f, truth, d, r, d');
  }

  lemma OnlyDecoderAdvances<E(!new)>(f: Field<E>, s: System<E>, s': System<E>)
    requires DeliverStep(f, s, s')
    requires Logged(s.dec, s'.dec) && Kept(s.dec, s'.dec) && StillResolved(s.dec, s'.dec)
    ensures Advances(s, s')
  {
    hide Receives, Kept, StillResolved;
  }

  lemma Delivered<E(!new)>(f: Field<E>, s: System<E>, s': System<E>)
    requires DeliverStep(f, s, s')
    ensures s.channel != [] && Receives(f, s.dec, s.channel[0].packet, s'.dec)
  {
  }

  lemma DeliverAdvances<E(!new)>(f: Field<E>, s: System<E>, s': System<E>)
    requires f.Laws() && Inv(f, s) && DeliverStep(f, s, s')
    ensures Advances(s, s')
  {
    hide *;
    Delivered(f, s, s');
    NextIsAcceptable(f, s);
    InvGives(f, s);
    ReceiveKeeps(f, s.truth, s.dec, s.channel[0].packet, s'.dec);
    OnlyDecoderAdvances(f, s, s');
  }

  lemma InvGives<E(!new)>(f: Field<E>, s: System<E>)
    requires Inv(f, s)
    ensures EncoderOk(f, s.truth, s.enc) && Good(f, s.truth, s.dec, {}) && Balanced(s.dec) && Complete(s.dec)
    ensures Shape(s.dec) && Low(s.dec) <= LowMark(s.enc)
  {
  }

  lemma CommitAdvances<E(!new)>(f: Field<E>, s: System<E>, s': System<E>, data: seq<E>)
    requires f.Laws() && Inv(f, s) && CommitStep(f, s, s', data)
    ensures Advances(s, s')
  {
    hide Inv, Commit, EncoderOk, NothingForgotten;
    CommitEncoder(f, s, s', data);
    KeptItself(s.dec);
  }

  lemma AckAdvances<E(!new)>(f: Field<E>, s: System<E>, s': System<E>, acked: set<nat>, received: nat)
    requires Inv(f, s) && DeliverAckStep(s, s', acked, received)
    ensures Advances(s, s')
  {
    InvGives(f, s);
    hide Inv, EncoderOk, Notify;
    NotifyKeeps(f, s.truth, s.enc, acked, received);
    NotifyIds(s.enc, acked, received);
    KeptItself(s.dec);
  }

  lemma OthersAdvance<E(!new)>(f: Field<E>, s: System<E>, s': System<E>)
    requires s'.dec == s.dec && s'.truth == s.truth
    requires s'.enc.window == s.enc.window && s'.enc.nextSource == s.enc.nextSource
    ensures Advances(s, s')
  {
    KeptItself(s.dec);
  }

  lemma NextAdvances<E(!new)>(f: Field<E>, s: System<E>, s': System<E>)
    requires f.Laws() && Inv(f, s) && Next(f, s, s')
    ensures Advances(s, s')
  {
    hide Inv, CommitStep, DeliverAckStep, DeliverStep, Advances, MakeRepair;
    if data: seq<E> :| CommitStep(f, s, s', data) {
      CommitAdvances(f, s, s', data);
    } else if DeliverStep(f, s, s') {
      DeliverAdvances(f, s, s');
    } else if acked: set<nat>, received: nat :| DeliverAckStep(s, s', acked, received) {
      AckAdvances(f, s, s', acked, received);
    } else {
      OthersAdvance(f, s, s');
    }
  }

  lemma AdvancesTwice<E>(a: System<E>, b: System<E>, c: System<E>)
    requires Advances(a, b) && Advances(b, c)
    ensures Advances(a, c)
  {
    forall m | m in a.dec.sources
      ensures m in c.dec.sources || InLog(c.dec.log, m)
    {
      if m !in b.dec.sources {
        PrefixInLog(b.dec.log, c.dec.log, m);
      }
    }
  }

  // ----- every run

  lemma {:induction false} RunAdvances<E(!new)>(f: Field<E>, run: seq<System<E>>, inOrder: bool, i: nat, j: nat)
    requires f.Laws() && Run(f, run, inOrder) && i <= j < |run|
    ensures Advances(run[i], run[j])
    decreases j
  {
    hide Next, Advances;
    if i == j {
      OthersAdvance(f, run[i], run[i]);
    } else {
      RunAdvances(f, run, inOrder, i, j - 1);
      RunInv(f, run, inOrder, j - 1);
      assert Next(f, run[j - 1], run[j - 1 + 1]);
      hide Inv;
      NextAdvances(f, run[j - 1], run[j]);
      AdvancesTwice(run[i], run[j - 1], run[j]);
    }
  }

  /** Whatever the decoder stores or hands over at any time is what was committed under that identifier, and
      no identifier is handed over twice; with in-order delivery identifiers only increase. */
  lemma DeliveredIsCommitted<E(!new)>(f: Field<E>, run: seq<System<E>>, inOrder: bool, i: nat, j: nat)
    requires f.Laws() && Run(f, run, inOrder) && i <= j < |run|
    ensures forall m | m in run[i].dec.sources :: m in run[j].truth && run[i].dec.sources[m] == run[j].truth[m]
    ensures forall k | 0 <= k < |run[i].dec.log| ::
              run[i].dec.log[k].id in run[j].truth && run[i].dec.log[k].data == run[j].truth[run[i].dec.log[k].id]
    ensures run[i].dec.log <= run[j].dec.log
    ensures forall k, l | 0 <= k < l < |run[j].dec.log| :: run[j].dec.log[k].id != run[j].dec.log[l].id
    ensures inOrder ==> forall k, l | 0 <= k < l < |run[j].dec.log| :: run[j].dec.log[k].id < run[j].dec.log[l].id
  {
    RunAdvances(f, run, inOrder, i, j);
    RunInv(f, run, inOrder, i);
    RunInv(f, run, inOrder, j);
    InvGives(f, run[i]);
    InvGives(f, run[j]);
    hide Inv, Run;
    GoodGives(f, run[i].truth, run[i].dec, {});
    GoodGives(f, run[j].truth, run[j].dec, {});
  }

  /** A source that the decoder held at some time is, at any later time, still held or has been handed over;
      and what is held is handed over at once, or waits for an older source that is not there. */
  lemma HeldIsDelivered<E(!new)>(f: Field<E>, run: seq<System<E>>, inOrder: bool, i: nat, j: nat, m: nat)
    requires f.Laws() && Run(f, run, inOrder) && i <= j < |run| && m in run[i].dec.sources
    ensures m in run[j].dec.sources || InLog(run[j].dec.log, m)
    ensures !inOrder || m < run[j].dec.firstMissing ==> InLog(run[j].dec.log, m)
    ensures inOrder && m !in run[j].dec.sources ==> InLog(run[j].dec.log, m)
    ensures inOrder ==> run[j].dec.firstMissing !in run[j].dec.sources
    ensures inOrder ==> run[j].dec.ordered == set x | x in run[j].dec.sources && run[j].dec.firstMissing < x
  {
    RunAdvances(f, run, inOrder, i, j);
    RunInv(f, run, inOrder, j);
    InvGives(f, run[j]);
    hide Inv, Run, Good, Complete;
    CompleteMeans(f, run[j].truth, run[j].dec);
  }

  lemma CompleteMeans<E(!new)>(f: Field<E>, truth: Truth<E>, d: State<E>)
    requires Complete(d)
    ensures forall m | m in d.sources && (!d.inOrder || m < d.firstMissing) :: InLog(d.log, m)
    ensures d.inOrder ==> d.firstMissing !in d.sources
    ensures d.inOrder ==> d.ordered == set x | x in d.sources && d.firstMissing < x
  {
  }

  /** A committed source leaves the window only when the decoder has had it, or when it is older than all that
      remains; an acknowledgement only lists sources the decoder has had. */
  lemma NothingIsForgotten<E(!new)>(f: Field<E>, run: seq<System<E>>, inOrder: bool, i: nat)
    requires f.Laws() && Run(f, run, inOrder) && i < |run|
    ensures forall m | m in run[i].truth ::
              m in WindowIds(run[i].enc.window) || m < LowMark(run[i].enc) || Resolved(run[i].dec, m)
    ensures forall acked, m | acked in run[i].acks && m in acked :: Resolved(run[i].dec, m)
    ensures WindowSorted(run[i].enc.window) && WindowTrue(run[i].truth, run[i].enc.window)
  {
    RunInv(f, run, inOrder, i);
    hide Orderly, PacketOk, Before, TruthOk;
  }

  /** In every reachable state the containers of the decoder agree, there are no repairs or fewer of them than
      missing sources, and the next packet meets all its assertions. */
  lemma DecoderNeverFails<E(!new)>(f: Field<E>, run: seq<System<E>>, inOrder: bool, i: nat)
    requires f.Laws() && Run(f, run, inOrder) && i < |run|
    ensures Links(run[i].dec)
    ensures |run[i].dec.repairs.Keys| == 0 || |run[i].dec.repairs.Keys| < |run[i].dec.missing.Keys|
    ensures forall k | k in run[i].dec.repairs :: |run[i].dec.repairs[k].ids| >= 2
    ensures run[i].channel != [] ==> Acceptable(f, run[i].truth, run[i].dec, run[i].channel[0].packet)
  {
    RunInv(f, run, inOrder, i);
    InvGives(f, run[i]);
    hide Good, Acceptable;
    GoodGives(f, run[i].truth, run[i].dec, {});
    if run[i].channel != [] {
      NextIsAcceptable(f, run[i]);
    }
  }

  /** The windows that repairs carry are nested: whatever a held repair still misses and is not older than the
      next repair is listed by that repair. */
  lemma WindowsAreNested<E(!new)>(f: Field<E>, run: seq<System<E>>, inOrder: bool, i: nat, k: nat, m: nat)
    requires f.Laws() && Run(f, run, inOrder) && i < |run|
    requires run[i].channel != [] && run[i].channel[0].packet.RepairPacket?
    requires k in run[i].dec.repairs && m in run[i].dec.repairs[k].ids
    ensures var ids := run[i].channel[0].packet.repair.ids;
            ids != {} && (Min(ids) <= m ==> m in ids)
  {
    RunInv(f, run, inOrder, i);
    var s, p := run[i], run[i].channel[0];
    InvGives(f, s);
    assert PacketOk(f, s, p);
    InvKnown(f, s);
    hide Inv, Run;
    HeldIsUnresolved(f, s.truth, s.dec, k, m);
  }

  lemma InvKnown<E(!new)>(f: Field<E>, s: System<E>)
    requires Inv(f, s)
    ensures KnownBelow(s.dec, s.seen)
  {
  }

  lemma HeldIsUnresolved<E(!new)>(f: Field<E>, truth: Truth<E>, d: State<E>, k: nat, m: nat)
    requires Good(f, truth, d, {}) && k in d.repairs && m in d.repairs[k].ids
    ensures m in d.missing && !Resolved(d, m)
  {
  }

  // ----- the size of the window

  lemma CommitWindow<E(!new)>(f: Field<E>, e: EncoderState<E>, data: seq<E>)
    requires e.windowSize > 0 && e.rate > 0 && |e.window| <= e.windowSize
    ensures var e' := Commit(f, e, data).0;
            |e'.window| <= e'.windowSize && e'.windowSize == e.windowSize
  {
  }

  ghost predicate Bounded<E>(e: EncoderState<E>) {
    |e.window| <= e.windowSize
  }

  lemma CommitBounded<E(!new)>(f: Field<E>, s: System<E>, s': System<E>, data: seq<E>)
    requires CommitStep(f, s, s', data) && Bounded(s.enc)
    ensures Bounded(s'.enc)
  {
    hide Commit;
    CommitWindow(f, s.enc, data);
  }

  lemma AckBounded<E(!new)>(f: Field<E>, s: System<E>, s': System<E>, acked: set<nat>, received: nat)
    requires EncoderOk(f, s.truth, s.enc) && DeliverAckStep(s, s', acked, received) && Bounded(s.enc)
    ensures Bounded(s'.enc)
  {
    hide EncoderOk, Notify;
    NotifyKeeps(f, s.truth, s.enc, acked, received);
    NotifySize(s.enc, acked, received);
  }

  lemma OthersBounded<E(!new)>(f: Field<E>, s: System<E>, s': System<E>)
    requires ForceStep(f, s, s') || DeliverStep(f, s, s') || SendAckStep(s, s') || LoseAckStep(s, s')
             || ConfigureStep(s, s') || exists i: nat :: LoseStep(s, s', i)
    requires Bounded(s.enc) && |s.enc.window| <= s'.enc.windowSize
    ensures Bounded(s'.enc)
  {
    hide Receives, MakeRepair;
  }

  lemma NextWindow<E(!new)>(f: Field<E>, s: System<E>, s': System<E>)
    requires Inv(f, s) && Next(f, s, s')
    requires Bounded(s.enc) && |s.enc.window| <= s'.enc.windowSize
    ensures Bounded(s'.enc)
  {
    InvGives(f, s);
    hide Inv, CommitStep, ForceStep, LoseStep, DeliverStep, SendAckStep, LoseAckStep, DeliverAckStep, ConfigureStep;
    hide EncoderOk, Good, Balanced, Complete, Shape;
    if data: seq<E> :| CommitStep(f, s, s', data) {
      CommitBounded(f, s, s', data);
    } else if acked: set<nat>, received: nat :| DeliverAckStep(s, s', acked, received) {
      AckBounded(f, s, s', acked, received);
    } else {
      OthersBounded(f, s, s');
    }
  }

  lemma NotifySize<E>(e: EncoderState<E>, acked: set<nat>, received: nat)
    ensures Notify(e, acked, received).windowSize == e.windowSize
  {
  }

  /** The window never exceeds its size, provided that the size is never set below the number of sources
      that the window holds at that time. */
  lemma {:induction false} WindowBounded<E(!new)>(f: Field<E>, run: seq<System<E>>, inOrder: bool, i: nat)
    requires f.Laws() && Run(f, run, inOrder) && i < |run|
    requires forall j | 0 <= j < |run| - 1 :: |run[j].enc.window| <= run[j + 1].enc.windowSize
    ensures |run[i].enc.window| <= run[i].enc.windowSize
  {
    hide Next, Inv;
    if i > 0 {
      WindowBounded(f, run, inOrder, i - 1);
      RunInv(f, run, inOrder, i - 1);
      assert Next(f, run[i - 1], run[i - 1 + 1]);
      assert |run[i - 1].enc.window| <= run[i - 1 + 1].enc.windowSize;
      NextWindow(f, run[i - 1], run[i]);
    }
  }
}
