/** Encoder, network and decoder together. The network may lose packets but delivers those that remain in
    the order in which they were sent; acknowledgements may be lost, delayed, repeated or reordered. */
module Transmission {
  import opened GaloisField
  import opened LinearAlgebra
  import opened Ids
  import opened Symbols
  import opened DecoderModel
  import opened EncoderModel
  import opened Delivery
  import opened DecoderInvariant
  import opened DecoderSteps
  import opened InOrderDelivery
  import opened OrderedArrival

  /** A packet on its way; `born` is how many sources had been committed when it was sent. */
  datatype InFlight<E> = InFlight(packet: Packet<E>, born: nat)

  /** `truth` records what was committed, and `seen` the value of `born` of the last packet delivered:
      both are for the statements only. An acknowledgement is the set of sources it lists. */
  datatype System<E> = System(
    enc: EncoderState<E>,
    channel: seq<InFlight<E>>,
    acks: set<set<nat>>,
    dec: State<E>,
    truth: Truth<E>,
    seen: nat)

  // ----- the steps

  function Sent<E>(packets: seq<Packet<E>>, born: nat): seq<InFlight<E>> {
    seq(|packets|, i requires 0 <= i < |packets| => InFlight(packets[i], born))
  }

  ghost predicate CommitStep<E(!new)>(f: Field<E>, s: System<E>, s': System<E>, data: seq<E>) {
    && 0 < |data| <= f.maxSize
    && s.enc.windowSize > 0 && s.enc.rate > 0
    && var (enc, packets) := Commit(f, s.enc, data);
       s' == s.(enc := enc,
                channel := s.channel + Sent(packets, s.enc.nextSource + 1),
                truth := s.truth[s.enc.nextSource := data])
  }

  /** `generate_repair`, called by the user. */
  ghost predicate ForceStep<E(!new)>(f: Field<E>, s: System<E>, s': System<E>) {
    && s.enc.window != []
    && var (enc, packets) := GenerateRepair(f, s.enc);
       s' == s.(enc := enc, channel := s.channel + Sent(packets, s.enc.nextSource))
  }

  ghost predicate LoseStep<E>(s: System<E>, s': System<E>, i: nat) {
    && i < |s.channel|
    && s' == s.(channel := s.channel[..i] + s.channel[i + 1..])
  }

  /** The decoder takes the oldest packet. While it works it may acknowledge, whenever the callback runs;
      what it then lists was stored before the step or is after it. */
  ghost predicate DeliverStep<E(!new)>(f: Field<E>, s: System<E>, s': System<E>) {
    && s.channel != []
    && Receives(f, s.dec, s.channel[0].packet, s'.dec)
    && s.acks <= s'.acks
    && (forall a | a in s'.acks - s.acks :: a <= s.dec.sources.Keys + s'.dec.sources.Keys)
    && s' == s.(dec := s'.dec, acks := s'.acks, channel := s.channel[1..], seen := s.channel[0].born)
  }

  ghost predicate Receives<E(!new)>(f: Field<E>, d: State<E>, p: Packet<E>, d': State<E>) {
    match p
    case SourcePacket(src) => SourceStep(f, d, src, d')
    case RepairPacket(r) => r.ids != {} && RepairStep(f, d, r, d')
  }

  /** `generate_ack`: every source the decoder holds is listed. */
  ghost predicate SendAckStep<E>(s: System<E>, s': System<E>) {
    s' == s.(acks := s.acks + {s.dec.sources.Keys})
  }

  ghost predicate LoseAckStep<E>(s: System<E>, s': System<E>) {
    s'.acks <= s.acks && s' == s.(acks := s'.acks)
  }

  /** An acknowledgement that was sent at any time arrives, with any count of received packets. */
  ghost predicate DeliverAckStep<E>(s: System<E>, s': System<E>, acked: set<nat>, received: nat) {
    && acked in s.acks
    && s' == s.(enc := Notify(s.enc, acked, received))
  }

  /** The user may change the settings of the encoder at any time. */
  ghost predicate ConfigureStep<E>(s: System<E>, s': System<E>) {
    && s'.enc.rate > 0
    && s'.enc.windowSize > 0
    && s' == s.(enc := s.enc.(rate := s'.enc.rate, windowSize := s'.enc.windowSize,
                              systematic := s'.enc.systematic, adaptive := s'.enc.adaptive))
  }

  ghost predicate Next<E(!new)>(f: Field<E>, s: System<E>, s': System<E>) {
    || (exists data: seq<E> :: CommitStep(f, s, s', data))
    || ForceStep(f, s, s')
    || (exists i: nat :: LoseStep(s, s', i))
    || DeliverStep(f, s, s')
    || SendAckStep(s, s')
    || LoseAckStep(s, s')
    || (exists acked: set<nat>, received: nat :: DeliverAckStep(s, s', acked, received))
    || ConfigureStep(s, s')
  }

  ghost predicate Init<E>(s: System<E>, inOrder: bool) {
    && s.enc.window == [] && s.enc.nextSource == 0 && s.enc.rate > 0 && s.enc.windowSize > 0
    && s.channel == [] && s.acks == {} && s.truth == map[] && s.seen == 0
    && s.dec == Initial(inOrder)
  }

  // ----- the invariant

  /** A committed source from the low mark on is still in the window, or the decoder is done with it. */
  ghost predicate NothingForgotten<E>(enc: EncoderState<E>, dec: State<E>) {
    forall m | LowMark(enc) <= m < enc.nextSource :: m in WindowIds(enc.window) || Resolved(dec, m)
  }

  ghost predicate PacketOk<E(!new)>(f: Field<E>, s: System<E>, p: InFlight<E>) {
    && s.seen <= p.born <= s.enc.nextSource
    && match p.packet
       case SourcePacket(src) =>
         src.id + 1 == p.born && s.seen <= src.id && src.id in s.truth && s.truth[src.id] == src.data
       case RepairPacket(r) =>
         r.ids != {} && RepairOk(f, s.truth, r) && Window(s.dec, r.ids, p.born) && Min(r.ids) <= LowMark(s.enc)
  }

  ghost predicate Before<E>(a: InFlight<E>, b: InFlight<E>) {
    && a.born <= b.born
    && (b.packet.SourcePacket? ==> a.born <= b.packet.source.id)
    && (a.packet.RepairPacket? && b.packet.RepairPacket? && a.packet.repair.ids != {} && b.packet.repair.ids != {} ==>
          Min(a.packet.repair.ids) <= Min(b.packet.repair.ids))
  }

  ghost predicate Inv<E(!new)>(f: Field<E>, s: System<E>) {
    && EncoderOk(f, s.truth, s.enc)
    && Orderly(f, s.truth, s.dec, s.seen)
    && s.seen <= s.enc.nextSource
    && Low(s.dec) <= LowMark(s.enc)
    && NothingForgotten(s.enc, s.dec)
    && (forall a, m | a in s.acks && m in a :: Resolved(s.dec, m))
    && (forall i | 0 <= i < |s.channel| :: PacketOk(f, s, s.channel[i]))
    && (forall i, j | 0 <= i < j < |s.channel| :: Before(s.channel[i], s.channel[j]))
  }

  // ----- growing truth

  lemma GoodGrows<E(!new)>(f: Field<E>, truth: Truth<E>, truth': Truth<E>, d: State<E>)
    requires Good(f, truth, d, {})
    requires truth.Keys <= truth'.Keys && forall s | s in truth :: truth'[s] == truth[s]
    ensures Good(f, truth', d, {})
  {
    forall k | k in d.repairs
      ensures RepairOk(f, truth', d.repairs[k])
    {
      RepairOkGrows(f, truth, truth', d.repairs[k]);
    }
  }

  // ----- each step keeps the invariant

  lemma InitialOrderly<E(!new)>(f: Field<E>, truth: Truth<E>, d: State<E>, inOrder: bool)
    requires truth == map[] && d == Initial(inOrder)
    ensures Orderly(f, truth, d, 0)
  {
  }

  lemma InitInv<E(!new)>(f: Field<E>, s: System<E>, inOrder: bool)
    requires Init(s, inOrder)
    ensures Inv(f, s)
  {
    hide Orderly;
    InitialOrderly(f, s.truth, s.dec, inOrder);
  }

  lemma LoseInv<E(!new)>(f: Field<E>, s: System<E>, s': System<E>, i: nat)
    requires Inv(f, s) && LoseStep(s, s', i)
    ensures Inv(f, s')
  {
    hide Orderly, EncoderOk, NothingForgotten, Before;
    forall j | 0 <= j < |s'.channel|
      ensures PacketOk(f, s', s'.channel[j])
    {
      assert s'.channel[j] == s.channel[if j < i then j else j + 1];
    }
    forall j, k | 0 <= j < k < |s'.channel|
      ensures Before(s'.channel[j], s'.channel[k])
    {
      assert s'.channel[j] == s.channel[if j < i then j else j + 1];
      assert s'.channel[k] == s.channel[if k < i then k else k + 1];
    }
  }

  lemma AcksOnlyInv<E(!new)>(f: Field<E>, s: System<E>, s': System<E>)
    requires Inv(f, s) && (SendAckStep(s, s') || LoseAckStep(s, s'))
    ensures Inv(f, s')
  {
    hide Orderly, EncoderOk, NothingForgotten, Before, Window, RepairOk;
  }

  lemma ConfigureInv<E(!new)>(f: Field<E>, s: System<E>, s': System<E>)
    requires Inv(f, s) && ConfigureStep(s, s')
    ensures Inv(f, s')
  {
    hide Orderly, Before, Window, RepairOk;
  }

  // ----- delivering a packet

  lemma WindowLater<E>(d: State<E>, d': State<E>, ids: set<nat>, born: nat)
    requires ids != {} && Window(d, ids, born) && StillResolved(d, d') && Low(d') <= Min(ids)
    ensures Window(d', ids, born)
  {
  }

  lemma DeliverSource<E(!new)>(f: Field<E>, s: System<E>, s': System<E>)
    requires f.Laws() && Inv(f, s) && DeliverStep(f, s, s') && s.channel[0].packet.SourcePacket?
    ensures Orderly(f, s.truth, s'.dec, s'.seen) && StillResolved(s.dec, s'.dec) && Low(s'.dec) == Low(s.dec)
  {
    hide Orderly, Before, Window, RepairOk, NothingForgotten, SourceStep;
    NewSourceOrderly(f, s.truth, s.dec, s.channel[0].packet.source, s'.dec, s.seen);
  }

  lemma DeliverRepair<E(!new)>(f: Field<E>, s: System<E>, s': System<E>)
    requires f.Laws() && Inv(f, s) && DeliverStep(f, s, s') && s.channel[0].packet.RepairPacket?
    ensures Orderly(f, s.truth, s'.dec, s'.seen) && StillResolved(s.dec, s'.dec)
    ensures s.channel[0].packet.repair.ids != {}
    ensures Low(s.dec) <= Low(s'.dec) <= Min(s.channel[0].packet.repair.ids)
    ensures MayArrive(DropOutdated(s.dec, Min(s.channel[0].packet.repair.ids)), s.channel[0].packet.repair.ids)
  {
    hide Orderly, Before, Window, RepairOk, NothingForgotten, RepairStep, MayArrive, DropOutdated;
    var p := s.channel[0];
    NewRepairOrderly(f, s.truth, s.dec, p.packet.repair, s'.dec, s.seen, p.born);
    NewRepairMayArrive(f, s.truth, s.dec, p.packet.repair.ids, s.seen, p.born);
  }

  /** The packets behind the one delivered stay acceptable. */
  lemma RestOk<E(!new)>(f: Field<E>, s: System<E>, s': System<E>)
    requires Inv(f, s) && DeliverStep(f, s, s') && StillResolved(s.dec, s'.dec)
    requires match s.channel[0].packet
             case SourcePacket(_) => Low(s'.dec) == Low(s.dec)
             case RepairPacket(r) => r.ids != {} && Low(s'.dec) <= Min(r.ids)
    ensures forall i | 0 <= i < |s'.channel| :: PacketOk(f, s', s'.channel[i])
    ensures forall i, j | 0 <= i < j < |s'.channel| :: Before(s'.channel[i], s'.channel[j])
  {
    hide Orderly, RepairOk, NothingForgotten, SourceStep, RepairStep, StillResolved, Window;
    forall i | 0 <= i < |s'.channel|
      ensures PacketOk(f, s', s'.channel[i])
    {
      var p := s.channel[i + 1];
      assert s'.channel[i] == p;
      assert PacketOk(f, s, p) && Before(s.channel[0], p);
      if p.packet.RepairPacket? {
        WindowGives(s.dec, p.packet.repair.ids, p.born);
        WindowLater(s.dec, s'.dec, p.packet.repair.ids, p.born);
      }
    }
  }

  lemma NothingForgottenLater<E>(enc: EncoderState<E>, d: State<E>, d': State<E>)
    requires NothingForgotten(enc, d) && StillResolved(d, d')
    ensures NothingForgotten(enc, d')
  {
  }

  lemma AcksLater<E>(s: System<E>, s': System<E>)
    requires forall a, m | a in s.acks && m in a :: Resolved(s.dec, m)
    requires forall a | a in s'.acks - s.acks :: a <= s.dec.sources.Keys + s'.dec.sources.Keys
    requires StillResolved(s.dec, s'.dec)
    ensures forall a, m | a in s'.acks && m in a :: Resolved(s'.dec, m)
  {
    forall a, m | a in s'.acks && m in a
      ensures Resolved(s'.dec, m)
    {
      if a in s.acks || m in s.dec.sources {
        assert Resolved(s.dec, m);
      } else {
        assert a in s'.acks - s.acks;
      }
    }
  }

  lemma DeliverInv<E(!new)>(f: Field<E>, s: System<E>, s': System<E>)
    requires f.Laws() && Inv(f, s) && DeliverStep(f, s, s')
    ensures Inv(f, s')
  {
    hide Orderly, RepairOk, NothingForgotten, SourceStep, RepairStep, StillResolved, Window, Before, EncoderOk;
    assert PacketOk(f, s, s.channel[0]);
    if s.channel[0].packet.SourcePacket? {
      DeliverSource(f, s, s');
    } else {
      DeliverRepair(f, s, s');
    }
    RestOk(f, s, s');
    hide PacketOk;
    NothingForgottenLater(s.enc, s.dec, s'.dec);
    AcksLater(s, s');
  }

  // ----- delivering an acknowledgement

  lemma NotifyKeeps<E(!new)>(f: Field<E>, truth: Truth<E>, e: EncoderState<E>, acked: set<nat>, received: nat)
    requires EncoderOk(f, truth, e)
    ensures EncoderOk(f, truth, Notify(e, acked, received))
    ensures LowMark(e) <= LowMark(Notify(e, acked, received))
    ensures WindowIds(Notify(e, acked, received).window) == WindowIds(e.window) - acked
    ensures |Notify(e, acked, received).window| <= |e.window|
  {
    var e' := Notify(e, acked, received);
    AdaptedRateBounds(e.sentPackets, received);
    UnacknowledgedKeeps(e.window, acked);
    forall i | 0 <= i < |e'.window|
      ensures e'.window[i].id in truth && truth[e'.window[i].id] == e'.window[i].data
    {
      var j :| 0 <= j < |e.window| && e.window[j] == e'.window[i];
    }
    if e'.window != [] {
      var j :| 0 <= j < |e.window| && e.window[j] == e'.window[0];
    } else if e.window != [] {
      assert e.window[0].id in truth;
    }
  }

  lemma PacketOkLater<E(!new)>(f: Field<E>, s: System<E>, s': System<E>, p: InFlight<E>)
    requires PacketOk(f, s, p) && s'.dec == s.dec && s'.truth == s.truth && s'.seen == s.seen
    requires s.enc.nextSource <= s'.enc.nextSource && LowMark(s.enc) <= LowMark(s'.enc)
    ensures PacketOk(f, s', p)
  {
  }

  lemma DeliverAckInv<E(!new)>(f: Field<E>, s: System<E>, s': System<E>, acked: set<nat>, received: nat)
    requires Inv(f, s) && DeliverAckStep(s, s', acked, received)
    ensures Inv(f, s')
  {
    hide Orderly, Before, EncoderOk, PacketOk, Notify;
    NotifyKeeps(f, s.truth, s.enc, acked, received);
    NotifyIds(s.enc, acked, received);
    forall i | 0 <= i < |s'.channel| {
      PacketOkLater(f, s, s', s.channel[i]);
    }
  }

  lemma NotifyIds<E>(e: EncoderState<E>, acked: set<nat>, received: nat)
    ensures Notify(e, acked, received).nextSource == e.nextSource
  {
  }

  // ----- committing

  ghost predicate FromCommit<E(!new)>(f: Field<E>, p: Packet<E>, src: Source<E>, w: seq<Source<E>>)
    requires w != []
  {
    match p
    case SourcePacket(x) => x == src
    case RepairPacket(r) => r == MakeRepair(f, r.id, w)
  }

  /** A commit slides the window and sends the source, if at all, before the repairs of the new window. */
  lemma CommitEffect<E(!new)>(f: Field<E>, e: EncoderState<E>, data: seq<E>)
    requires e.windowSize > 0 && e.rate > 0
    ensures var (e', packets) := Commit(f, e, data);
            && e'.window == Slide(e, data) && e'.nextSource == e.nextSource + 1
            && e'.rate == e.rate && e'.windowSize == e.windowSize
            && (forall i | 0 <= i < |packets| ::
                  FromCommit(f, packets[i], Source(e.nextSource, data), Slide(e, data)))
            && (forall i | 0 <= i < |packets| && packets[i].SourcePacket? :: i == 0)
  {
  }

  lemma NewPacketOk<E(!new)>(f: Field<E>, s: System<E>, p: Packet<E>, src: Source<E>)
    requires f.Laws() && EncoderOk(f, s.truth, s.enc) && s.enc.window != []
    requires s.seen <= src.id && src.id + 1 == s.enc.nextSource && src.id in s.truth && s.truth[src.id] == src.data
    requires Low(s.dec) <= LowMark(s.enc) && NothingForgotten(s.enc, s.dec)
    requires FromCommit(f, p, src, s.enc.window)
    ensures PacketOk(f, s, InFlight(p, s.enc.nextSource))
    ensures p.RepairPacket? ==> p.repair.ids != {} && Min(p.repair.ids) == LowMark(s.enc)
  {
    if p.RepairPacket? {
      NewRepairOk(f, s, p.repair);
    }
  }

  lemma NewRepairOk<E(!new)>(f: Field<E>, s: System<E>, r: Repair<E>)
    requires f.Laws() && EncoderOk(f, s.truth, s.enc) && s.enc.window != [] && s.seen <= s.enc.nextSource
    requires Low(s.dec) <= LowMark(s.enc) && NothingForgotten(s.enc, s.dec)
    requires r == MakeRepair(f, r.id, s.enc.window)
    ensures PacketOk(f, s, InFlight(RepairPacket(r), s.enc.nextSource))
    ensures r.ids != {} && Min(r.ids) == LowMark(s.enc)
  {
    MakeRepairOk(f, s.truth, r.id, s.enc.window);
    WindowMin(s.enc.window);
    WindowBelow(f, s.truth, s.enc);
  }

  /** Packets sent now come after everything on its way. */
  lemma AppendChannel<E(!new)>(f: Field<E>, s: System<E>, channel: seq<InFlight<E>>, packets: seq<Packet<E>>, born: nat)
    requires s.channel == channel + Sent(packets, born)
    requires forall i | 0 <= i < |channel| :: PacketOk(f, s, channel[i])
    requires forall i, j | 0 <= i < j < |channel| :: Before(channel[i], channel[j])
    requires forall i | 0 <= i < |packets| :: PacketOk(f, s, InFlight(packets[i], born))
    requires forall i | 0 <= i < |packets| && packets[i].RepairPacket? ::
               packets[i].repair.ids != {} && Min(packets[i].repair.ids) == LowMark(s.enc)
    requires forall i | 0 <= i < |packets| && packets[i].SourcePacket? ::
               i == 0 && forall j | 0 <= j < |channel| :: channel[j].born <= packets[i].source.id
    requires forall j | 0 <= j < |channel| :: channel[j].born <= born
    ensures forall i | 0 <= i < |s.channel| :: PacketOk(f, s, s.channel[i])
    ensures forall i, j | 0 <= i < j < |s.channel| :: Before(s.channel[i], s.channel[j])
  {
    hide Window, RepairOk;
    var sent := Sent(packets, born);
    var n := |channel|;
    forall i, j | 0 <= i < j < |s.channel|
      ensures Before(s.channel[i], s.channel[j])
    {
      assert s.channel[i] == if i < n then channel[i] else sent[i - n];
      assert s.channel[j] == if j < n then channel[j] else sent[j - n];
      if i < n {
        assert PacketOk(f, s, channel[i]);
      }
    }
  }

  lemma PacketOkGrows<E(!new)>(f: Field<E>, s: System<E>, s': System<E>, p: InFlight<E>)
    requires PacketOk(f, s, p) && s'.dec == s.dec && s'.seen == s.seen
    requires s.truth.Keys <= s'.truth.Keys && forall x | x in s.truth :: s'.truth[x] == s.truth[x]
    requires s.enc.nextSource <= s'.enc.nextSource && LowMark(s.enc) <= LowMark(s'.enc)
    ensures PacketOk(f, s', p)
  {
    if p.packet.RepairPacket? {
      RepairOkGrows(f, s.truth, s'.truth, p.packet.repair);
    }
  }

  lemma CommitEncoder<E(!new)>(f: Field<E>, s: System<E>, s': System<E>, data: seq<E>)
    requires f.Laws() && Inv(f, s) && CommitStep(f, s, s', data)
    ensures EncoderOk(f, s'.truth, s'.enc) && s'.enc.window != [] && s'.enc.nextSource == s.enc.nextSource + 1
    ensures LowMark(s.enc) <= LowMark(s'.enc) && NothingForgotten(s'.enc, s'.dec)
    ensures s.enc.nextSource !in s.truth
  {
    hide Orderly, PacketOk, Before, Commit, Slide;
    CommitEffect(f, s.enc, data);
    SlideKeeps(f, s.truth, s.enc, data);
  }

  lemma OrderlyGrows<E(!new)>(f: Field<E>, truth: Truth<E>, truth': Truth<E>, d: State<E>, bound: nat)
    requires Orderly(f, truth, d, bound)
    requires truth.Keys <= truth'.Keys && forall s | s in truth :: truth'[s] == truth[s]
    ensures Orderly(f, truth', d, bound)
  {
    hide Good, Shape, Complete, Balanced;
    GoodGrows(f, truth, truth', d);
  }

  lemma CommitPackets<E(!new)>(f: Field<E>, s: System<E>, s': System<E>, data: seq<E>, packets: seq<Packet<E>>)
    requires f.Laws() && Inv(f, s) && CommitStep(f, s, s', data) && packets == Commit(f, s.enc, data).1
    ensures forall i | 0 <= i < |packets| :: PacketOk(f, s', InFlight(packets[i], s'.enc.nextSource))
    ensures forall i | 0 <= i < |packets| && packets[i].RepairPacket? ::
              packets[i].repair.ids != {} && Min(packets[i].repair.ids) == LowMark(s'.enc)
    ensures forall i | 0 <= i < |packets| && packets[i].SourcePacket? ::
              i == 0 && packets[i].source.id == s.enc.nextSource
  {
    CommitEncoder(f, s, s', data);
    hide Orderly, PacketOk, Before, EncoderOk, Commit, Slide, NothingForgotten, LowMark, Inv;
    var src := Source(s.enc.nextSource, data);
    CommitEffect(f, s.enc, data);
    InvSeen(f, s);
    forall i | 0 <= i < |packets|
      ensures PacketOk(f, s', InFlight(packets[i], s'.enc.nextSource))
      ensures packets[i].RepairPacket? ==> packets[i].repair.ids != {} && Min(packets[i].repair.ids) == LowMark(s'.enc)
    {
      NewPacketOk(f, s', packets[i], src);
    }
  }

  lemma InvSeen<E(!new)>(f: Field<E>, s: System<E>)
    requires Inv(f, s)
    ensures s.seen <= s.enc.nextSource && Low(s.dec) <= LowMark(s.enc)
  {
  }

  lemma CommitChannel<E(!new)>(f: Field<E>, s: System<E>, s': System<E>, data: seq<E>)
    requires f.Laws() && Inv(f, s) && CommitStep(f, s, s', data)
    ensures forall i | 0 <= i < |s'.channel| :: PacketOk(f, s', s'.channel[i])
    ensures forall i, j | 0 <= i < j < |s'.channel| :: Before(s'.channel[i], s'.channel[j])
  {
    hide Orderly, PacketOk, Before, EncoderOk, Commit, Slide, NothingForgotten, LowMark, Sent, RepairOk, Low;
    CommitEncoder(f, s, s', data);
    var packets := Commit(f, s.enc, data).1;
    CommitPackets(f, s, s', data, packets);
    forall i | 0 <= i < |s.channel|
      ensures PacketOk(f, s', s.channel[i]) && s.channel[i].born <= s.enc.nextSource
    {
      PacketOkGrows(f, s, s', s.channel[i]);
      PacketBorn(f, s, s.channel[i]);
    }
    AppendChannel(f, s', s.channel, packets, s'.enc.nextSource);
  }

  lemma CommitInv<E(!new)>(f: Field<E>, s: System<E>, s': System<E>, data: seq<E>)
    requires f.Laws() && Inv(f, s) && CommitStep(f, s, s', data)
    ensures Inv(f, s')
  {
    hide Orderly, PacketOk, Before, EncoderOk, Commit, Slide, NothingForgotten;
    CommitEncoder(f, s, s', data);
    CommitChannel(f, s, s', data);
    OrderlyGrows(f, s.truth, s'.truth, s.dec, s.seen);
  }

  lemma PacketBorn<E(!new)>(f: Field<E>, s: System<E>, p: InFlight<E>)
    requires PacketOk(f, s, p)
    ensures s.seen <= p.born <= s.enc.nextSource
  {
  }

  lemma ForceInv<E(!new)>(f: Field<E>, s: System<E>, s': System<E>)
    requires f.Laws() && Inv(f, s) && ForceStep(f, s, s')
    ensures Inv(f, s')
  {
    hide Orderly, PacketOk, Before, MakeRepair;
    var (_, packets) := GenerateRepair(f, s.enc);
    forall i | 0 <= i < |s.channel|
      ensures PacketOk(f, s', s.channel[i]) && s.channel[i].born <= s.enc.nextSource
    {
      PacketOkLater(f, s, s', s.channel[i]);
      PacketBorn(f, s, s.channel[i]);
    }
    NewRepairOk(f, s', packets[0].repair);
    AppendChannel(f, s', s.channel, packets, s.enc.nextSource);
  }

  // ----- every step

  /** Every step keeps the invariant. */
  lemma NextInv<E(!new)>(f: Field<E>, s: System<E>, s': System<E>)
    requires f.Laws() && Inv(f, s) && Next(f, s, s')
    ensures Inv(f, s')
  {
    hide Inv, CommitStep, LoseStep, DeliverAckStep, ForceStep, DeliverStep, SendAckStep, LoseAckStep, ConfigureStep;
    if data: seq<E> :| CommitStep(f, s, s', data) {
      CommitInv(f, s, s', data);
    } else if ForceStep(f, s, s') {
      ForceInv(f, s, s');
    } else if i: nat :| LoseStep(s, s', i) {
      LoseInv(f, s, s', i);
    } else if DeliverStep(f, s, s') {
      DeliverInv(f, s, s');
    } else if SendAckStep(s, s') || LoseAckStep(s, s') {
      AcksOnlyInv(f, s, s');
    } else if acked: set<nat>, received: nat :| DeliverAckStep(s, s', acked, received) {
      DeliverAckInv(f, s, s', acked, received);
    } else {
      ConfigureInv(f, s, s');
    }
  }

  lemma FullStepMode<E(!new)>(f: Field<E>, d: State<E>, d': State<E>)
    requires FullStep(f, d, d')
    ensures d'.inOrder == d.inOrder
  {
    hide Coefficients, Singular, LeftInverse, RebuiltAll;
  }

  lemma ReceivesMode<E(!new)>(f: Field<E>, d: State<E>, p: Packet<E>, d': State<E>)
    requires Receives(f, d, p, d')
    ensures d'.inOrder == d.inOrder
  {
    hide FullStep, Add, Announce;
    match p
    case SourcePacket(src) =>
      if !IsOld(d, src.id) && src.id !in d.sources {
        FullStepMode(f, Add(f, d, src), d');
      }
    case RepairPacket(r) =>
      if !IsOld(d, Max(r.ids)) && r.id !in d.repairs {
        var c := DropOutdated(d, Min(r.ids));
        if !(r.ids <= c.sources.Keys) {
          var s := StripKnown(f, r, c.sources, r.ids * c.sources.Keys);
          if |s.ids| != 1 {
            FullStepMode(f, Link(c, s), d');
          }
        }
      }
  }

  lemma ModeIsFixed<E(!new)>(f: Field<E>, s: System<E>, s': System<E>)
    requires Next(f, s, s')
    ensures s'.dec.inOrder == s.dec.inOrder
  {
    hide Receives, Commit, GenerateRepair, Notify;
    if DeliverStep(f, s, s') {
      ReceivesMode(f, s.dec, s.channel[0].packet, s'.dec);
    }
  }
}
