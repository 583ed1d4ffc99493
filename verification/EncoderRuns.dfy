/** Any series of calls of the encoder, with acknowledgements and changes of its settings in between: what its counters
    are then, how what it sent is numbered, and from which loss it takes its rate. */
module EncoderRuns {
  import opened GaloisField
  import opened EncoderModel
  import opened Cadence
  import opened Rates

  datatype Call<E> =
    | CommitCall(data: seq<E>)
    | ForceCall
    | AckCall(acked: set<nat>, received: nat)
    | SetCall(rate: nat, windowSize: nat, systematic: bool, adaptive: bool)

  ghost predicate Performs<E(!new)>(f: Field<E>, e: EncoderState<E>, c: Call<E>, e': EncoderState<E>,
          sent: seq<Packet<E>>) {
    match c
    case CommitCall(data) => e.windowSize > 0 && e.rate > 0 && (e', sent) == Commit(f, e, data)
    case ForceCall => e.window != [] && (e', sent) == GenerateRepair(f, e)
    case AckCall(acked, received) => sent == [] && e' == Notify(e, acked, received)
    case SetCall(rate, windowSize, systematic, adaptive) =>
      sent == [] && e' == e.(rate := rate, windowSize := windowSize, systematic := systematic, adaptive := adaptive)
  }

  /** From the start: `sent[i]` is what call `i` sends. */
  ghost predicate Calls<E(!new)>(f: Field<E>, es: seq<EncoderState<E>>, cs: seq<Call<E>>, sent: seq<seq<Packet<E>>>) {
    && |es| == |cs| + 1 && |sent| == |cs|
    && es[0] == EncoderState([], 0, 0, 5, es[0].windowSize, true, false, 0, 0, 0, 0)
    && forall i | 0 <= i < |cs| :: Performs(f, es[i], cs[i], es[i + 1], sent[i])
  }

  // ----- what was sent

  ghost function AllSent<E>(sent: seq<seq<Packet<E>>>, n: nat): seq<Packet<E>>
    requires n <= |sent|
  {
    if n == 0 then [] else AllSent(sent, n - 1) + sent[n - 1]
  }

  /** How many packets were sent after the last acknowledgement. */
  ghost function SinceAck<E>(cs: seq<Call<E>>, sent: seq<seq<Packet<E>>>, n: nat): nat
    requires n <= |sent| == |cs|
  {
    if n == 0 || cs[n - 1].AckCall? then 0 else SinceAck(cs, sent, n - 1) + |sent[n - 1]|
  }

  ghost function Commits<E>(cs: seq<Call<E>>, n: nat): nat
    requires n <= |cs|
  {
    if n == 0 then 0 else Commits(cs, n - 1) + if cs[n - 1].CommitCall? then 1 else 0
  }

  ghost function Acks<E>(cs: seq<Call<E>>, n: nat): nat
    requires n <= |cs|
  {
    if n == 0 then 0 else Acks(cs, n - 1) + if cs[n - 1].AckCall? then 1 else 0
  }

  /** A counter of 16 bits. */
  ghost function In16(n: nat): nat {
    n % 65536
  }

  ghost predicate InStep<E>(e: EncoderState<E>, packets: seq<Packet<E>>, since: nat, commits: nat, acks: nat) {
    && e.sentSources == |SourceIds(packets)|
    && RepairIds(packets) == Range(0, e.sentRepairs) && e.nextRepair == e.sentRepairs
    && e.sentPackets == In16(since)
    && e.nextSource == commits && e.receivedAcks == acks
  }

  // ----- one call

  /** An acknowledgement restarts the count of sent packets and adds one to the acknowledgements; it changes the rate
      only in adaptive mode, and besides the window nothing else. */
  lemma AckChanges<E>(e: EncoderState<E>, acked: set<nat>, received: nat)
    ensures var e' := Notify(e, acked, received);
            && e'.sentPackets == 0 && e'.receivedAcks == e.receivedAcks + 1
            && (if e.adaptive then RateFor(e.sentPackets, received, e'.rate) else e'.rate == e.rate)
            && e'.nextSource == e.nextSource && e'.nextRepair == e.nextRepair
            && e'.sentSources == e.sentSources && e'.sentRepairs == e.sentRepairs
            && e'.windowSize == e.windowSize && e'.systematic == e.systematic && e'.adaptive == e.adaptive
  {
    AdaptedRateBounds(e.sentPackets, received);
    AdaptedRateExactly(e.sentPackets, received, AdaptedRate(e.sentPackets, received));
    hide AdaptedRate, Unacknowledged;
  }

  /** Sending leaves a counter of 16 bits, and the number of acknowledgements. */
  lemma SendingKeeps<E(!new)>(f: Field<E>, e: EncoderState<E>)
    requires e.window != []
    ensures GenerateRepair(f, e).0.sentPackets < 65536 && GenerateRepair(f, e).0.receivedAcks == e.receivedAcks
    ensures SendNew(f, e).0.sentPackets < 65536 && SendNew(f, e).0.receivedAcks == e.receivedAcks
    ensures SendNew(f, e).0.window == e.window
  {
    hide MakeRepair;
  }

  lemma CommitCounts<E(!new)>(f: Field<E>, e: EncoderState<E>, data: seq<E>)
    requires e.windowSize > 0 && e.rate > 0
    ensures var e' := Commit(f, e, data).0;
            e'.sentPackets < 65536 && e'.receivedAcks == e.receivedAcks && e'.nextSource == e.nextSource + 1
  {
    var slid := e.(window := Slide(e, data));
    SlideEnds(e, data);
    SendingKeeps(f, slid);
    SendingKeeps(f, SendNew(f, slid).0);
    hide SendNew, GenerateRepair, Slide;
  }

  lemma Extends<E>(e: EncoderState<E>, packets: seq<Packet<E>>, since: nat, commits: nat, acks: nat,
          e': EncoderState<E>, sent: seq<Packet<E>>)
    requires InStep(e, packets, since, commits, acks) && Counted(e, e', sent) && e'.sentPackets < 65536
    requires exists n: nat :: RepairIds(sent) == Range(e.nextRepair, n)
    requires e'.receivedAcks == e.receivedAcks
    ensures InStep(e', packets + sent, since + |sent|, e'.nextSource, acks)
  {
    hide SourceIds, RepairIds, Range, In16, Counted;
    IdsJoin(packets, sent);
    var n: nat :| RepairIds(sent) == Range(e.nextRepair, n);
    RangeJoins(0, e.nextRepair, n);
    RangeSize(e.nextRepair, n);
    CountedGives(e, e', sent);
    CountedIn16(e, since, sent, e');
  }

  lemma CountedGives<E>(e: EncoderState<E>, e': EncoderState<E>, sent: seq<Packet<E>>)
    requires Counted(e, e', sent)
    ensures e'.sentSources == e.sentSources + |SourceIds(sent)|
    ensures e'.sentRepairs == e.sentRepairs + |RepairIds(sent)| && e'.nextRepair == e.nextRepair + |RepairIds(sent)|
  {
  }

  lemma CountedIn16<E>(e: EncoderState<E>, since: nat, sent: seq<Packet<E>>, e': EncoderState<E>)
    requires Counted(e, e', sent) && e.sentPackets == In16(since) && e'.sentPackets < 65536
    ensures e'.sentPackets == In16(since + |sent|)
  {
    hide SourceIds, RepairIds;
    AddModulo(e.sentPackets, since, |sent|);
  }

  lemma OneCall<E(!new)>(f: Field<E>, e: EncoderState<E>, c: Call<E>, e': EncoderState<E>, sent: seq<Packet<E>>,
          packets: seq<Packet<E>>, since: nat, commits: nat, acks: nat)
    requires InStep(e, packets, since, commits, acks) && Performs(f, e, c, e', sent)
    ensures InStep(e', packets + sent, if c.AckCall? then 0 else since + |sent|,
                   commits + (if c.CommitCall? then 1 else 0), acks + if c.AckCall? then 1 else 0)
  {
    hide Commit, GenerateRepair, Notify, SourceIds, RepairIds, Range, Counted;
    match c
    case CommitCall(data) =>
      OneCommit(f, e, data);
      CommitCounts(f, e, data);
      Extends(e, packets, since, commits, acks, e', sent);
    case ForceCall =>
      OneRepair(f, e);
      SendingKeeps(f, e);
      Extends(e, packets, since, commits, acks, e', sent);
    case AckCall(acked, received) =>
      AckChanges(e, acked, received);
      assert packets + sent == packets;
    case SetCall(rate, windowSize, systematic, adaptive) =>
      assert packets + sent == packets;
  }

  // ----- any number of calls

  /** Every counter agrees with the calls and with what was sent: the repairs are numbered one after the other from
      zero, the sources counted, and the packets since the last acknowledgement counted in 16 bits. */
  lemma {:induction false} CountersAgree<E(!new)>(f: Field<E>, es: seq<EncoderState<E>>, cs: seq<Call<E>>,
          sent: seq<seq<Packet<E>>>, n: nat)
    requires Calls(f, es, cs, sent) && n <= |cs|
    ensures InStep(es[n], AllSent(sent, n), SinceAck(cs, sent, n), Commits(cs, n), Acks(cs, n))
  {
    hide Performs, InStep;
    if n == 0 {
      StartsInStep(es[0]);
    } else {
      CountersAgree(f, es, cs, sent, n - 1);
      assert Performs(f, es[n - 1], cs[n - 1], es[n - 1 + 1], sent[n - 1]);
      OneCall(f, es[n - 1], cs[n - 1], es[n], sent[n - 1], AllSent(sent, n - 1), SinceAck(cs, sent, n - 1),
              Commits(cs, n - 1), Acks(cs, n - 1));
    }
  }

  lemma StartsInStep<E>(e: EncoderState<E>)
    requires e == EncoderState([], 0, 0, 5, e.windowSize, true, false, 0, 0, 0, 0)
    ensures InStep(e, [], 0, 0, 0)
  {
  }

  /** In adaptive mode an acknowledgement sets the rate from the share that is missing, in its count, of the packets
      sent since the one before; otherwise it leaves the rate alone. */
  lemma RateFollowsLoss<E(!new)>(f: Field<E>, es: seq<EncoderState<E>>, cs: seq<Call<E>>,
          sent: seq<seq<Packet<E>>>, n: nat)
    requires Calls(f, es, cs, sent) && n < |cs| && cs[n].AckCall?
    ensures if es[n].adaptive then RateFor(In16(SinceAck(cs, sent, n)), cs[n].received, es[n + 1].rate)
            else es[n + 1].rate == es[n].rate
  {
    CountersAgree(f, es, cs, sent, n);
    assert Performs(f, es[n], cs[n], es[n + 1], sent[n]);
    AckChanges(es[n], cs[n].acked, cs[n].received);
    hide Notify, RateFor, SourceIds, RepairIds, Range, AllSent, SinceAck;
  }
}
