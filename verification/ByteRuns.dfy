/** Encoder and decoder connected by bytes (w = 8): the channel and the path back carry what the packetizer writes, and
    each side acts on what it reads. As long as what is sent fits the format, every such run is a run of the system of
    `Transmission.dfy`, so that all that is proved of those runs holds of it. */
module ByteRuns {
  import opened Division
  import opened GaloisField
  import opened Symbols
  import opened DecoderModel
  import opened EncoderModel
  import opened PacketFormat
  import opened PacketBytes
  import opened Wire
  import opened Transmission
  import opened Runs
  import opened Progress
  import opened Ids
  import opened Gf256

  datatype ByteSystem = ByteSystem(
    enc: EncoderState<Byte>,
    channel: seq<seq<Byte>>,
    acks: set<seq<Byte>>,
    dec: State<Byte>)

  // ----- the steps

  ghost predicate AllSendable(packets: seq<Packet<Byte>>) {
    forall i | 0 <= i < |packets| :: Sendable(packets[i])
  }

  ghost function Written(packets: seq<Packet<Byte>>): seq<seq<Byte>>
    requires AllSendable(packets)
  {
    seq(|packets|, i requires 0 <= i < |packets| => ToBytes(packets[i]))
  }

  ghost predicate CommitBytes(f: Field<Byte>, b: ByteSystem, b': ByteSystem, data: seq<Byte>) {
    && 0 < |data| <= f.maxSize
    && b.enc.windowSize > 0 && b.enc.rate > 0
    && var (enc, packets) := Commit(f, b.enc, data);
       AllSendable(packets) && b' == b.(enc := enc, channel := b.channel + Written(packets))
  }

  ghost predicate ForceBytes(f: Field<Byte>, b: ByteSystem, b': ByteSystem) {
    && b.enc.window != []
    && var (enc, packets) := GenerateRepair(f, b.enc);
       AllSendable(packets) && b' == b.(enc := enc, channel := b.channel + Written(packets))
  }

  ghost predicate LoseBytes(b: ByteSystem, b': ByteSystem, i: nat) {
    i < |b.channel| && b' == b.(channel := b.channel[..i] + b.channel[i + 1..])
  }

  /** What was written for an acknowledgement of some of these sources. */
  ghost predicate Acknowledges(bytes: seq<Byte>, ids: set<nat>, packets: nat) {
    AckFits(ids, packets) && bytes == AckBytes(ids, packets)
  }

  /** The decoder reads the oldest bytes and acts on the packet; it may acknowledge while it works. */
  ghost predicate DeliverBytes(f: Field<Byte>, b: ByteSystem, b': ByteSystem, p: Packet<Byte>) {
    && b.channel != [] && FromBytes(b.channel[0]) == Taken(p)
    && Receives(f, b.dec, p, b'.dec)
    && b.acks <= b'.acks
    && (forall bytes | bytes in b'.acks - b.acks ::
          exists ids: set<nat>, n: nat ::
            Acknowledges(bytes, ids, n) && ids <= b.dec.sources.Keys + b'.dec.sources.Keys)
    && b' == b.(dec := b'.dec, acks := b'.acks, channel := b.channel[1..])
  }

  ghost predicate SendAckBytes(b: ByteSystem, b': ByteSystem, n: nat) {
    AckFits(b.dec.sources.Keys, n) && b' == b.(acks := b.acks + {AckBytes(b.dec.sources.Keys, n)})
  }

  ghost predicate LoseAckBytes(b: ByteSystem, b': ByteSystem) {
    b'.acks <= b.acks && b' == b.(acks := b'.acks)
  }

  /** The encoder reads an acknowledgement that was sent at any time. */
  ghost predicate DeliverAckBytes(b: ByteSystem, b': ByteSystem, bytes: seq<Byte>) {
    && bytes in b.acks
    && var read := AckFromBytes(bytes);
       read.Taken? && b' == b.(enc := Notify(b.enc, read.value.ids, read.value.packets))
  }

  ghost predicate ConfigureBytes(b: ByteSystem, b': ByteSystem) {
    && b'.enc.rate > 0
    && b'.enc.windowSize > 0
    && b' == b.(enc := b.enc.(rate := b'.enc.rate, windowSize := b'.enc.windowSize,
                              systematic := b'.enc.systematic, adaptive := b'.enc.adaptive))
  }

  ghost predicate NextBytes(f: Field<Byte>, b: ByteSystem, b': ByteSystem) {
    || (exists data: seq<Byte> :: CommitBytes(f, b, b', data))
    || ForceBytes(f, b, b')
    || (exists i: nat :: LoseBytes(b, b', i))
    || (exists p: Packet<Byte> :: DeliverBytes(f, b, b', p))
    || (exists n: nat :: SendAckBytes(b, b', n))
    || LoseAckBytes(b, b')
    || (exists bytes: seq<Byte> :: DeliverAckBytes(b, b', bytes))
    || ConfigureBytes(b, b')
  }

  // ----- what the bytes stand for

  ghost predicate ChannelCarries(bytes: seq<seq<Byte>>, packets: seq<InFlight<Byte>>) {
    |bytes| == |packets| && forall i | 0 <= i < |bytes| :: FromBytes(bytes[i]) == Taken(packets[i].packet)
  }

  ghost predicate AcksCarry(bytes: set<seq<Byte>>, acks: set<set<nat>>) {
    forall b | b in bytes :: AckFromBytes(b).Taken? && AckFromBytes(b).value.ids in acks
  }

  ghost predicate Carries(b: ByteSystem, s: System<Byte>) {
    b.enc == s.enc && b.dec == s.dec && ChannelCarries(b.channel, s.channel) && AcksCarry(b.acks, s.acks)
  }

  lemma SentCarries(bytes: seq<seq<Byte>>, packets: seq<InFlight<Byte>>, more: seq<Packet<Byte>>, born: nat)
    requires ChannelCarries(bytes, packets) && AllSendable(more)
    ensures ChannelCarries(bytes + Written(more), packets + Sent(more, born))
  {
    hide FromBytes, ToBytes;
    var b, p := bytes + Written(more), packets + Sent(more, born);
    forall i | 0 <= i < |b|
      ensures FromBytes(b[i]) == Taken(p[i].packet)
    {
      if i >= |bytes| {
        var k := i - |bytes|;
        assert b[i] == ToBytes(more[k]) && p[i].packet == more[k];
        SurvivesExactly(more[k]);
      }
    }
  }

  /** The acknowledgements sent while the decoder worked, as sets. */
  lemma NewAcks(before: set<seq<Byte>>, after: set<seq<Byte>>, acks: set<set<nat>>, ids: set<nat>)
    returns (acks': set<set<nat>>)
    requires AcksCarry(before, acks) && before <= after
    requires forall b | b in after - before :: exists a: set<nat>, n: nat :: Acknowledges(b, a, n) && a <= ids
    ensures acks <= acks' && AcksCarry(after, acks') && forall a | a in acks' - acks :: a <= ids
  {
    hide AckFits, AckBytes, AckFromBytes;
    var newer := set b | b in after - before && AckFromBytes(b).Taken? :: AckFromBytes(b).value.ids;
    acks' := acks + newer;
    forall b | b in after - before
      ensures AckFromBytes(b).Taken? && AckFromBytes(b).value.ids in newer && AckFromBytes(b).value.ids <= ids
    {
      var a: set<nat>, n: nat :| Acknowledges(b, a, n) && a <= ids;
      AckSurvivesExactly(a, n);
    }
  }

  // ----- every byte step is a step

  lemma CommitCarries(f: Field<Byte>, b: ByteSystem, b': ByteSystem, s: System<Byte>, data: seq<Byte>)
    returns (s': System<Byte>)
    requires Carries(b, s) && CommitBytes(f, b, b', data)
    ensures CommitStep(f, s, s', data) && Carries(b', s')
  {
    hide Commit, ChannelCarries, AcksCarry, AllSendable, Written, Sent;
    var packets := Commit(f, s.enc, data).1;
    SentCarries(b.channel, s.channel, packets, s.enc.nextSource + 1);
    s' := s.(enc := Commit(f, s.enc, data).0, channel := s.channel + Sent(packets, s.enc.nextSource + 1),
             truth := s.truth[s.enc.nextSource := data]);
  }

  lemma ForceCarries(f: Field<Byte>, b: ByteSystem, b': ByteSystem, s: System<Byte>) returns (s': System<Byte>)
    requires Carries(b, s) && ForceBytes(f, b, b')
    ensures ForceStep(f, s, s') && Carries(b', s')
  {
    hide GenerateRepair, ChannelCarries, AcksCarry, AllSendable, Written, Sent;
    var packets := GenerateRepair(f, s.enc).1;
    SentCarries(b.channel, s.channel, packets, s.enc.nextSource);
    s' := s.(enc := GenerateRepair(f, s.enc).0, channel := s.channel + Sent(packets, s.enc.nextSource));
  }

  lemma LoseCarries(b: ByteSystem, b': ByteSystem, s: System<Byte>, i: nat) returns (s': System<Byte>)
    requires Carries(b, s) && LoseBytes(b, b', i)
    ensures LoseStep(s, s', i) && Carries(b', s')
  {
    hide FromBytes, AcksCarry;
    s' := s.(channel := s.channel[..i] + s.channel[i + 1..]);
  }

  lemma DeliverCarries(f: Field<Byte>, b: ByteSystem, b': ByteSystem, s: System<Byte>, p: Packet<Byte>)
    returns (s': System<Byte>)
    requires Carries(b, s) && DeliverBytes(f, b, b', p)
    ensures DeliverStep(f, s, s') && Carries(b', s')
  {
    hide FromBytes, AcksCarry, Receives, Acknowledges;
    var acks := NewAcks(b.acks, b'.acks, s.acks, b.dec.sources.Keys + b'.dec.sources.Keys);
    s' := s.(dec := b'.dec, acks := acks, channel := s.channel[1..], seen := s.channel[0].born);
  }

  lemma SendAckCarries(b: ByteSystem, b': ByteSystem, s: System<Byte>, bytes: seq<Byte>) returns (s': System<Byte>)
    requires Carries(b, s) && AcksCarry({bytes}, {b.dec.sources.Keys}) && b' == b.(acks := b.acks + {bytes})
    ensures SendAckStep(s, s') && Carries(b', s')
  {
    hide ChannelCarries, AckFromBytes;
    assert bytes in {bytes};
    s' := s.(acks := s.acks + {s.dec.sources.Keys});
  }

  lemma OthersCarry(b: ByteSystem, b': ByteSystem, s: System<Byte>) returns (s': System<Byte>)
    requires Carries(b, s) && (LoseAckBytes(b, b') || ConfigureBytes(b, b'))
    ensures (LoseAckStep(s, s') || ConfigureStep(s, s')) && Carries(b', s')
  {
    hide ChannelCarries, AckFromBytes;
    s' := s.(enc := b'.enc);
  }

  lemma DeliverAckCarries(b: ByteSystem, b': ByteSystem, s: System<Byte>, bytes: seq<Byte>) returns (s': System<Byte>)
    requires Carries(b, s) && DeliverAckBytes(b, b', bytes)
    ensures Carries(b', s')
    ensures exists acked: set<nat>, received: nat :: DeliverAckStep(s, s', acked, received)
  {
    hide ChannelCarries, AckFromBytes, Notify;
    var read := AckFromBytes(bytes);
    s' := s.(enc := Notify(s.enc, read.value.ids, read.value.packets));
    assert DeliverAckStep(s, s', read.value.ids, read.value.packets);
  }

  /** The bytes of a new acknowledgement. */
  lemma SentAck(b: ByteSystem, b': ByteSystem, n: nat) returns (bytes: seq<Byte>)
    requires SendAckBytes(b, b', n)
    ensures AcksCarry({bytes}, {b.dec.sources.Keys}) && b' == b.(acks := b.acks + {bytes})
  {
    hide AckBytes, AckFits, AckFromBytes;
    bytes := AckBytes(b.dec.sources.Keys, n);
    AckSurvivesExactly(b.dec.sources.Keys, n);
  }

  /** A step with bytes is a step with packets. */
  lemma NextCarries(f: Field<Byte>, b: ByteSystem, b': ByteSystem, s: System<Byte>) returns (s': System<Byte>)
    requires Carries(b, s) && NextBytes(f, b, b')
    ensures Next(f, s, s') && Carries(b', s')
  {
    hide Carries, CommitBytes, ForceBytes, LoseBytes, DeliverBytes, SendAckBytes, LoseAckBytes, DeliverAckBytes;
    hide ConfigureBytes, CommitStep, ForceStep, LoseStep, DeliverStep, SendAckStep, LoseAckStep, DeliverAckStep;
    hide ConfigureStep;
    if data: seq<Byte> :| CommitBytes(f, b, b', data) {
      s' := CommitCarries(f, b, b', s, data);
    } else if ForceBytes(f, b, b') {
      s' := ForceCarries(f, b, b', s);
    } else if i: nat :| LoseBytes(b, b', i) {
      s' := LoseCarries(b, b', s, i);
    } else if p: Packet<Byte> :| DeliverBytes(f, b, b', p) {
      s' := DeliverCarries(f, b, b', s, p);
    } else if n: nat :| SendAckBytes(b, b', n) {
      var bytes := SentAck(b, b', n);
      s' := SendAckCarries(b, b', s, bytes);
    } else if bytes: seq<Byte> :| DeliverAckBytes(b, b', bytes) {
      s' := DeliverAckCarries(b, b', s, bytes);
    } else {
      s' := OthersCarry(b, b', s);
    }
  }

  // ----- every byte run is a run

  ghost predicate InitBytes(b: ByteSystem, inOrder: bool) {
    && b.enc.window == [] && b.enc.nextSource == 0 && b.enc.rate > 0 && b.enc.windowSize > 0
    && b.channel == [] && b.acks == {} && b.dec == Initial(inOrder)
  }

  ghost predicate ByteRun(f: Field<Byte>, run: seq<ByteSystem>, inOrder: bool) {
    && run != []
    && InitBytes(run[0], inOrder)
    && forall i | 0 <= i < |run| - 1 :: NextBytes(f, run[i], run[i + 1])
  }

  /** Every run with bytes is a run with packets: the same states of encoder and decoder, and on the way what the bytes
      are read as. */
  lemma {:induction false} ByteRunIsRun(f: Field<Byte>, run: seq<ByteSystem>, inOrder: bool)
    returns (r: seq<System<Byte>>)
    requires ByteRun(f, run, inOrder)
    ensures Run(f, r, inOrder) && |r| == |run| && forall i | 0 <= i < |run| :: Carries(run[i], r[i])
    decreases |run|
  {
    hide *;
    NotEmpty(f, run, inOrder);
    var n := |run| - 1;
    if n == 0 {
      r := [System(run[0].enc, [], {}, run[0].dec, map[], 0)];
      StartCarries(f, run, r, inOrder);
    } else {
      ShorterRun(f, run, inOrder);
      var before := ByteRunIsRun(f, run[..n], inOrder);
      assert run[..n][n - 1] == run[n - 1];
      assert Carries(run[..n][n - 1], before[n - 1]);
      var s := NextCarries(f, run[n - 1], run[n], before[n - 1]);
      r := before + [s];
      RunExtends(f, before, inOrder, s);
      forall i | 0 <= i < |run|
        ensures Carries(run[i], r[i])
      {
        assert i < n ==> run[..n][i] == run[i] && Carries(run[..n][i], before[i]);
      }
    }
  }

  lemma NotEmpty(f: Field<Byte>, run: seq<ByteSystem>, inOrder: bool)
    requires ByteRun(f, run, inOrder)
    ensures run != []
  {
  }

  lemma StartCarries(f: Field<Byte>, run: seq<ByteSystem>, r: seq<System<Byte>>, inOrder: bool)
    requires ByteRun(f, run, inOrder) && |run| == 1 && r == [System(run[0].enc, [], {}, run[0].dec, map[], 0)]
    ensures Run(f, r, inOrder) && Carries(run[0], r[0])
  {
    hide NextBytes, Next;
  }

  lemma ShorterRun(f: Field<Byte>, run: seq<ByteSystem>, inOrder: bool)
    requires ByteRun(f, run, inOrder) && |run| > 1
    ensures ByteRun(f, run[..|run| - 1], inOrder) && NextBytes(f, run[|run| - 2], run[|run| - 1])
  {
    hide NextBytes, InitBytes;
    var n := |run| - 1;
    assert NextBytes(f, run[n - 1], run[n - 1 + 1]);
    forall i | 0 <= i < n - 1
      ensures NextBytes(f, run[..n][i], run[..n][i + 1])
    {
      assert NextBytes(f, run[i], run[i + 1]);
    }
  }

  /** So over any run with bytes the callback only gets what was committed, never twice, in increasing order if asked;
      and nothing it got is ever taken back. */
  lemma BytesDeliver(f: Field<Byte>, run: seq<ByteSystem>, inOrder: bool, i: nat, j: nat) returns (truth: Truth<Byte>)
    requires f.Laws() && ByteRun(f, run, inOrder) && i <= j < |run|
    ensures forall s: nat :: s in truth <==> s < run[j].enc.nextSource
    ensures forall k | 0 <= k < |run[j].enc.window| ::
              run[j].enc.window[k].id in truth && truth[run[j].enc.window[k].id] == run[j].enc.window[k].data
    ensures forall k | 0 <= k < |run[j].dec.log| ::
              run[j].dec.log[k].id in truth && run[j].dec.log[k].data == truth[run[j].dec.log[k].id]
    ensures run[i].dec.log <= run[j].dec.log
    ensures forall k, l | 0 <= k < l < |run[j].dec.log| ::
              if inOrder then run[j].dec.log[k].id < run[j].dec.log[l].id
              else run[j].dec.log[k].id != run[j].dec.log[l].id
  {
    hide Run, ByteRun, ChannelCarries, AcksCarry, Inv, EncoderOk;
    var r := ByteRunIsRun(f, run, inOrder);
    assert Carries(run[i], r[i]) && Carries(run[j], r[j]);
    RunInv(f, r, inOrder, j);
    InvGives(f, r[j]);
    CommittedIsTrue(f, r[j].truth, r[j].enc);
    DeliveredIsCommitted(f, r, inOrder, i, j);
    DeliveredIsCommitted(f, r, inOrder, j, j);
    truth := r[j].truth;
  }

  lemma CommittedIsTrue(f: Field<Byte>, truth: Truth<Byte>, e: EncoderState<Byte>)
    requires EncoderOk(f, truth, e)
    ensures (forall s: nat :: s in truth <==> s < e.nextSource)
    ensures forall k | 0 <= k < |e.window| :: e.window[k].id in truth && truth[e.window[k].id] == e.window[k].data
  {
  }

  // ----- no byte run gets stuck while the identifiers stay close

  lemma CommitIsPossible(f: Field<Byte>, b: ByteSystem, s: System<Byte>, data: seq<Byte>) returns (b': ByteSystem)
    requires f.Laws() && SizesAreTwoBytes(f) && Inv(f, s) && Carries(b, s)
    requires 0 < |data| <= f.maxSize && b.enc.nextRepair + 1 < TWO_TO_THE_32
    requires b.enc.windowSize > 0 ==> Narrow(Slide(b.enc, data))
    ensures CommitBytes(f, b, b', data)
  {
    hide Narrow, Inv, Commit, ChannelCarries, AcksCarry;
    InvGives(f, s);
    SlideKeeps(f, s.truth, s.enc, data);
    SizedWindow(f, s.truth[s.enc.nextSource := data], Slide(s.enc, data));
    var (enc, packets) := Commit(f, b.enc, data);
    hide Slide, WindowSorted, WindowTrue, TruthOk, Sendable, SizesAreTwoBytes, WindowSized;
    forall i | 0 <= i < |packets|
      ensures Sendable(packets[i])
    {
      CommitIsSendable(f, b.enc, data, i);
    }
    b' := b.(enc := enc, channel := b.channel + Written(packets));
  }

  lemma SizedWindow(f: Field<Byte>, truth: Truth<Byte>, window: seq<Source<Byte>>)
    requires TruthOk(f, truth) && WindowTrue(truth, window)
    ensures WindowSized(f, window)
  {
  }

  lemma ForceIsPossible(f: Field<Byte>, b: ByteSystem, s: System<Byte>) returns (b': ByteSystem)
    requires f.Laws() && SizesAreTwoBytes(f) && Inv(f, s) && Carries(b, s)
    requires b.enc.nextRepair < TWO_TO_THE_32 && Narrow(b.enc.window)
    ensures ForceBytes(f, b, b')
  {
    hide Inv, ChannelCarries, AcksCarry, MakeRepair, Narrow, Sendable, EncoderOk, SizesAreTwoBytes, Written;
    InvGives(f, s);
    NarrowRepair(f, s.truth, s.enc);
    var (enc, packets) := GenerateRepair(f, b.enc);
    b' := b.(enc := enc, channel := b.channel + Written(packets));
  }

  lemma NarrowRepair(f: Field<Byte>, truth: Truth<Byte>, e: EncoderState<Byte>)
    requires SizesAreTwoBytes(f) && EncoderOk(f, truth, e) && e.nextRepair < TWO_TO_THE_32 && Narrow(e.window)
    ensures e.window != [] && Sendable(RepairPacket(MakeRepair(f, e.nextRepair, e.window)))
  {
    hide MakeRepair, Sendable, SizesAreTwoBytes, TruthOk, WindowTrue, WindowSorted, WindowSized;
    SizedWindow(f, truth, e.window);
    RepairIsSendable(f, e.nextRepair, e.window);
  }

  lemma ArrivalIsPossible(f: Field<Byte>, b: ByteSystem, s: System<Byte>)
    returns (b': ByteSystem, p: Packet<Byte>)
    requires f.Laws() && Inv(f, s) && Carries(b, s) && b.channel != []
    ensures DeliverBytes(f, b, b', p)
  {
    hide Inv, AcksCarry, FromBytes, Receives, Acknowledges;
    var s' := DeliveryIsPossible(f, s);
    p := s.channel[0].packet;
    b' := b.(dec := s'.dec, channel := b.channel[1..]);
  }

  lemma AckIsPossible(b: ByteSystem, n: nat) returns (b': ByteSystem)
    requires n <= 65535
    requires var held := b.dec.sources.Keys; held == {} || (Max(held) < TWO_TO_THE_32 && Max(held) - Min(held) <= 65534)
    ensures SendAckBytes(b, b', n)
  {
    hide Layout.IdsFit, Max, Min;
    var held: set<nat> := b.dec.sources.Keys;
    if held == {} {
      NothingFits();
    } else {
      NarrowFits(held);
    }
    b' := b.(acks := b.acks + {AckBytes(held, n)});
  }

  /** In every state of every run with bytes, the oldest packet and any acknowledgement can be read; and anything can be
      sent as long as the identifiers it lists are less than 65535 apart and fit in 32 bits. */
  lemma BytesKeepGoing(f: Field<Byte>, run: seq<ByteSystem>, inOrder: bool, i: nat, data: seq<Byte>, n: nat)
    requires f.Laws() && SizesAreTwoBytes(f) && ByteRun(f, run, inOrder) && i < |run|
    ensures var b := run[i];
            && b.enc.windowSize > 0
            && (0 < |data| <= f.maxSize && b.enc.nextRepair + 1 < TWO_TO_THE_32 && Narrow(Slide(b.enc, data)) ==>
                  exists b' :: CommitBytes(f, b, b', data))
            && (b.enc.nextRepair < TWO_TO_THE_32 && Narrow(b.enc.window) ==> exists b' :: ForceBytes(f, b, b'))
            && (b.channel != [] ==> exists b': ByteSystem, p: Packet<Byte> :: DeliverBytes(f, b, b', p))
            && (forall bytes | bytes in b.acks :: exists b' :: DeliverAckBytes(b, b', bytes))
    ensures var held := run[i].dec.sources.Keys;
            n <= 65535 && (held == {} || (Max(held) < TWO_TO_THE_32 && Max(held) - Min(held) <= 65534)) ==>
              exists b' :: SendAckBytes(run[i], b', n)
  {
    hide *;
    var b := run[i];
    var r := ByteRunIsRun(f, run, inOrder);
    RunInv(f, r, inOrder, i);
    var s := r[i];
    PositiveWindow(f, b, s);
    if 0 < |data| <= f.maxSize && b.enc.nextRepair + 1 < TWO_TO_THE_32 && Narrow(Slide(b.enc, data)) {
      var b' := CommitIsPossible(f, b, s, data);
    }
    if b.enc.nextRepair < TWO_TO_THE_32 && Narrow(b.enc.window) {
      var b' := ForceIsPossible(f, b, s);
    }
    if b.channel != [] {
      var b', p := ArrivalIsPossible(f, b, s);
    }
    forall bytes | bytes in b.acks
      ensures exists b' :: DeliverAckBytes(b, b', bytes)
    {
      var b' := AckArrives(b, s, bytes);
    }
    var held := b.dec.sources.Keys;
    if n <= 65535 && (held == {} || (Max(held) < TWO_TO_THE_32 && Max(held) - Min(held) <= 65534)) {
      var b' := AckIsPossible(b, n);
    }
  }

  lemma PositiveWindow(f: Field<Byte>, b: ByteSystem, s: System<Byte>)
    requires Inv(f, s) && Carries(b, s)
    ensures b.enc.windowSize > 0
  {
    InvGives(f, s);
  }

  lemma AckArrives(b: ByteSystem, s: System<Byte>, bytes: seq<Byte>) returns (b': ByteSystem)
    requires Carries(b, s) && bytes in b.acks
    ensures DeliverAckBytes(b, b', bytes)
  {
    hide AckFromBytes, ChannelCarries, Notify;
    var read := AckFromBytes(bytes);
    b' := b.(enc := Notify(b.enc, read.value.ids, read.value.packets));
  }

  /** Bytes are such a field, and it encodes a size as the integer that is written. */
  lemma BytesAreAField(n: nat)
    ensures BYTES.Laws() && SizesAreTwoBytes(BYTES) && BYTES.enc(n) == Put16(n)
  {
    Bytes16(n);
    hide Put16, BYTES.Laws;
    IsField();
    TwoByteSizes();
  }

  lemma TwoByteSizes()
    ensures SizesAreTwoBytes(BYTES)
  {
  }
}
