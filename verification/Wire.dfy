/** Packets as bytes, for fields whose elements are bytes and sizes two of them (w = 8): what the encoder sends is
    what the decoder reads, as long as the identifiers in the window are less than 65535 apart. */
module Wire {
  import opened Division
  import opened GaloisField
  import opened Ids
  import opened Symbols
  import opened EncoderModel
  import opened PacketFormat
  import Layout = PacketLayout

  /** The encoded size of a repair as the 16-bit integer that is written. */
  function SizeToInt(size: seq<Byte>): nat
    requires |size| == 2
  {
    Join(size[0], size[1])
  }

  ghost function ToBytes(p: Packet<Byte>): seq<Byte>
    requires p.RepairPacket? ==> |p.repair.size| == 2
  {
    match p
    case SourcePacket(src) => Layout.PutSource(Layout.SourcePacket(src.id, src.data))
    case RepairPacket(r) => Layout.PutRepair(Layout.RepairPacket(r.id, SizeToInt(r.size), r.ids, r.symbol))
  }

  /** What a receiver makes of bytes: it refuses their kind, finds that they end too early, or takes a packet. */
  datatype Dispatched<+T> = WrongKind | TooShort | Taken(value: T)

  /** The dispatch of the decoder: the first byte tells the kind; an acknowledgement or anything unknown is an error, as
      is a packet that is too short. */
  ghost function FromBytes(packet: seq<Byte>): Dispatched<Packet<Byte>> {
    if packet == [] then TooShort
    else if packet[0] == Layout.REPAIR then
      var r := Layout.GetRepair(packet);
      if r.Overflow? then TooShort
      else Taken(RepairPacket(Repair(r.value.id, Put16(r.value.encodedSize), r.value.ids, r.value.symbol)))
    else if packet[0] == Layout.SOURCE then
      var s := Layout.GetSource(packet);
      if s.Overflow? then TooShort else Taken(SourcePacket(Source(s.value.id, s.value.symbol)))
    else WrongKind
  }

  /** The dispatch of the encoder, which takes nothing but acknowledgements. */
  ghost function AckFromBytes(packet: seq<Byte>): Dispatched<Layout.AckPacket> {
    if packet == [] then TooShort
    else if packet[0] == Layout.ACK then
      var a := Layout.GetAck(packet);
      if a.Overflow? then TooShort else Taken(a.value)
    else WrongKind
  }

  // ----- what is taken for what

  /** Among any bytes at all, the decoder takes exactly those that start with 1 and read as a repair, or start with 2
      and read as a source; it refuses the kind of all that start with anything else. */
  lemma DispatchExactly(b: seq<Byte>)
    requires b != []
    ensures FromBytes(b).Taken? && FromBytes(b).value.RepairPacket? <==> b[0] == 1 && Layout.GetRepair(b).Parsed?
    ensures FromBytes(b).Taken? && FromBytes(b).value.SourcePacket? <==> b[0] == 2 && Layout.GetSource(b).Parsed?
    ensures FromBytes(b).WrongKind? <==> b[0] != 1 && b[0] != 2
  {
    hide Layout.GetRepair, Layout.GetSource;
  }

  /** The encoder takes exactly those that start with 0 and read as an acknowledgement. */
  lemma AckDispatchExactly(b: seq<Byte>)
    requires b != []
    ensures AckFromBytes(b).Taken? <==> b[0] == 0 && Layout.GetAck(b).Parsed?
    ensures AckFromBytes(b).Taken? ==> AckFromBytes(b).value == Layout.GetAck(b).value
    ensures AckFromBytes(b).WrongKind? <==> b[0] != 0
  {
    hide Layout.GetAck;
  }

  /** So neither side takes what it has sent itself. */
  lemma NotForTheSender(p: Packet<Byte>, ids: set<nat>, packets: nat)
    requires p.RepairPacket? ==> |p.repair.size| == 2
    ensures AckFromBytes(ToBytes(p)) == WrongKind && FromBytes(AckBytes(ids, packets)) == WrongKind
  {
    KindOf(p);
    hide Layout.GetRepair, Layout.GetSource, Layout.GetAck, ToBytes, PutIds, Put16;
  }

  /** A written packet starts with 1 if it is a repair and with 2 if it is a source. */
  lemma KindOf(p: Packet<Byte>)
    requires p.RepairPacket? ==> |p.repair.size| == 2
    ensures ToBytes(p) != [] && ToBytes(p)[0] == if p.RepairPacket? then 1 else 2
  {
    hide SizeToInt, PutIds, Put16, Put32, Layout.RepairTail;
  }

  lemma SizeRoundTrip(size: seq<Byte>)
    requires |size| == 2
    ensures SizeToInt(size) <= 65535 && Put16(SizeToInt(size)) == size
  {
    var n := Join(size[0], size[1]);
    UniqueQuotient(size[0], size[1], n, 256);
    DivideIs(n, 256);
    UniqueQuotient(0, size[0], size[0], 256);
    DivideIs(size[0], 256);
  }

  lemma StartsWithKind(kind: Byte, id: nat, symbol: seq<Byte>, rest: seq<Byte>)
    ensures var b := Layout.PutHeader(kind, id, symbol) + rest; b != [] && b[0] == kind
  {
  }

  /** What the format can carry of a packet. */
  ghost predicate Sendable(p: Packet<Byte>) {
    match p
    case SourcePacket(src) => src.id < TWO_TO_THE_32 && |src.data| <= 65535
    case RepairPacket(r) => |r.size| == 2 && r.id < TWO_TO_THE_32 && |r.symbol| <= 65535 && Layout.IdsFit(r.ids)
  }

  /** The encoded size that is read is that whose bytes it has. */
  lemma SameSize(packet: seq<Byte>, n: nat)
    requires Layout.GetRepair(packet).Parsed? && n <= 65535
    ensures Put16(Layout.GetRepair(packet).value.encodedSize) == Put16(n)
       ==> Layout.GetRepair(packet).value.encodedSize == n
  {
    var m := Layout.GetRepair(packet).value.encodedSize;
    hide GetIds, Layout.GetSymbol, Put16;
    assert m <= 65535;
    Get16Put(m, []);
    Get16Put(n, []);
    CutExactly(m);
    CutExactly(n);
  }

  lemma SourceSurvives(src: Source<Byte>)
    ensures FromBytes(ToBytes(SourcePacket(src))) == Taken(SourcePacket(src)) <==> Sendable(SourcePacket(src))
  {
    var p := Layout.SourcePacket(src.id, src.data);
    Layout.SourceRoundTrip(p, []);
    assert Layout.PutSource(p) + [] == Layout.PutSource(p);
    StartsWithKind(Layout.SOURCE, src.id, src.data, src.data);
    hide Layout.GetSource, Layout.GetRepair, Layout.PutHeader;
  }

  lemma RepairSurvives(r: Repair<Byte>)
    requires |r.size| == 2
    ensures FromBytes(ToBytes(RepairPacket(r))) == Taken(RepairPacket(r)) <==> Sendable(RepairPacket(r))
  {
    hide Layout.GetSource, Layout.GetRepair, Layout.PutHeader, Layout.IdsFit, SizeToInt, PutIds, Put16;
    SizeRoundTrip(r.size);
    var p := Layout.RepairPacket(r.id, SizeToInt(r.size), r.ids, r.symbol);
    Layout.RepairRoundTrip(p, []);
    var b := Layout.PutRepair(p);
    assert b + [] == b;
    var rest := r.symbol + PutIds(Sorted(p.ids)) + Put16(p.encodedSize) + Layout.RepairTail(p);
    assert b == Layout.PutHeader(Layout.REPAIR, r.id, r.symbol) + rest;
    StartsWithKind(Layout.REPAIR, r.id, r.symbol, rest);
    var read := Layout.GetRepair(b);
    if read.Parsed? {
      SameSize(b, SizeToInt(r.size));
    }
  }

  /** A packet becomes bytes and comes out of the dispatch as the same packet, exactly when the format can carry it. */
  lemma SurvivesExactly(p: Packet<Byte>)
    requires p.RepairPacket? ==> |p.repair.size| == 2
    ensures FromBytes(ToBytes(p)) == Taken(p) <==> Sendable(p)
  {
    hide FromBytes, ToBytes, Sendable;
    match p
    case SourcePacket(src) =>
      SourceSurvives(src);
    case RepairPacket(r) =>
      RepairSurvives(r);
  }

  // ----- acknowledgements

  ghost predicate AckFits(ids: set<nat>, packets: nat) {
    packets <= 65535 && Layout.IdsFit(ids)
  }

  ghost function AckBytes(ids: set<nat>, packets: nat): seq<Byte> {
    Layout.PutAck(Layout.AckPacket(ids, packets))
  }

  lemma AckSurvivesExactly(ids: set<nat>, packets: nat)
    ensures AckFromBytes(AckBytes(ids, packets)) == Taken(Layout.AckPacket(ids, packets)) <==> AckFits(ids, packets)
  {
    hide Layout.GetAck, Layout.IdsFit, PutIds, Put16;
    var b := AckBytes(ids, packets);
    Layout.AckRoundTrip(Layout.AckPacket(ids, packets), []);
    assert b + [] == b;
  }

  /** An acknowledgement of two sources more than 65535 apart is read as acknowledging the first one and another one
      between them, unless the low 16 bits of the distance are zero: the encoder then gives up a source that the
      decoder never had. */
  lemma FalselyAcknowledged<E>(a: nat, b: nat, packets: nat, e: EncoderState<E>)
    requires a < b < TWO_TO_THE_32 && b - a > 65535 && Cut16(b - a) != 0 && packets <= 65535 && WindowSorted(e.window)
    ensures var c := a + Cut16(b - a);
            var read := AckFromBytes(AckBytes({a, b}, packets));
            && a < c < b
            && read == Taken(Layout.AckPacket({a, c}, packets))
            && WindowIds(Notify(e, read.value.ids, packets).window) == WindowIds(e.window) - {a, c}
  {
    hide AckFromBytes, AckBytes, Unacknowledged, WindowIds, WindowSorted, Cut16;
    CutExactly(b - a);
    WideAck(a, b, packets);
    UnacknowledgedKeeps(e.window, {a, a + Cut16(b - a)});
  }

  lemma WideAck(a: nat, b: nat, packets: nat)
    requires a < b < TWO_TO_THE_32 && b - a > 65535 && packets <= 65535
    ensures AckFromBytes(AckBytes({a, b}, packets)) == Taken(Layout.AckPacket({a, a + Cut16(b - a)}, packets))
  {
    hide PutIds, GetIds, Put16, Get16, Cut16, Runs, Gaps, Sums, Expand;
    SortedPair(a, b);
    var ids := PutIds([a, b]);
    assert AckBytes({a, b}, packets) == [Layout.ACK] + (Put16(packets) + ids);
    Get16Put(packets, ids);
    CutExactly(packets);
    WideGap(a, b);
    ReadBackAll([a, b], []);
    assert ids + [] == ids;
  }

  // ----- windows that fit

  lemma {:induction false} GapsBounded(d: seq<nat>)
    requires forall i | 0 <= i < |d| :: d[i] > 0
    ensures |d| <= Total(d) && forall i | 0 <= i < |d| :: d[i] <= Total(d)
  {
    if d != [] {
      GapsBounded(d[1..]);
      forall i | 0 <= i < |d|
        ensures d[i] <= Total(d)
      {
        assert i > 0 ==> d[i] == d[1..][i - 1];
      }
    }
  }

  /** Identifiers less than 65535 apart can be written. */
  lemma NarrowFits(ids: set<nat>)
    requires ids != {} && Max(ids) < TWO_TO_THE_32 && Max(ids) - Min(ids) <= 65534
    ensures Layout.IdsFit(ids)
  {
    hide Runs, Gaps, Total, Maximal, Min, Max, Sorted;
    var s := Sorted(ids);
    SortedRange(ids);
    TotalOfGaps(s);
    GapsBounded(Gaps(s));
    RunsAreMaximal(Gaps(s));
  }

  lemma SortedRange(ids: set<nat>)
    requires ids != {}
    ensures var s := Sorted(ids);
            s != [] && s[0] >= Min(ids) && s[|s| - 1] <= Max(ids) && forall i | 0 <= i < |s| :: s[i] <= Max(ids)
  {
    var s := Sorted(ids);
    assert Min(ids) in s;
    forall i | 0 <= i < |s|
      ensures Min(ids) <= s[i] <= Max(ids)
    {
      assert s[i] in s;
    }
  }

  lemma NothingFits()
    ensures Layout.IdsFit({})
  {
    assert Sorted({}) == [];
  }

  /** Sizes up to the largest one are two bytes. */
  ghost predicate SizesAreTwoBytes(f: Field<Byte>) {
    f.maxSize <= 65535 && forall n: nat | n <= f.maxSize :: |f.enc(n)| == 2
  }

  ghost predicate WindowSized(f: Field<Byte>, window: seq<Source<Byte>>) {
    forall i | 0 <= i < |window| :: |window[i].data| <= f.maxSize
  }

  lemma {:induction false} RepairShape(f: Field<Byte>, id: nat, window: seq<Source<Byte>>)
    requires window != [] && SizesAreTwoBytes(f) && WindowSized(f, window)
    ensures var r := MakeRepair(f, id, window);
            |r.size| == 2 && |r.symbol| <= 65535 && r.ids == WindowIds(window)
  {
    var init, last := window[..|window| - 1], window[|window| - 1];
    assert forall x :: x in window <==> x in init || x == last;
    assert WindowIds(window) == WindowIds(init) + {last.id};
    if |window| == 1 {
      assert WindowIds(init) == {};
    } else {
      RepairShape(f, id, init);
    }
  }

  ghost predicate Narrow(window: seq<Source<Byte>>) {
    window != [] && window[|window| - 1].id < TWO_TO_THE_32 && window[|window| - 1].id - window[0].id <= 65534
  }

  lemma WindowRange(window: seq<Source<Byte>>)
    requires WindowSorted(window) && Narrow(window)
    ensures WindowIds(window) != {} && Max(WindowIds(window)) < TWO_TO_THE_32
    ensures Max(WindowIds(window)) - Min(WindowIds(window)) <= 65534
  {
    WindowMin(window);
    var m := Max(WindowIds(window));
    var x :| x in window && x.id == m;
    var i :| 0 <= i < |window| && window[i] == x;
  }

  /** A repair of a narrow window can be sent. */
  lemma RepairIsSendable(f: Field<Byte>, id: nat, window: seq<Source<Byte>>)
    requires SizesAreTwoBytes(f) && WindowSized(f, window) && WindowSorted(window) && Narrow(window)
    requires id < TWO_TO_THE_32
    ensures Sendable(RepairPacket(MakeRepair(f, id, window)))
  {
    hide *;
    SomeWindow(window);
    RepairShape(f, id, window);
    WindowRange(window);
    NarrowFits(WindowIds(window));
    SendableRepair(MakeRepair(f, id, window));
  }

  lemma SomeWindow(window: seq<Source<Byte>>)
    requires Narrow(window)
    ensures window != []
  {
  }

  lemma SendableRepair(r: Repair<Byte>)
    requires |r.size| == 2 && r.id < TWO_TO_THE_32 && |r.symbol| <= 65535 && Layout.IdsFit(r.ids)
    ensures Sendable(RepairPacket(r))
  {
    hide Layout.IdsFit;
  }

  /** Whatever a commit sends can be sent, while the window stays narrow and identifiers fit in 32 bits. */
  lemma CommitIsSendable(f: Field<Byte>, e: EncoderState<Byte>, data: seq<Byte>, i: nat)
    requires SizesAreTwoBytes(f) && e.windowSize > 0 && e.rate > 0 && e.nextRepair + 1 < TWO_TO_THE_32
    requires WindowSized(f, Slide(e, data)) && WindowSorted(Slide(e, data)) && Narrow(Slide(e, data))
    requires i < |Commit(f, e, data).1|
    ensures Sendable(Commit(f, e, data).1[i])
  {
    var w := Slide(e, data);
    assert w[|w| - 1] == Source(e.nextSource, data);
    SentByCommit(f, e, data, i);
    hide Commit, Slide, MakeRepair, WindowSorted;
    if Commit(f, e, data).1[i].RepairPacket? {
      RepairIsSendable(f, Commit(f, e, data).1[i].repair.id, w);
    }
  }

  lemma SentByCommit(f: Field<Byte>, e: EncoderState<Byte>, data: seq<Byte>, i: nat)
    requires e.windowSize > 0 && e.rate > 0 && i < |Commit(f, e, data).1|
    ensures var p := Commit(f, e, data).1[i];
            && (p.SourcePacket? ==> p.source == Source(e.nextSource, data))
            && (p.RepairPacket? ==>
                  p.repair.id <= e.nextRepair + 1 && p.repair == MakeRepair(f, p.repair.id, Slide(e, data)))
  {
  }
}
