/** The three kinds of packets of `netcode/detail/packetizer.hh`: what is written for each, and what reading
    one yields on any bytes. */
module PacketLayout {
  import opened Division
  import opened Ids
  import opened PacketFormat

  datatype SourcePacket = SourcePacket(id: nat, symbol: seq<Byte>)

  datatype RepairPacket = RepairPacket(id: nat, encodedSize: nat, ids: set<nat>, symbol: seq<Byte>)

  datatype AckPacket = AckPacket(ids: set<nat>, packets: nat)

  const ACK: Byte := 0
  const REPAIR: Byte := 1
  const SOURCE: Byte := 2

  /** Type, identifier and symbol size precede the symbol of sources and repairs. */
  const HEADERS: nat := 7

  // ----- writing

  ghost function PutHeader(kind: Byte, id: nat, symbol: seq<Byte>): (b: seq<Byte>)
    ensures |b| == HEADERS
  {
    [kind] + Put32(id) + Put16(|symbol|)
  }

  /** `write_source` */
  ghost function PutSource(p: SourcePacket): seq<Byte> {
    PutHeader(SOURCE, p.id, p.symbol) + p.symbol
  }

  /** `write_repair`: after the encoded size, the symbol and its size once more. */
  ghost function PutRepair(p: RepairPacket): seq<Byte> {
    RepairBody(p) + RepairTail(p)
  }

  ghost function RepairBody(p: RepairPacket): seq<Byte> {
    PutHeader(REPAIR, p.id, p.symbol) + p.symbol + PutIds(Sorted(p.ids)) + Put16(p.encodedSize)
  }

  ghost function RepairTail(p: RepairPacket): seq<Byte> {
    Put16(|p.symbol|) + p.symbol
  }

  /** `write_ack` */
  ghost function PutAck(p: AckPacket): seq<Byte> {
    [ACK] + Put16(p.packets) + PutIds(Sorted(p.ids))
  }

  // ----- reading

  /** The type byte is skipped; identifier and symbol follow. */
  ghost function GetSymbol(packet: seq<Byte>): Parsed<SourcePacket> {
    var kind := Get8(packet);
    if kind.Overflow? then Overflow
    else
      var id := Get32(kind.rest);
      if id.Overflow? then Overflow
      else
        var size := Get16(id.rest);
        if size.Overflow? then Overflow
        else
          var symbol := GetBytes(size.rest, size.value);
          if symbol.Overflow? then Overflow
          else Parsed(SourcePacket(id.value, symbol.value), symbol.rest)
  }

  /** `read_source` */
  ghost function GetSource(packet: seq<Byte>): Parsed<SourcePacket> {
    GetSymbol(packet)
  }

  /** `read_repair` */
  ghost function GetRepair(packet: seq<Byte>): Parsed<RepairPacket> {
    var head := GetSymbol(packet);
    if head.Overflow? then Overflow
    else
      var ids := GetIds(head.rest);
      if ids.Overflow? then Overflow
      else
        var size := Get16(ids.rest);
        if size.Overflow? then Overflow
        else Parsed(RepairPacket(head.value.id, size.value, ids.value, head.value.symbol), size.rest)
  }

  /** `read_ack` */
  ghost function GetAck(packet: seq<Byte>): Parsed<AckPacket> {
    var kind := Get8(packet);
    if kind.Overflow? then Overflow
    else
      var packets := Get16(kind.rest);
      if packets.Overflow? then Overflow
      else
        var ids := GetIds(packets.rest);
        if ids.Overflow? then Overflow
        else Parsed(AckPacket(ids.value, packets.value), ids.rest)
  }

  // ----- round trips

  /** What the reader makes of a written header and symbol: the identifier modulo 2^32, and as many bytes
      of the symbol as its length modulo 2^16 says. */
  lemma SymbolReadBack(kind: Byte, id: nat, symbol: seq<Byte>, rest: seq<Byte>)
    ensures var n := Cut16(|symbol|);
            GetSymbol(PutHeader(kind, id, symbol) + symbol + rest)
            == Parsed(SourcePacket(Cut32(id), symbol[..n]), symbol[n..] + rest)
  {
    hide Put32, Put16, Get32, Get16;
    var n := Cut16(|symbol|);
    var packet := PutHeader(kind, id, symbol) + symbol + rest;
    assert packet == [kind] + (Put32(id) + (Put16(|symbol|) + (symbol + rest)));
    Get32Put(id, Put16(|symbol|) + (symbol + rest));
    Get16Put(|symbol|, symbol + rest);
    assert (symbol + rest)[..n] == symbol[..n];
    assert (symbol + rest)[n..] == symbol[n..] + rest;
  }

  /** A source packet is read back as it was written exactly when its identifier fits in 32 bits and its
      symbol in 65535 bytes; its symbol is at offset 7. */
  lemma SourceRoundTrip(p: SourcePacket, rest: seq<Byte>)
    ensures GetSource(PutSource(p) + rest) == Parsed(p, rest) <==> p.id < TWO_TO_THE_32 && |p.symbol| <= 65535
    ensures Reads(GetSource(PutSource(p) + rest), p) ==> p.id < TWO_TO_THE_32 && |p.symbol| <= 65535
    ensures PutSource(p)[HEADERS..] == p.symbol
  {
    hide PutHeader, GetSymbol;
    var n := Cut16(|p.symbol|);
    SymbolReadBack(SOURCE, p.id, p.symbol, rest);
    assert n == |p.symbol| <==> |p.symbol| <= 65535;
    assert Cut32(p.id) == p.id <==> p.id < TWO_TO_THE_32;
    assert n == |p.symbol| ==> p.symbol[..n] == p.symbol && p.symbol[n..] + rest == rest;
    assert n < |p.symbol| ==> |p.symbol[..n]| < |p.symbol|;
  }

  ghost predicate IdsFit(ids: set<nat>) {
    Fit32(Sorted(ids)) && Encodable(Sorted(ids))
  }

  /** A set of identifiers is read back exactly when the format can carry it. */
  lemma SetRoundTrip(ids: set<nat>, rest: seq<Byte>)
    ensures var read := GetIds(PutIds(Sorted(ids)) + rest);
            (IdsFit(ids) ==> read == Parsed(ids, rest)) && (Reads(read, ids) ==> IdsFit(ids))
  {
    hide PutIds, GetIds, Encodable, Fit32;
    SurvivesExactlyWhenEncodable(Sorted(ids), rest);
    SortedToSet(ids);
  }

  ghost predicate RepairFits(p: RepairPacket) {
    p.id < TWO_TO_THE_32 && |p.symbol| <= 65535 && p.encodedSize <= 65535 && IdsFit(p.ids)
  }

  lemma BodyParts(p: RepairPacket, rest: seq<Byte>)
    ensures RepairBody(p) + rest
         == PutHeader(REPAIR, p.id, p.symbol) + p.symbol + (PutIds(Sorted(p.ids)) + (Put16(p.encodedSize) + rest))
  {
    hide PutHeader, PutIds, Put16;
  }

  /** The body is read back exactly when every field fits. */
  lemma BodyRoundTrip(p: RepairPacket, rest: seq<Byte>)
    ensures GetRepair(RepairBody(p) + rest) == Parsed(p, rest) <==> RepairFits(p)
    ensures Reads(GetRepair(RepairBody(p) + rest), p) ==> RepairFits(p)
  {
    hide PutHeader, GetSymbol, PutIds, GetIds, Put16, Get16, IdsFit, RepairBody, Cut16, Cut32;
    var ids, size := PutIds(Sorted(p.ids)), Put16(p.encodedSize);
    var n := Cut16(|p.symbol|);
    BodyParts(p, rest);
    SymbolReadBack(REPAIR, p.id, p.symbol, ids + (size + rest));
    CutExactly(p.id);
    CutExactly(|p.symbol|);
    if p.id < TWO_TO_THE_32 && |p.symbol| <= 65535 {
      assert p.symbol[..n] == p.symbol && p.symbol[n..] + (ids + (size + rest)) == ids + (size + rest);
      SetRoundTrip(p.ids, size + rest);
      Get16Put(p.encodedSize, rest);
      CutExactly(p.encodedSize);
    } else {
      assert Cut32(p.id) != p.id || |p.symbol[..n]| < |p.symbol|;
    }
  }

  /** A repair packet is read back exactly when every field fits, up to its tail: the second copy of the symbol is
      left unread. */
  lemma RepairRoundTrip(p: RepairPacket, rest: seq<Byte>)
    ensures GetRepair(PutRepair(p) + rest) == Parsed(p, RepairTail(p) + rest) <==> RepairFits(p)
    ensures Reads(GetRepair(PutRepair(p) + rest), p) ==> RepairFits(p)
    ensures PutRepair(p)[HEADERS..][..|p.symbol|] == p.symbol
  {
    hide GetRepair, RepairFits, RepairTail, PutHeader, PutIds, Put16;
    BodyRoundTrip(p, RepairTail(p) + rest);
    assert PutRepair(p) + rest == RepairBody(p) + (RepairTail(p) + rest);
  }

  /** An acknowledgement is read back exactly when its count fits in 16 bits and its list can be carried. */
  lemma AckRoundTrip(p: AckPacket, rest: seq<Byte>)
    ensures GetAck(PutAck(p) + rest) == Parsed(p, rest) <==> p.packets <= 65535 && IdsFit(p.ids)
    ensures Reads(GetAck(PutAck(p) + rest), p) ==> p.packets <= 65535 && IdsFit(p.ids)
  {
    hide PutIds, GetIds, Put16, Get16, IdsFit, Cut16;
    var ids := PutIds(Sorted(p.ids));
    assert PutAck(p) + rest == [ACK] + (Put16(p.packets) + (ids + rest));
    Get16Put(p.packets, ids + rest);
    CutExactly(p.packets);
    SetRoundTrip(p.ids, rest);
  }

  // ----- arbitrary bytes

  /** Reading more bytes after a successful read changes nothing but what is left: a reader never looks past
      what it consumes. */
  ghost predicate Extends<T>(read: Parsed<T>, longer: Parsed<T>, more: seq<Byte>) {
    read.Parsed? ==> longer == Parsed(read.value, read.rest + more)
  }

  lemma Get16Extends(data: seq<Byte>, more: seq<Byte>)
    ensures Extends(Get16(data), Get16(data + more), more)
  {
  }

  lemma Get32Extends(data: seq<Byte>, more: seq<Byte>)
    ensures Extends(Get32(data), Get32(data + more), more)
  {
  }

  lemma {:induction false} GetPairsExtends(data: seq<Byte>, n: nat, more: seq<Byte>)
    ensures Extends(GetPairs(data, n), GetPairs(data + more, n), more)
    decreases n
  {
    hide Get16;
    if n > 0 && |data| > 0 {
      assert (data + more)[1..] == data[1..] + more;
      Get16Extends(data[1..], more);
      var value := Get16(data[1..]);
      if value.Parsed? {
        GetPairsExtends(value.rest, n - 1, more);
      }
    }
  }

  lemma GetIdsExtends(data: seq<Byte>, more: seq<Byte>)
    ensures Extends(GetIds(data), GetIds(data + more), more)
  {
    hide Get16, Get32, GetPairs, Expand, Sums, ToSet;
    Get16Extends(data, more);
    var count := Get16(data);
    if count.Parsed? && count.value > 0 {
      Get32Extends(count.rest, more);
      var first := Get32(count.rest);
      if first.Parsed? {
        GetPairsExtends(first.rest, count.value - 1, more);
      }
    }
  }

  lemma GetSymbolExtends(data: seq<Byte>, more: seq<Byte>)
    ensures Extends(GetSymbol(data), GetSymbol(data + more), more)
  {
    hide Get16, Get32;
    if |data| > 0 {
      assert (data + more)[1..] == data[1..] + more;
      Get32Extends(data[1..], more);
      var id := Get32(data[1..]);
      if id.Parsed? {
        Get16Extends(id.rest, more);
        var size := Get16(id.rest);
        if size.Parsed? && size.value <= |size.rest| {
          assert (size.rest + more)[..size.value] == size.rest[..size.value];
          assert (size.rest + more)[size.value..] == size.rest[size.value..] + more;
        }
      }
    }
  }

  lemma GetRepairExtends(data: seq<Byte>, more: seq<Byte>)
    ensures Extends(GetRepair(data), GetRepair(data + more), more)
  {
    hide GetSymbol, GetIds, Get16;
    GetSymbolExtends(data, more);
    var head := GetSymbol(data);
    if head.Parsed? {
      GetIdsExtends(head.rest, more);
      var ids := GetIds(head.rest);
      if ids.Parsed? {
        Get16Extends(ids.rest, more);
      }
    }
  }

  lemma GetAckExtends(data: seq<Byte>, more: seq<Byte>)
    ensures Extends(GetAck(data), GetAck(data + more), more)
  {
    hide GetIds, Get16;
    if |data| > 0 {
      assert (data + more)[1..] == data[1..] + more;
      Get16Extends(data[1..], more);
      var packets := Get16(data[1..]);
      if packets.Parsed? {
        GetIdsExtends(packets.rest, more);
      }
    }
  }

  /** A packet cut short anywhere is refused: sources and acknowledgements at any byte, repairs anywhere
      before the tail that is never read. */
  lemma TruncatedSourceOverflows(p: SourcePacket, n: nat)
    requires p.id < TWO_TO_THE_32 && |p.symbol| <= 65535 && n < |PutSource(p)|
    ensures GetSource(PutSource(p)[..n]).Overflow?
  {
    hide PutSource, GetSymbol;
    var packet := PutSource(p);
    SourceRoundTrip(p, []);
    GetSymbolExtends(packet[..n], packet[n..]);
    assert packet[..n] + packet[n..] == packet && packet + [] == packet;
  }

  lemma TruncatedAckOverflows(p: AckPacket, n: nat)
    requires p.packets <= 65535 && IdsFit(p.ids) && n < |PutAck(p)|
    ensures GetAck(PutAck(p)[..n]).Overflow?
  {
    hide PutAck, GetAck, IdsFit;
    var packet := PutAck(p);
    AckRoundTrip(p, []);
    GetAckExtends(packet[..n], packet[n..]);
    assert packet[..n] + packet[n..] == packet && packet + [] == packet;
  }

  lemma TruncatedRepairOverflows(p: RepairPacket, n: nat)
    requires RepairFits(p) && n < |PutRepair(p)|
    ensures GetRepair(PutRepair(p)[..n]).Overflow? <==> n < |RepairBody(p)|
  {
    hide RepairFits, RepairBody, GetRepair, RepairTail;
    var packet, body := PutRepair(p), RepairBody(p);
    if n < |body| {
      BodyRoundTrip(p, []);
      GetRepairExtends(body[..n], body[n..]);
      assert body[..n] + body[n..] == body && body + [] == body && packet[..n] == body[..n];
    } else {
      BodyRoundTrip(p, packet[|body|..n]);
      assert packet[..n] == body + packet[|body|..n];
    }
  }
}
