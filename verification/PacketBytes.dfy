/** The bytes of every packet, position by position, and what any bytes at all are read as. */
module PacketBytes {
  import opened Division
  import opened Ids
  import opened PacketFormat
  import opened PacketLayout

  // ----- integers

  /** The most significant byte comes first. */
  lemma Bytes16(n: nat)
    ensures Put16(n) == [n / 256 % 256, n % 256]
  {
    DivideIs(n, 256);
    DivideIs(Quotient(n, 256), 256);
  }

  lemma Nested(n: nat)
    ensures n / 65536 / 256 == n / 0x100_0000
  {
    var q, r := n / 65536, n % 65536;
    var p, s := q / 256, q % 256;
    assert n == 65536 * q + r && q == 256 * p + s;
    assert n == p * 0x100_0000 + (65536 * s + r);
    UniqueQuotient(p, 65536 * s + r, n, 0x100_0000);
  }

  lemma Bytes32(n: nat)
    ensures Put32(n) == [n / 0x100_0000 % 256, n / 0x1_0000 % 256, n / 0x100 % 256, n % 256]
  {
    DivideIs(n, 65536);
    Bytes16(Quotient(n, 65536));
    Bytes16(n);
    Nested(n);
    hide Put16, Quotient, Remainder;
  }

  // ----- packets

  lemma HeaderBytes(kind: Byte, id: nat, symbol: seq<Byte>)
    ensures var b, n := PutHeader(kind, id, symbol), |symbol|;
            b == [kind, id / 0x100_0000 % 256, id / 0x1_0000 % 256, id / 0x100 % 256, id % 256, n / 256 % 256, n % 256]
  {
    Bytes32(id);
    Bytes16(|symbol|);
    hide Put16, Put32;
  }

  /** A source packet: the type, four bytes of identifier, two of size, the symbol. */
  lemma SourceBytes(p: SourcePacket)
    ensures var b, n := PutSource(p), |p.symbol|;
            && b[..7] == [2, p.id / 0x100_0000 % 256, p.id / 0x1_0000 % 256, p.id / 0x100 % 256, p.id % 256,
                          n / 256 % 256, n % 256]
            && b[7..] == p.symbol
  {
    HeaderBytes(2, p.id, p.symbol);
    hide PutHeader;
  }

  /** An acknowledgement: the type, two bytes for the count, the list. */
  lemma AckBytesAre(p: AckPacket)
    ensures var b := PutAck(p);
            b[..3] == [0, p.packets / 256 % 256, p.packets % 256] && b[3..] == PutIds(Sorted(p.ids))
  {
    Bytes16(p.packets);
    hide PutIds, Put16;
  }

  /** A repair packet: the type, four bytes of identifier, two of size, the symbol, the list of identifiers, two bytes
      of encoded size, and once more the size and the symbol. */
  lemma RepairBytes(p: RepairPacket)
    ensures var b, n, ids := PutRepair(p), |p.symbol|, PutIds(Sorted(p.ids));
            var m := 7 + n + |ids|;
            && |b| == m + 4 + n
            && b[..7] == [1, p.id / 0x100_0000 % 256, p.id / 0x1_0000 % 256, p.id / 0x100 % 256, p.id % 256,
                          n / 256 % 256, n % 256]
            && b[7..7 + n] == p.symbol && b[7 + n..m] == ids
            && b[m..m + 4] == [p.encodedSize / 256 % 256, p.encodedSize % 256, n / 256 % 256, n % 256]
            && b[m + 4..] == p.symbol
  {
    hide *;
    var n, ids := |p.symbol|, PutIds(Sorted(p.ids));
    HeaderBytes(1, p.id, p.symbol);
    Bytes16(p.encodedSize);
    Bytes16(n);
    RepairParts(p);
    Positions(PutRepair(p), PutHeader(1, p.id, p.symbol), p.symbol, ids, Put16(p.encodedSize), Put16(n), p.symbol);
  }

  lemma RepairParts(p: RepairPacket)
    ensures PutRepair(p) == PutHeader(1, p.id, p.symbol) + p.symbol + PutIds(Sorted(p.ids)) + Put16(p.encodedSize)
                            + (Put16(|p.symbol|) + p.symbol)
  {
    hide PutHeader, PutIds, Put16;
  }

  lemma Positions(b: seq<Byte>, head: seq<Byte>, x: seq<Byte>, y: seq<Byte>, u: seq<Byte>, v: seq<Byte>, z: seq<Byte>)
    requires b == head + x + y + u + (v + z) && |head| == 7 && |u| == |v| == 2
    ensures var m := 7 + |x| + |y|;
            && |b| == m + 4 + |z| && b[..7] == head && b[7..7 + |x|] == x && b[7 + |x|..m] == y
            && b[m..m + 4] == u + v && b[m + 4..] == z
  {
  }

  // ----- identifier lists

  /** An empty list is two zeros. Otherwise two bytes say how many elements follow: the first identifier in four bytes,
      and three bytes for each run of equal differences, its length and the difference. */
  lemma IdsBytes(ids: seq<nat>)
    requires Increasing(ids)
    ensures ids == [] ==> PutIds(ids) == [0, 0]
    ensures ids != [] ==>
              var b, ps, a := PutIds(ids), Runs(Gaps(ids)), ids[0];
              && |b| == 6 + 3 * |ps|
              && b[..6] == [(|ps| + 1) / 256 % 256, (|ps| + 1) % 256,
                            a / 0x100_0000 % 256, a / 0x1_0000 % 256, a / 0x100 % 256, a % 256]
              && forall i | 0 <= i < |ps| ::
                   b[6 + 3 * i] == ps[i].run && b[7 + 3 * i] == ps[i].value / 256 && b[8 + 3 * i] == ps[i].value % 256
  {
    hide *;
    if ids == [] {
      Bytes16(0);
      NoIds();
    } else {
      var ps := Runs(Gaps(ids));
      Bytes16(|ps| + 1);
      Bytes32(ids[0]);
      RunsFit(Gaps(ids));
      PutPairsLength(ps);
      PutIdsParts(ids, []);
      Assembled(PutIds(ids), Put16(|ps| + 1), Put32(ids[0]), PutPairs(ps));
      forall i | 0 <= i < |ps|
        ensures var b := PutIds(ids); b[6 + 3 * i] == ps[i].run && b[7 + 3 * i] == ps[i].value / 256
                                      && b[8 + 3 * i] == ps[i].value % 256
      {
        PairBytes(ps, i);
        PairIn(PutIds(ids), PutPairs(ps), i, ps[i]);
      }
    }
  }

  lemma NoIds()
    ensures PutIds([]) == Put16(0)
  {
    hide Put16;
  }

  lemma Assembled(b: seq<Byte>, u: seq<Byte>, v: seq<Byte>, w: seq<Byte>)
    requires b + [] == u + (v + (w + [])) && |u| == 2 && |v| == 4
    ensures |b| == 6 + |w| && b[..6] == u + v && b[6..] == w
  {
    assert b + [] == b && w + [] == w;
    assert b == u + v + w;
  }

  lemma PairIn(b: seq<Byte>, w: seq<Byte>, i: nat, p: Pair)
    requires |b| >= 6 && b[6..] == w && |w| >= 3 * i + 3 && w[3 * i..3 * i + 3] == [p.run, p.value / 256, p.value % 256]
    ensures b[6 + 3 * i] == p.run && b[7 + 3 * i] == p.value / 256 && b[8 + 3 * i] == p.value % 256
  {
    var t := w[3 * i..3 * i + 3];
    assert t[0] == b[6 + 3 * i] && t[1] == b[7 + 3 * i] && t[2] == b[8 + 3 * i];
  }

  lemma {:induction false} PairBytes(ps: seq<Pair>, i: nat)
    requires i < |ps| && forall j | 0 <= j < |ps| :: ps[j].run <= 255 && ps[j].value < 65536
    ensures |PutPairs(ps)| == 3 * |ps|
    ensures PutPairs(ps)[3 * i..3 * i + 3] == [ps[i].run, ps[i].value / 256, ps[i].value % 256]
    decreases i
  {
    PutPairsLength(ps);
    PutPairsLength(ps[1..]);
    FirstBytes(ps);
    hide PutPairs;
    var all, tail := PutPairs(ps), PutPairs(ps[1..]);
    if i == 0 {
      assert all[..3] == all[3 * i..3 * i + 3];
    } else {
      var j := i - 1;
      PairBytes(ps[1..], j);
      assert all[3..][3 * j..3 * j + 3] == all[3 * i..3 * i + 3];
    }
  }

  lemma FirstBytes(ps: seq<Pair>)
    requires ps != [] && ps[0].run <= 255 && ps[0].value < 65536
    ensures var b := PutPairs(ps);
            && |b| >= 3 && b[3..] == PutPairs(ps[1..])
            && b[..3] == [ps[0].run, ps[0].value / 256, ps[0].value % 256]
  {
    DivideIs(ps[0].run, 256);
    Bytes16(ps[0].value);
    var first := [Low8(ps[0].run)] + Put16(ps[0].value);
    assert PutPairs(ps) == first + PutPairs(ps[1..]);
    hide Put16, PutPairs;
  }

  // ----- any bytes

  function Big16(a: nat, b: nat): nat {
    256 * a + b
  }

  function Big32(a: nat, b: nat, c: nat, d: nat): nat {
    0x100_0000 * a + 0x1_0000 * b + 0x100 * c + d
  }

  lemma Split2(data: seq<Byte>)
    requires |data| >= 2
    ensures Put16(Join(data[0], data[1])) == data[..2] && Join(data[0], data[1]) <= 65535
  {
    var n := Join(data[0], data[1]);
    Bytes16(n);
    UniqueQuotient(data[0], data[1], n, 256);
  }

  /** Whatever is read as pairs is what would be written for them. */
  lemma {:induction false} PairsReadExactly(data: seq<Byte>, n: nat)
    ensures GetPairs(data, n).Overflow? <==> |data| < 3 * n
    ensures |data| >= 3 * n ==>
              var read := GetPairs(data, n);
              && |read.value| == n && data == PutPairs(read.value) + read.rest
              && forall i | 0 <= i < n :: read.value[i].run <= 255 && read.value[i].value <= 65535
    decreases n
  {
    if n > 0 && |data| >= 3 {
      var p := FirstPair(data, n);
      PairsReadExactly(data[3..], n - 1);
      hide PutPairs, GetPairs, Put16, Low8;
      if |data| >= 3 * n {
        var read := GetPairs(data, n);
        assert read.value[1..] == GetPairs(data[3..], n - 1).value;
        PutFirst(p, read.value);
        assert data == data[..3] + data[3..];
      }
    }
  }

  lemma FirstPair(data: seq<Byte>, n: nat) returns (p: Pair)
    requires |data| >= 3 && n > 0
    ensures p.run <= 255 && p.value <= 65535 && [Low8(p.run)] + Put16(p.value) == data[..3]
    ensures var more := GetPairs(data[3..], n - 1);
            GetPairs(data, n) == if more.Overflow? then Overflow else Parsed([p] + more.value, more.rest)
  {
    Split2(data[1..]);
    DivideIs(data[0], 256);
    assert data[1..][2..] == data[3..];
    p := Pair(data[0], Join(data[1..][0], data[1..][1]));
    hide Put16, Low8;
  }

  lemma PutFirst(p: Pair, ps: seq<Pair>)
    requires ps != [] && ps[0] == p
    ensures PutPairs(ps) == [Low8(p.run)] + Put16(p.value) + PutPairs(ps[1..])
  {
  }

  /** Element `k` of the list is the first identifier and the sum of the first `k` differences, in 32 bits. */
  lemma {:induction false} SumsAre(first: nat, d: seq<nat>, k: nat)
    requires first < TWO_TO_THE_32 && k <= |d|
    ensures Sums(first, d)[k] == (first + Total(d[..k])) % TWO_TO_THE_32
    decreases k
  {
    if k > 0 {
      var next := first + d[0];
      DivideIs(next, TWO_TO_THE_32);
      SumsAre(Cut32(next), d[1..], k - 1);
      assert d[..k][0] == d[0] && d[..k][1..] == d[1..][..k - 1];
      Carried(next, Total(d[1..][..k - 1]));
    }
  }

  lemma Carried(n: nat, m: nat)
    ensures (n % TWO_TO_THE_32 + m) % TWO_TO_THE_32 == (n + m) % TWO_TO_THE_32
  {
  }

  /** What any bytes are read as, if they are long enough: no identifier if the count is zero, and otherwise, for
      whatever pairs follow, the first identifier and all partial sums. */
  lemma IdsReadExactly(data: seq<Byte>)
    ensures var count := if |data| >= 2 then Big16(data[0], data[1]) else 0;
            && (GetIds(data).Overflow? <==> |data| < 2 || (count > 0 && |data| < 6 + 3 * (count - 1)))
            && (|data| >= 2 && count == 0 ==> GetIds(data) == Parsed({}, data[2..]))
            && (GetIds(data).Parsed? && count > 0 ==>
                  exists ps: seq<Pair>, rest: seq<Byte> ::
                    && |ps| == count - 1 && data[6..] == PutPairs(ps) + rest
                    && GetIds(data) == Parsed(ToSet(Sums(FirstOf(data), Expand(ps))), rest))
  {
    hide Sums, Expand, ToSet, GetPairs, PutPairs;
    if |data| >= 6 {
      var count := Join(data[0], data[1]);
      assert data[2..][4..] == data[6..];
      if count > 0 {
        PairsReadExactly(data[6..], count - 1);
      }
    }
  }

  ghost function FirstOf(data: seq<Byte>): nat
    requires |data| >= 6
  {
    Big32(data[2], data[3], data[4], data[5])
  }

  /** A source is read from any bytes that hold its header and as many more as this says. */
  lemma SourceReadExactly(b: seq<Byte>)
    ensures GetSource(b).Parsed? <==> |b| >= 7 && |b| >= 7 + Big16(b[5], b[6])
    ensures GetSource(b).Parsed? ==>
              var n := Big16(b[5], b[6]);
              GetSource(b) == Parsed(SourcePacket(Big32(b[1], b[2], b[3], b[4]), b[7..7 + n]), b[7 + n..])
  {
    if |b| >= 7 {
      assert b[1..][4..] == b[5..] && b[5..][2..] == b[7..];
      var n := Big16(b[5], b[6]);
      if |b| >= 7 + n {
        assert b[7..][..n] == b[7..7 + n] && b[7..][n..] == b[7 + n..];
      }
    }
  }

  /** A repair is read if, after that, a list can be read and two more bytes for the encoded size. */
  lemma RepairReadExactly(b: seq<Byte>)
    ensures var n := if |b| >= 7 then Big16(b[5], b[6]) else 0;
            && (GetRepair(b).Parsed? <==>
                  |b| >= 7 + n && GetIds(b[7 + n..]).Parsed? && |GetIds(b[7 + n..]).rest| >= 2)
            && (GetRepair(b).Parsed? ==>
                  var ids := GetIds(b[7 + n..]);
                  GetRepair(b) == Parsed(RepairPacket(Big32(b[1], b[2], b[3], b[4]), Big16(ids.rest[0], ids.rest[1]),
                                                      ids.value, b[7..7 + n]), ids.rest[2..]))
  {
    SourceReadExactly(b);
    hide GetSymbol, GetIds, Big32;
  }

  /** An acknowledgement is read if a list can be read after the type and the count. */
  lemma AckReadExactly(b: seq<Byte>)
    ensures GetAck(b).Parsed? <==> |b| >= 3 && GetIds(b[3..]).Parsed?
    ensures GetAck(b).Parsed? ==>
              GetAck(b) == Parsed(AckPacket(GetIds(b[3..]).value, Big16(b[1], b[2])), GetIds(b[3..]).rest)
  {
    if |b| >= 3 {
      assert b[1..][2..] == b[3..];
    }
    hide GetIds;
  }
}
