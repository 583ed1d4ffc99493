/** `netcode/detail/packetizer.hh` in its own form: a writer that pushes bytes to a handler, and readers that
    advance a cursor and decrease the number of bytes left. */
module Packetizer {
  import opened Division
  import opened Wrappers
  import opened Ids
  import opened PacketFormat
  import opened PacketLayout

  // ----- run-length encoding, loop by loop

  /** The inner loop of the encoding, with cursor `i` and `run` elements counted: the rest of the run that
      starts at `run - 1` elements before. */
  ghost predicate Counting(d: seq<nat>, start: nat, i: nat, run: nat) {
    && 1 <= run <= 255 && start + run == i + 1 && i < |d|
    && d[i] == d[start]
    && Leading(d[start..], 255) == run - 1 + Leading(d[i..], 256 - run)
  }

  lemma CountingStarts(d: seq<nat>, start: nat)
    requires start < |d|
    ensures Counting(d, start, start, 1)
  {
  }

  lemma CountingGoesOn(d: seq<nat>, start: nat, i: nat, run: nat)
    requires Counting(d, start, i, run) && i + 1 < |d| && d[i] == d[i + 1] && run < 255
    ensures Counting(d, start, i + 1, run + 1)
  {
    assert d[i..][1..] == d[i + 1..];
  }

  lemma CountingEnds(d: seq<nat>, start: nat, i: nat, run: nat)
    requires Counting(d, start, i, run) && (i + 1 == |d| || d[i] != d[i + 1] || run == 255)
    ensures Runs(d[start..]) == [Pair(run, Cut16(d[i]))] + Runs(d[i + 1..])
  {
    LeadingOne(d, i, 256 - run);
    var tail := d[start..];
    assert tail != [] && tail[0] == d[start] && tail[run..] == d[i + 1..];
    assert Leading(tail, 255) == run;
    hide *;
    FirstOfRuns(tail);
  }

  lemma FirstOfRuns(d: seq<nat>)
    requires d != []
    ensures var n := Leading(d, 255); Runs(d) == [Pair(n, Cut16(d[0]))] + Runs(d[n..])
  {
  }

  lemma LeadingOne(d: seq<nat>, i: nat, limit: nat)
    requires i < |d| && limit > 0 && (i + 1 == |d| || d[i] != d[i + 1] || limit == 1)
    ensures Leading(d[i..], limit) == 1
  {
  }

  // ----- reading pairs and summing, loop by loop

  /** The pairs still to read, after those of which `read` is the expansion. */
  ghost predicate Reading(all: Parsed<seq<Pair>>, read: seq<Pair>, left: Parsed<seq<Pair>>) {
    if left.Overflow? then all.Overflow?
    else all == Parsed(read + left.value, left.rest)
  }

  lemma ReadingGoesOn(all: Parsed<seq<Pair>>, read: seq<Pair>, data: seq<Byte>, n: nat)
    requires n > 0 && Reading(all, read, GetPairs(data, n))
    requires Get8(data).Parsed? && Get16(Get8(data).rest).Parsed?
    ensures var p := Pair(Get8(data).value, Get16(Get8(data).rest).value);
            Reading(all, read + [p], GetPairs(Get16(Get8(data).rest).rest, n - 1))
  {
    hide Get8, Get16;
    var p := Pair(Get8(data).value, Get16(Get8(data).rest).value);
    var left := GetPairs(Get16(Get8(data).rest).rest, n - 1);
    if left.Parsed? {
      Associate(read, [p], left.value);
    }
  }

  lemma ExpandAppend(read: seq<Pair>, p: Pair)
    ensures Expand(read + [p]) == Expand(read) + Repeat(p.value, p.run)
  {
    ExpandConcat(read, [p]);
    assert Expand([]) == [];
    assert [p][1..] == [];
  }

  lemma RepeatGrows(x: nat, n: nat)
    ensures Repeat(x, n + 1) == Repeat(x, n) + [x]
  {
  }

  lemma SumsStep(first: nat, d: seq<nat>)
    requires d != []
    ensures ToSet(Sums(first, d)) == {first} + ToSet(Sums(Cut32(first + d[0]), d[1..]))
  {
    var rest := Sums(Cut32(first + d[0]), d[1..]);
    assert Sums(first, d) == [first] + rest;
    assert forall x :: x in [first] + rest <==> x == first || x in rest;
  }

  /** The bytes being read: `data` is the offset of the next one, and `maxLen` counts those left. */
  class Cursor {
    const packet: seq<Byte>
    var data: nat
    var maxLen: nat

    ghost predicate Valid()
      reads this
    {
      data + maxLen == |packet|
    }

    ghost function Left(): seq<Byte>
      requires Valid()
      reads this
    {
      packet[data..]
    }

    constructor (packet: seq<Byte>)
      ensures this.packet == packet && Valid() && data == 0 && Left() == packet
    {
      this.packet, data, maxLen := packet, 0, |packet|;
    }

    /** What a read leaves behind: after an overflow, nothing is said of a value; otherwise the cursor stands
        where the specification says. */
    ghost predicate After<T>(read: Parsed<T>, r: Option<T>)
      requires Valid()
      reads this
    {
      if read.Overflow? then r == None else r == Some(read.value) && Left() == read.rest
    }

    method Read8() returns (r: Option<nat>)
      requires Valid()
      modifies this
      ensures Valid() && After(Get8(old(Left())), r)
    {
      if maxLen < 1 {
        return None;
      }
      r := Some(packet[data]);
      data, maxLen := data + 1, maxLen - 1;
    }

    method Read16() returns (r: Option<nat>)
      requires Valid()
      modifies this
      ensures Valid() && After(Get16(old(Left())), r)
    {
      if maxLen < 2 {
        return None;
      }
      r := Some(Join(packet[data], packet[data + 1]));
      data, maxLen := data + 2, maxLen - 2;
    }

    method Read32() returns (r: Option<nat>)
      requires Valid()
      modifies this
      ensures Valid() && After(Get32(old(Left())), r)
    {
      if maxLen < 4 {
        return None;
      }
      r := Some(Join(packet[data], packet[data + 1]) * 65536 + Join(packet[data + 2], packet[data + 3]));
      data, maxLen := data + 4, maxLen - 4;
    }

    /** Skips a symbol, which stays in the packet. */
    method ReadSymbol(size: nat) returns (r: Option<seq<Byte>>)
      requires Valid()
      modifies this
      ensures Valid() && After(GetBytes(old(Left()), size), r)
    {
      if maxLen < size {
        return None;
      }
      r := Some(packet[data..][..size]);
      maxLen := maxLen - size;
      data := data + size;
    }
  }

  class Packetizer {
    /** What the handler has been given: complete packets, and the bytes of the one being written. */
    var packets: seq<seq<Byte>>
    var open: seq<Byte>
    var differences: seq<nat>
    var runs: seq<Pair>

    constructor ()
      ensures packets == [] && open == []
    {
      packets, open, differences, runs := [], [], [], [];
    }

    // ----- writing

    method Write(bytes: seq<Byte>)
      modifies this`open
      ensures open == old(open) + bytes
    {
      open := open + bytes;
    }

    /** Integers are written big-endian, cut to their width. */
    method Write8(n: nat)
      modifies this`open
      ensures open == old(open) + [Low8(n)]
    {
      DivideIs(n, 256);
      Write([n % 256]);
    }

    method Write16(n: nat)
      modifies this`open
      ensures open == old(open) + Put16(n)
    {
      DivideIs(n, 256);
      Write8(n / 256);
      Write8(n);
      assert open == old(open) + ([Low8(n / 256)] + [Low8(n)]);
    }

    method Write32(n: nat)
      modifies this`open
      ensures open == old(open) + Put32(n)
    {
      hide Put16;
      DivideIs(n, 65536);
      Write16(n / 65536);
      Write16(n);
      assert open == old(open) + (Put16(n / 65536) + Put16(n));
    }

    method MarkEnd()
      modifies this`packets, this`open
      ensures packets == old(packets) + [old(open)] && open == []
    {
      packets, open := packets + [open], [];
    }

    /** Adjacent differences, then runs of at most 255 equal ones, then the bytes. */
    method WriteIds(ids: seq<nat>)
      requires Increasing(ids)
      modifies this`open, this`differences, this`runs
      ensures open == old(open) + PutIds(ids)
    {
      hide Runs, Gaps, Put16, Put32, PutPairs;
      differences, runs := [], [];
      if |ids| == 0 {
        Write16(0);
        return;
      }
      ComputeDifferences(ids);
      EncodeRuns(ids[0], Gaps(ids));
      Write16(|runs| + 1);
      Write32(ids[0]);
      WritePairs();
      assert open == old(open) + (Put16(|runs| + 1) + Put32(ids[0]) + PutPairs(runs));
    }

    method WritePairs()
      modifies this`open
      ensures open == old(open) + PutPairs(runs)
    {
      var i := 0;
      assert runs[0..] == runs;
      while i < |runs|
        invariant i <= |runs|
        invariant open + PutPairs(runs[i..]) == old(open) + PutPairs(runs)
      {
        assert runs[i..][1..] == runs[i + 1..] && runs[i..][0] == runs[i];
        Write8(runs[i].run);
        Write16(runs[i].value);
        i := i + 1;
      }
    }

    method ComputeDifferences(ids: seq<nat>)
      requires Increasing(ids) && ids != []
      modifies this`differences
      ensures differences == [ids[0]] + Gaps(ids)
    {
      differences := [ids[0]];
      var i := 1;
      assert ids[0..] == ids;
      while i < |ids|
        invariant 1 <= i <= |ids|
        invariant differences + Gaps(ids[i - 1..]) == [ids[0]] + Gaps(ids)
      {
        assert ids[i - 1..][1..] == ids[i..];
        differences := differences + [ids[i] - ids[i - 1]];
        i := i + 1;
      }
    }

    /** The first difference, the first identifier itself, is skipped. */
    method EncodeRuns(first: nat, ghost gaps: seq<nat>)
      requires differences == [first] + gaps && runs == []
      modifies this`runs
      ensures runs == Runs(gaps)
    {
      hide Runs, Leading;
      var i := 1;
      assert differences[1..] == gaps;
      while i < |differences|
        invariant 1 <= i <= |differences|
        invariant runs + Runs(differences[i..]) == Runs(gaps)
      {
        var run := 1;
        ghost var start := i;
        CountingStarts(differences, i);
        while i + 1 < |differences| && differences[i] == differences[i + 1] && run < 255
          invariant Counting(differences, start, i, run)
          invariant runs + Runs(differences[start..]) == Runs(gaps)
        {
          CountingGoesOn(differences, start, i, run);
          run := run + 1;
          i := i + 1;
        }
        CountingEnds(differences, start, i, run);
        DivideIs(differences[i], 65536);
        Associate(runs, [Pair(run, differences[i] % 65536)], Runs(differences[i + 1..]));
        runs := runs + [Pair(run, differences[i] % 65536)];
        i := i + 1;
      }
      NoMoreRuns(differences, i);
    }

    method WriteHeader(kind: Byte, id: nat, symbol: seq<Byte>)
      modifies this`open
      ensures open == old(open) + (PutHeader(kind, id, symbol) + symbol)
    {
      Write([kind]);
      Write32(id);
      Write16(|symbol|);
      Write(symbol);
    }

    method WriteSource(p: SourcePacket)
      requires open == []
      modifies this
      ensures packets == old(packets) + [PutSource(p)] && open == []
    {
      WriteHeader(SOURCE, p.id, p.symbol);
      assert open == PutSource(p);
      MarkEnd();
    }

    method WriteRepair(p: RepairPacket)
      requires open == [] && p.symbol != []
      modifies this
      ensures packets == old(packets) + [PutRepair(p)] && open == []
    {
      hide PutIds, PutHeader, Put16;
      WriteHeader(REPAIR, p.id, p.symbol);
      WriteIds(Sorted(p.ids));
      Write16(p.encodedSize);
      assert open == RepairBody(p);
      Write16(|p.symbol|);
      Write(p.symbol);
      assert open == RepairBody(p) + RepairTail(p);
      MarkEnd();
    }

    method WriteAck(p: AckPacket)
      requires open == []
      modifies this
      ensures packets == old(packets) + [PutAck(p)] && open == []
    {
      hide PutIds;
      Write([ACK]);
      Write16(p.packets);
      WriteIds(Sorted(p.ids));
      assert open == PutAck(p);
      MarkEnd();
    }

    // ----- reading

    method ReadIds(c: Cursor) returns (r: Option<set<nat>>)
      requires c.Valid()
      modifies c, this`differences, this`runs
      ensures c.Valid() && c.After(GetIds(old(c.Left())), r)
    {
      hide Get8, Get16, Get32, GetPairs, Sums, Expand;
      differences, runs := [], [];
      var count := c.Read16();
      if count.None? {
        return None;
      }
      if count.value == 0 {
        return Some({});
      }
      var first := c.Read32();
      if first.None? {
        return None;
      }
      differences := [first.value];
      ghost var pairs := GetPairs(c.Left(), count.value - 1);
      var ok := ReadDifferences(c, first.value, count.value - 1);
      if !ok {
        return None;
      }
      var ids := PartialSums(first.value, Expand(pairs.value));
      r := Some(ids);
    }

    /** Pair by pair, the differences are expanded into the buffer. */
    method ReadDifferences(c: Cursor, first: nat, n: nat) returns (ok: bool)
      requires c.Valid() && differences == [first]
      modifies c, this`differences
      ensures c.Valid()
      ensures var pairs := GetPairs(old(c.Left()), n);
              if pairs.Overflow? then !ok
              else ok && differences == [first] + Expand(pairs.value) && c.Left() == pairs.rest
    {
      hide Get8, Get16, GetPairs, Expand;
      ghost var all := GetPairs(c.Left(), n);
      ghost var read: seq<Pair> := [];
      var i := 0;
      ReadingStarts(all);
      while i < n
        invariant 0 <= i <= n && c.Valid()
        invariant differences == [first] + Expand(read)
        invariant Reading(all, read, GetPairs(c.Left(), n - i))
      {
        ghost var left := c.Left();
        PairsNeedBytes(left, n - i);
        var run := c.Read8();
        if run.None? {
          return false;
        }
        var value := c.Read16();
        if value.None? {
          return false;
        }
        ghost var p := Pair(run.value, value.value);
        ReadingGoesOn(all, read, left, n - i);
        ExpandAppend(read, p);
        Push(value.value, run.value);
        read := read + [p];
        i := i + 1;
      }
      ReadingEnds(all, read, c.Left());
      return true;
    }

    method Push(value: nat, run: nat)
      modifies this`differences
      ensures differences == old(differences) + Repeat(value, run)
    {
      var j := 0;
      while j < run
        invariant 0 <= j <= run
        invariant differences == old(differences) + Repeat(value, j)
      {
        RepeatGrows(value, j);
        differences := differences + [value];
        j := j + 1;
      }
    }

    /** `partial_sum` into a set, in 32 bits. */
    method PartialSums(first: nat, ghost d: seq<nat>) returns (ids: set<nat>)
      requires differences == [first] + d
      ensures ids == ToSet(Sums(first, d))
    {
      hide Sums;
      var sum := differences[0];
      ids := {sum};
      var i := 1;
      assert differences[1..] == d;
      OneSum(first);
      ghost var base: set<nat> := {};
      while i < |differences|
        invariant 1 <= i <= |differences|
        invariant ids == base + {sum}
        invariant base + ToSet(Sums(sum, differences[i..])) == ToSet(Sums(first, d))
      {
        SumsStep(sum, differences[i..]);
        assert differences[i..][1..] == differences[i + 1..];
        base := ids;
        DivideIs(sum + differences[i], TWO_TO_THE_32);
        sum := (sum + differences[i]) % TWO_TO_THE_32;
        ids := ids + {sum};
        i := i + 1;
      }
      assert differences[i..] == [];
      OneSum(sum);
    }

    method ReadHeader(c: Cursor) returns (r: Option<SourcePacket>)
      requires c.Valid()
      modifies c
      ensures c.Valid() && c.After(GetSymbol(old(c.Left())), r)
    {
      hide Get8, Get16, Get32;
      var kind := c.Read8();
      if kind.None? {
        return None;
      }
      var id := c.Read32();
      if id.None? {
        return None;
      }
      var size := c.Read16();
      if size.None? {
        return None;
      }
      var symbol := c.ReadSymbol(size.value);
      if symbol.None? {
        return None;
      }
      r := Some(SourcePacket(id.value, symbol.value));
    }

    /** The packet and the number of bytes read, or nothing on overflow. */
    method ReadSource(packet: seq<Byte>) returns (r: Option<(SourcePacket, nat)>)
      requires packet != [] && packet[0] == SOURCE
      modifies this
      ensures var read := GetSource(packet);
              r == if read.Overflow? then None else Some((read.value, |packet| - |read.rest|))
      ensures packets == old(packets) && open == old(open)
    {
      hide GetSymbol;
      var c := new Cursor(packet);
      var p := ReadHeader(c);
      if p.None? {
        return None;
      }
      r := Some((p.value, c.data));
    }

    method ReadRepairFields(c: Cursor) returns (r: Option<RepairPacket>)
      requires c.Valid()
      modifies c, this`differences, this`runs
      ensures c.Valid() && c.After(GetRepair(old(c.Left())), r)
    {
      hide GetSymbol, GetIds, Get16;
      var p := ReadHeader(c);
      if p.None? {
        return None;
      }
      var ids := ReadIds(c);
      if ids.None? {
        return None;
      }
      var size := c.Read16();
      if size.None? {
        return None;
      }
      r := Some(RepairPacket(p.value.id, size.value, ids.value, p.value.symbol));
    }

    method ReadRepair(packet: seq<Byte>) returns (r: Option<(RepairPacket, nat)>)
      requires packet != [] && packet[0] == REPAIR
      modifies this
      ensures var read := GetRepair(packet);
              r == if read.Overflow? then None else Some((read.value, |packet| - |read.rest|))
      ensures packets == old(packets) && open == old(open)
    {
      hide GetRepair;
      var c := new Cursor(packet);
      var p := ReadRepairFields(c);
      if p.None? {
        return None;
      }
      r := Some((p.value, c.data));
    }

    method ReadAckFields(c: Cursor) returns (r: Option<AckPacket>)
      requires c.Valid()
      modifies c, this`differences, this`runs
      ensures c.Valid() && c.After(GetAck(old(c.Left())), r)
    {
      hide Get8, GetIds, Get16;
      var kind := c.Read8();
      if kind.None? {
        return None;
      }
      var count := c.Read16();
      if count.None? {
        return None;
      }
      var ids := ReadIds(c);
      if ids.None? {
        return None;
      }
      r := Some(AckPacket(ids.value, count.value));
    }

    method ReadAck(packet: seq<Byte>) returns (r: Option<(AckPacket, nat)>)
      requires packet != [] && packet[0] == ACK
      modifies this
      ensures var read := GetAck(packet);
              r == if read.Overflow? then None else Some((read.value, |packet| - |read.rest|))
      ensures packets == old(packets) && open == old(open)
    {
      hide GetAck;
      var c := new Cursor(packet);
      var p := ReadAckFields(c);
      if p.None? {
        return None;
      }
      r := Some((p.value, c.data));
    }
  }

  lemma NoMoreRuns(d: seq<nat>, i: nat)
    requires i == |d|
    ensures Runs(d[i..]) == []
  {
  }

  lemma OneSum(sum: nat)
    ensures Sums(sum, []) == [sum] && ToSet([sum]) == {sum}
  {
  }

  lemma ReadingStarts(all: Parsed<seq<Pair>>)
    ensures Reading(all, [], all) && Expand([]) == []
  {
    if all.Parsed? {
      assert [] + all.value == all.value;
    }
  }

  lemma ReadingEnds(all: Parsed<seq<Pair>>, read: seq<Pair>, data: seq<Byte>)
    requires Reading(all, read, GetPairs(data, 0))
    ensures all == Parsed(read, data)
  {
    assert read + [] == read;
  }

  lemma PairsNeedBytes(data: seq<Byte>, n: nat)
    requires n > 0
    ensures Get8(data).Overflow? || Get16(Get8(data).rest).Overflow? ==> GetPairs(data, n).Overflow?
  {
  }
}
