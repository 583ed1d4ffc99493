/** How many packets a series of commits sends, and how large the window may become. */
module Cadence {
  import opened Wrappers
  import opened Division
  import opened GaloisField
  import opened EncoderModel

  /** A series of commits, with nothing in between. */
  function CommitAll<E(!new)>(f: Field<E>, e: EncoderState<E>, datas: seq<seq<E>>): (EncoderState<E>, seq<Packet<E>>)
    requires e.windowSize > 0 && e.rate > 0
    decreases |datas|
  {
    if datas == [] then (e, [])
    else
      var (e1, first) := Commit(f, e, datas[0]);
      SettingsStay(f, e, datas[0]);
      var (e2, rest) := CommitAll(f, e1, datas[1..]);
      (e2, first + rest)
  }

  lemma SettingsStay<E(!new)>(f: Field<E>, e: EncoderState<E>, data: seq<E>)
    requires e.windowSize > 0 && e.rate > 0
    ensures var e' := Commit(f, e, data).0;
            && e'.windowSize == e.windowSize && e'.rate == e.rate && e'.systematic == e.systematic
            && e'.window == Slide(e, data) && e'.nextSource == e.nextSource + 1
  {
  }

  function SourceId<E>(p: Packet<E>): seq<nat> {
    if p.SourcePacket? then [p.source.id] else []
  }

  function RepairId<E>(p: Packet<E>): seq<nat> {
    if p.RepairPacket? then [p.repair.id] else []
  }

  /** The identifiers of the sources that were sent, in the order of sending. */
  function SourceIds<E>(packets: seq<Packet<E>>): seq<nat> {
    if packets == [] then [] else SourceId(packets[0]) + SourceIds(packets[1..])
  }

  function RepairIds<E>(packets: seq<Packet<E>>): seq<nat> {
    if packets == [] then [] else RepairId(packets[0]) + RepairIds(packets[1..])
  }

  function Range(from: nat, n: nat): seq<nat> {
    seq(n, i requires 0 <= i < n => from + i)
  }

  lemma RangeJoins(from: nat, n: nat, m: nat)
    ensures Range(from, n) + Range(from + n, m) == Range(from, n + m)
  {
  }

  lemma {:induction false} IdsJoin<E>(a: seq<Packet<E>>, b: seq<Packet<E>>)
    ensures SourceIds(a + b) == SourceIds(a) + SourceIds(b)
    ensures RepairIds(a + b) == RepairIds(a) + RepairIds(b)
  {
    if a == [] {
      assert a + b == b;
    } else {
      IdsJoin(a[1..], b);
      hide SourceId, RepairId;
      assert (a + b)[0] == a[0] && (a + b)[1..] == a[1..] + b;
      Associate(SourceId(a[0]), SourceIds(a[1..]), SourceIds(b));
      Associate(RepairId(a[0]), RepairIds(a[1..]), RepairIds(b));
    }
  }

  /** The counters agree with the packets; the number of packets since the last acknowledgement is kept in 16
      bits. */
  ghost predicate Counted<E>(e: EncoderState<E>, e': EncoderState<E>, packets: seq<Packet<E>>) {
    && e'.sentSources == e.sentSources + |SourceIds(packets)|
    && e'.sentRepairs == e.sentRepairs + |RepairIds(packets)|
    && e'.nextRepair == e.nextRepair + |RepairIds(packets)|
    && e'.sentPackets % 65536 == (e.sentPackets + |packets|) % 65536
  }

  lemma CountedTwice<E>(a: EncoderState<E>, b: EncoderState<E>, c: EncoderState<E>, p: seq<Packet<E>>,
          q: seq<Packet<E>>)
    requires Counted(a, b, p) && Counted(b, c, q)
    ensures Counted(a, c, p + q)
  {
    IdsJoin(p, q);
    hide SourceIds, RepairIds;
    AddModulo(b.sentPackets, a.sentPackets + |p|, |q|);
  }

  lemma AddModulo(x: nat, y: nat, k: nat)
    requires x % 65536 == y % 65536
    ensures (x + k) % 65536 == (y + k) % 65536
  {
    assert (x + k) % 65536 == (x % 65536 + k) % 65536;
    assert (y + k) % 65536 == (y % 65536 + k) % 65536;
  }

  /** A repair is sent: it has the next number. */
  lemma OneRepair<E(!new)>(f: Field<E>, e: EncoderState<E>)
    requires e.window != []
    ensures var (e', packets) := GenerateRepair(f, e);
            && SourceIds(packets) == [] && RepairIds(packets) == Range(e.nextRepair, 1) && Counted(e, e', packets)
            && e'.nextSource == e.nextSource && e'.window == e.window && e'.rate == e.rate
  {
    hide MakeRepair;
    var packets := GenerateRepair(f, e).1;
    assert packets[1..] == [];
  }

  /** The new source is sent, or a repair in its place. */
  lemma OneNew<E(!new)>(f: Field<E>, e: EncoderState<E>)
    requires e.window != [] && e.window[|e.window| - 1].id == e.nextSource
    ensures var (e', packets) := SendNew(f, e);
            && SourceIds(packets) == (if e.systematic then Range(e.nextSource, 1) else [])
            && RepairIds(packets) == (if e.systematic then [] else Range(e.nextRepair, 1))
            && Counted(e, e', packets)
            && e'.nextSource == e.nextSource && e'.window == e.window && e'.rate == e.rate
  {
    hide GenerateRepair;
    if e.systematic {
      var packets := SendNew(f, e).1;
      assert packets[1..] == [];
    } else {
      OneRepair(f, e);
    }
  }

  /** One commit sends the new source, or a repair in its place, and one more repair every `rate` sources. */
  lemma OneCommit<E(!new)>(f: Field<E>, e: EncoderState<E>, data: seq<E>)
    requires e.windowSize > 0 && e.rate > 0
    ensures var (e', packets) := Commit(f, e, data);
            && SourceIds(packets) == (if e.systematic then Range(e.nextSource, 1) else [])
            && RepairIds(packets)
               == Range(e.nextRepair, (if e.systematic then 0 else 1) + Tick(e.nextSource, e.rate))
            && Counted(e, e', packets)
  {
    var slid := e.(window := Slide(e, data));
    SlideEnds(e, data);
    OneNew(f, slid);
    CommitIs(f, e, data);
    hide *;
    var sent, first := SendNew(f, slid).0, SendNew(f, slid).1;
    TickIs(e.nextSource, e.rate);
    if (e.nextSource + 1) % e.rate == 0 {
      OneRepair(f, sent);
      var done, second := GenerateRepair(f, sent).0, GenerateRepair(f, sent).1;
      IdsJoin(first, second);
      RangeJoins(e.nextRepair, if e.systematic then 0 else 1, 1);
      CountedTwice(slid, sent, done, first, second);
      CountedSame(slid, e, done, Commit(f, e, data).0, first + second);
    } else {
      CountedSame(slid, e, sent, Commit(f, e, data).0, first);
    }
    NoRange(e.nextRepair);
  }

  lemma NoRange(from: nat)
    ensures Range(from, 0) == []
  {
  }

  lemma TickIs(from: nat, rate: nat)
    requires rate > 0
    ensures Tick(from, rate) == if (from + 1) % rate == 0 then 1 else 0
  {
  }

  lemma CommitIs<E(!new)>(f: Field<E>, e: EncoderState<E>, data: seq<E>)
    requires e.windowSize > 0 && e.rate > 0
    ensures Slide(e, data) != []
    ensures var sent := SendNew(f, e.(window := Slide(e, data)));
            && sent.0.window != []
            && (if (e.nextSource + 1) % e.rate == 0 then
                  var repaired := GenerateRepair(f, sent.0);
                  Commit(f, e, data) == (repaired.0.(nextSource := e.nextSource + 1), sent.1 + repaired.1)
                else
                  Commit(f, e, data) == (sent.0.(nextSource := e.nextSource + 1), sent.1))
  {
    hide MakeRepair;
    var sent := SendNew(f, e.(window := Slide(e, data)));
    assert sent.1 + [] == sent.1;
  }

  /** The other fields do not matter to the counters. */
  lemma CountedSame<E>(a: EncoderState<E>, b: EncoderState<E>, a': EncoderState<E>, b': EncoderState<E>,
          p: seq<Packet<E>>)
    requires Counted(a, a', p)
    requires b == a.(window := b.window, nextSource := b.nextSource)
    requires b' == a'.(window := b'.window, nextSource := b'.nextSource)
    ensures Counted(b, b', p)
  {
    hide SourceIds, RepairIds;
  }

  lemma SlideEnds<E>(e: EncoderState<E>, data: seq<E>)
    requires e.windowSize > 0
    ensures var w := Slide(e, data); w != [] && w[|w| - 1].id == e.nextSource
  {
  }

  /** The multiples of `rate` up to a number, one number further. */
  lemma NextMultiple(n: nat, rate: nat)
    requires rate > 0
    ensures (n + 1) / rate == n / rate + (if (n + 1) % rate == 0 then 1 else 0)
  {
    var q, r := n / rate, n % rate;
    assert n == q * rate + r;
    if r + 1 == rate {
      assert n + 1 == (q + 1) * rate;
      UniqueQuotient(q + 1, 0, n + 1, rate);
    } else {
      UniqueQuotient(q, r + 1, n + 1, rate);
    }
  }

  /** One when the number after `from` is a multiple of `rate`. */
  function Tick(from: nat, rate: nat): nat
    requires rate > 0
  {
    if (from + 1) % rate == 0 then 1 else 0
  }

  /** How many of the `n` numbers after `from` are multiples of `rate`. */
  function Multiples(from: nat, n: nat, rate: nat): nat
    requires rate > 0
    decreases n
  {
    if n == 0 then 0 else Tick(from, rate) + Multiples(from + 1, n - 1, rate)
  }

  lemma FirstMultiple(from: nat, n: nat, rate: nat)
    requires rate > 0 && n > 0
    ensures Multiples(from, n, rate) == Tick(from, rate) + Multiples(from + 1, n - 1, rate)
  {
  }

  lemma {:induction false} MultiplesAre(from: nat, n: nat, rate: nat)
    requires rate > 0
    ensures Multiples(from, n, rate) == (from + n) / rate - from / rate
    decreases n
  {
    if n > 0 {
      MultiplesAre(from + 1, n - 1, rate);
      NextMultiple(from, rate);
      assert from + 1 + (n - 1) == from + n;
    }
  }

  /** A series of commits at a fixed rate sends every source once, in order, and a repair for every multiple of the
      rate among the identifiers that follow; without systematic mode repairs take the place of the sources.
      Repairs are numbered one after the other. */
  lemma {:induction false} CommitsSend<E(!new)>(f: Field<E>, e: EncoderState<E>, datas: seq<seq<E>>)
    requires e.windowSize > 0 && e.rate > 0
    ensures var (e', packets) := CommitAll(f, e, datas);
            var n, extra := |datas|, Multiples(e.nextSource, |datas|, e.rate);
            && SourceIds(packets) == (if e.systematic then Range(e.nextSource, n) else [])
            && RepairIds(packets) == Range(e.nextRepair, if e.systematic then extra else n + extra)
            && Counted(e, e', packets)
            && e'.nextSource == e.nextSource + n
    decreases |datas|
  {
    hide *;
    if datas == [] {
      NoCommit(f, e);
    } else {
      var e1, first, e2, rest := FirstCommit(f, e, datas);
      CommitsSend(f, e1, datas[1..]);
      FirstMultiple(e.nextSource, |datas|, e.rate);
      var extra := Multiples(e1.nextSource, |datas[1..]|, e1.rate);
      var one := (if e.systematic then 0 else 1) + Tick(e.nextSource, e.rate);
      var more := if e.systematic then extra else |datas| - 1 + extra;
      assert |datas[1..]| == |datas| - 1;
      IdsJoin(first, rest);
      CountedTwice(e, e1, e2, first, rest);
      RangeJoins(e.nextSource, 1, |datas| - 1);
      RangeJoins(e.nextRepair, one, more);
      assert RepairIds(rest) == Range(e.nextRepair + one, more);
      assert e.systematic ==> SourceIds(rest) == Range(e.nextSource + 1, |datas| - 1);
      assert !e.systematic ==> SourceIds(first) + SourceIds(rest) == [];
    }
  }

  lemma NoCommit<E(!new)>(f: Field<E>, e: EncoderState<E>)
    requires e.windowSize > 0 && e.rate > 0
    ensures CommitAll(f, e, []) == (e, []) && SourceIds<E>([]) == [] && RepairIds<E>([]) == []
    ensures Multiples(e.nextSource, 0, e.rate) == 0 && Counted(e, e, [])
    ensures forall from: nat :: Range(from, 0) == []
  {
  }

  lemma FirstCommit<E(!new)>(f: Field<E>, e: EncoderState<E>, datas: seq<seq<E>>)
    returns (e1: EncoderState<E>, first: seq<Packet<E>>, e2: EncoderState<E>, rest: seq<Packet<E>>)
    requires e.windowSize > 0 && e.rate > 0 && datas != []
    ensures e1.windowSize == e.windowSize && e1.rate == e.rate && e1.systematic == e.systematic
    ensures e1.nextSource == e.nextSource + 1
    ensures e1.nextRepair == e.nextRepair + (if e.systematic then 0 else 1) + Tick(e.nextSource, e.rate)
    ensures (e2, rest) == CommitAll(f, e1, datas[1..]) && CommitAll(f, e, datas) == (e2, first + rest)
    ensures SourceIds(first) == if e.systematic then Range(e.nextSource, 1) else []
    ensures RepairIds(first) == Range(e.nextRepair, (if e.systematic then 0 else 1) + Tick(e.nextSource, e.rate))
    ensures Counted(e, e1, first)
  {
    SettingsStay(f, e, datas[0]);
    OneCommit(f, e, datas[0]);
    var c := Commit(f, e, datas[0]);
    e1, first := c.0, c.1;
    hide Commit, Slide, SourceIds, RepairIds, Tick;
    var more := CommitAll(f, e1, datas[1..]);
    e2, rest := more.0, more.1;
  }

  /** From the start, `n` systematic commits send the sources 0 to n - 1 and exactly `n / rate` repairs. */
  lemma Cadence<E(!new)>(f: Field<E>, e: EncoderState<E>, datas: seq<seq<E>>)
    requires e.windowSize > 0 && e.rate > 0 && e.systematic && e.nextSource == 0
    ensures SourceIds(CommitAll(f, e, datas).1) == Range(0, |datas|)
    ensures |RepairIds(CommitAll(f, e, datas).1)| == |datas| / e.rate
    ensures RepairIds(CommitAll(f, e, datas).1) == Range(e.nextRepair, |RepairIds(CommitAll(f, e, datas).1)|)
  {
    hide *;
    CommitsSend(f, e, datas);
    MultiplesAre(0, |datas|, e.rate);
    UniqueQuotient(0, 0, 0, e.rate);
    RangeSize(e.nextRepair, Multiples(0, |datas|, e.rate));
  }

  lemma RangeSize(from: nat, n: nat)
    ensures |Range(from, n)| == n
  {
  }

  // ----- the size of the window

  /** One commit keeps the window within its size exactly when it was so before: the test is for equality. */
  lemma SlideBounded<E>(e: EncoderState<E>, data: seq<E>)
    requires e.windowSize > 0
    ensures |Slide(e, data)| <= e.windowSize <==> |e.window| <= e.windowSize
  {
  }

  /** A window larger than its size, after the size was reduced, grows with every commit; any other one stays
      within its size. */
  lemma {:induction false} WindowAfter<E(!new)>(f: Field<E>, e: EncoderState<E>, datas: seq<seq<E>>)
    requires e.windowSize > 0 && e.rate > 0
    ensures var n := |CommitAll(f, e, datas).0.window|;
            if |e.window| > e.windowSize then n == |e.window| + |datas|
            else n == if |e.window| + |datas| <= e.windowSize then |e.window| + |datas| else e.windowSize
    decreases |datas|
  {
    if datas != [] {
      SettingsStay(f, e, datas[0]);
      var e1 := Commit(f, e, datas[0]).0;
      assert |Slide(e, datas[0])| == if |e.window| == e.windowSize then e.windowSize else |e.window| + 1;
      hide Commit, Slide;
      WindowAfter(f, e1, datas[1..]);
    }
  }

  /** The rate chosen from acknowledgements never makes the modulus zero. */
  lemma {:induction false} RatesStayPositive<E>(e: EncoderState<E>, acks: seq<(set<nat>, nat)>)
    requires e.rate > 0
    ensures NotifyAll(e, acks).rate > 0
    ensures e.adaptive && acks != [] ==> 1 <= NotifyAll(e, acks).rate <= 50
    decreases |acks|
  {
    if acks != [] {
      var (acked, received) := acks[0];
      AdaptedRateBounds(e.sentPackets, received);
      RatesStayPositive(Notify(e, acked, received), acks[1..]);
    }
  }

  function NotifyAll<E>(e: EncoderState<E>, acks: seq<(set<nat>, nat)>): EncoderState<E>
    decreases |acks|
  {
    if acks == [] then e else NotifyAll(Notify(e, acks[0].0, acks[0].1), acks[1..])
  }
}
