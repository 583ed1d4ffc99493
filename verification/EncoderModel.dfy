/** What the encoder does with its window (`netcode/encoder.hh`, `netcode/detail/encoder.cc`), as functions
    on values. `Encoder.dfy` has the methods that change the state in place. */
module EncoderModel {
  import opened GaloisField
  import opened Ids
  import opened Symbols

  datatype Packet<E> = SourcePacket(source: Source<E>) | RepairPacket(repair: Repair<E>)

  /** The fields of the encoder. `sentPackets` is a 16-bit counter. */
  datatype EncoderState<E> = EncoderState(
    window: seq<Source<E>>,
    nextSource: nat,
    nextRepair: nat,
    rate: nat,
    windowSize: nat,
    systematic: bool,
    adaptive: bool,
    sentSources: nat,
    sentRepairs: nat,
    receivedAcks: nat,
    sentPackets: nat)

  // ----- building a repair

  /** The first source of the window gives the repair its size. */
  function StartRepair<E(!new)>(f: Field<E>, id: nat, src: Source<E>): Repair<E> {
    var c := f.Coefficient(id, src.id);
    Repair(id, f.Scale(c, f.enc(|src.data|)), {src.id}, f.Scale(c, src.data))
  }

  /** `resize`: the buffer is only ever enlarged, with zeros. */
  function Grow<E(!new)>(f: Field<E>, v: seq<E>, n: nat): seq<E> {
    if n > |v| then v + f.Zeros(n - |v|) else v
  }

  function ExtendRepair<E(!new)>(f: Field<E>, r: Repair<E>, src: Source<E>): Repair<E> {
    var c := f.Coefficient(r.id, src.id);
    Repair(r.id,
           f.AddScaled(r.size, c, f.enc(|src.data|)),
           r.ids + {src.id},
           f.AddScaled(Grow(f, r.symbol, |src.data|), c, src.data))
  }

  /** The repair of a whole window. */
  function MakeRepair<E(!new)>(f: Field<E>, id: nat, window: seq<Source<E>>): (r: Repair<E>)
    requires window != []
    ensures r.id == id
  {
    if |window| == 1 then StartRepair(f, id, window[0])
    else ExtendRepair(f, MakeRepair(f, id, window[..|window| - 1]), window[|window| - 1])
  }

  ghost function WindowIds<E>(window: seq<Source<E>>): set<nat> {
    set x | x in window :: x.id
  }

  ghost predicate WindowSorted<E>(window: seq<Source<E>>) {
    forall i, j | 0 <= i < j < |window| :: window[i].id < window[j].id
  }

  ghost predicate WindowTrue<E>(truth: Truth<E>, window: seq<Source<E>>) {
    forall i | 0 <= i < |window| :: window[i].id in truth && truth[window[i].id] == window[i].data
  }

  lemma GrowAt<E(!new)>(f: Field<E>, v: seq<E>, n: nat, i: nat)
    ensures f.At(Grow(f, v, n), i) == f.At(v, i) && |v| <= |Grow(f, v, n)| && n <= |Grow(f, v, n)|
  {
  }

  lemma WindowIdsLast<E>(window: seq<Source<E>>)
    requires window != [] && WindowSorted(window)
    ensures var init, last := window[..|window| - 1], window[|window| - 1];
            && WindowIds(window) == WindowIds(init) + {last.id} && last.id !in WindowIds(init)
            && WindowSorted(init)
  {
  }

  lemma StartRepairOk<E(!new)>(f: Field<E>, truth: Truth<E>, id: nat, src: Source<E>)
    requires f.Laws() && TruthOk(f, truth) && src.id in truth && truth[src.id] == src.data
    ensures RepairOk(f, truth, StartRepair(f, id, src))
  {
    var c := f.Coefficient(id, src.id);
    var r := StartRepair(f, id, src);
    f.NatLaw(|src.data|);
    forall i: nat
      ensures f.At(r.size + r.symbol, i) == Comb(f, id, r.ids, truth, i)
    {
      assert r.size + r.symbol == f.Scale(c, Word(f, src.data));
      f.AtScale(c, Word(f, src.data), i);
      CombRemove(f, id, r.ids, truth, i, src.id);
      assert r.ids - {src.id} == {};
      f.AddZero(Term(f, id, src.id, truth, i));
    }
  }

  lemma ExtendRepairOk<E(!new)>(f: Field<E>, truth: Truth<E>, r: Repair<E>, src: Source<E>)
    requires f.Laws() && TruthOk(f, truth) && RepairOk(f, truth, r)
    requires src.id in truth && truth[src.id] == src.data && src.id !in r.ids
    ensures RepairOk(f, truth, ExtendRepair(f, r, src))
  {
    var c := f.Coefficient(r.id, src.id);
    var t := ExtendRepair(f, r, src);
    var grown := Grow(f, r.symbol, |src.data|);
    GrowAt(f, r.symbol, |src.data|, 0);
    forall i: nat
      ensures f.At(t.size + t.symbol, i) == Comb(f, r.id, t.ids, truth, i)
    {
      WordAddScaled(f, r.size, grown, c, src.data, i);
      AtConcat(f, r.size, grown, i);
      AtConcat(f, r.size, r.symbol, i);
      if i >= |r.size| {
        GrowAt(f, r.symbol, |src.data|, i - |r.size|);
      }
      CombRemove(f, r.id, t.ids, truth, i, src.id);
      assert t.ids - {src.id} == r.ids;
      f.Law(Comb(f, r.id, r.ids, truth, i), Term(f, r.id, src.id, truth, i), f.zero);
    }
  }

  /** A repair encodes exactly the window, and is the combination of the committed sources in it. */
  lemma {:induction false} MakeRepairOk<E(!new)>(f: Field<E>, truth: Truth<E>, id: nat, window: seq<Source<E>>)
    requires f.Laws() && TruthOk(f, truth) && window != [] && WindowSorted(window) && WindowTrue(truth, window)
    ensures RepairOk(f, truth, MakeRepair(f, id, window))
    ensures MakeRepair(f, id, window).ids == WindowIds(window)
  {
    var init, last := window[..|window| - 1], window[|window| - 1];
    WindowIdsLast(window);
    if |window| == 1 {
      StartRepairOk(f, truth, id, last);
      assert WindowIds(init) == {};
    } else {
      MakeRepairOk(f, truth, id, init);
      ExtendRepairOk(f, truth, MakeRepair(f, id, init), last);
    }
  }

  /** The length of the longest source of the window. */
  ghost predicate Longest<E>(window: seq<Source<E>>, n: nat) {
    && (forall x | x in window :: |x.data| <= n)
    && (exists x :: x in window && |x.data| == n)
  }

  lemma LongestLast<E>(window: seq<Source<E>>, n: nat)
    requires |window| > 1 && Longest(window[..|window| - 1], n)
    ensures var last := window[|window| - 1];
            Longest(window, if |last.data| > n then |last.data| else n)
  {
    var init, last := window[..|window| - 1], window[|window| - 1];
    var x :| x in init && |x.data| == n;
    assert x in window && last in window;
    assert forall y | y in window :: y in init || y == last;
  }

  /** The symbol of a repair is as long as the longest source. */
  lemma {:induction false} SymbolIsLongest<E(!new)>(f: Field<E>, id: nat, window: seq<Source<E>>)
    requires window != []
    ensures Longest(window, |MakeRepair(f, id, window).symbol|)
    ensures |MakeRepair(f, id, window).size| == |f.enc(|window[0].data|)|
  {
    if |window| == 1 {
      assert window[0] in window;
    } else {
      var init := window[..|window| - 1];
      SymbolIsLongest(f, id, init);
      hide Longest, MakeRepair;
      LongestLast(window, |MakeRepair(f, id, init).symbol|);
      LastExtends(f, id, window);
    }
  }

  lemma LastExtends<E(!new)>(f: Field<E>, id: nat, window: seq<Source<E>>)
    requires |window| > 1
    ensures var n := |window| - 1;
            MakeRepair(f, id, window) == ExtendRepair(f, MakeRepair(f, id, window[..n]), window[n])
  {
  }

  lemma LongestIsOne<E>(window: seq<Source<E>>, n: nat, m: nat)
    requires Longest(window, n) && Longest(window, m)
    ensures n == m
  {
  }

  /** The repair of a window is the one right repair of exactly its sources that is as long as the longest of them. */
  lemma MakeRepairExactly<E(!new)>(f: Field<E>, truth: Truth<E>, id: nat, window: seq<Source<E>>, r: Repair<E>)
    requires f.Laws() && TruthOk(f, truth) && window != [] && WindowSorted(window) && WindowTrue(truth, window)
    ensures r == MakeRepair(f, id, window)
       <==> r.id == id && r.ids == WindowIds(window) && Longest(window, |r.symbol|) && RepairOk(f, truth, r)
  {
    hide *;
    MakeRepairOk(f, truth, id, window);
    SymbolIsLongest(f, id, window);
    if r.id == id && r.ids == WindowIds(window) && Longest(window, |r.symbol|) && RepairOk(f, truth, r) {
      LongestIsOne(window, |r.symbol|, |MakeRepair(f, id, window).symbol|);
      RightRepairIsUnique(f, truth, r, MakeRepair(f, id, window));
    }
  }

  // ----- the encoder's operations

  /** `generate_repair` */
  function GenerateRepair<E(!new)>(f: Field<E>, e: EncoderState<E>): (EncoderState<E>, seq<Packet<E>>)
    requires e.window != []
  {
    (e.(nextRepair := e.nextRepair + 1,
        sentRepairs := e.sentRepairs + 1,
        sentPackets := (e.sentPackets + 1) % 65536),
     [RepairPacket(MakeRepair(f, e.nextRepair, e.window))])
  }

  /** The window after a commit: the oldest source is given up when the window is full. */
  function Slide<E>(e: EncoderState<E>, data: seq<E>): seq<Source<E>>
    requires e.windowSize > 0
  {
    (if |e.window| == e.windowSize then e.window[1..] else e.window) + [Source(e.nextSource, data)]
  }

  /** What is sent first for a new source: the source itself, or a repair in its place. */
  function SendNew<E(!new)>(f: Field<E>, e: EncoderState<E>): (EncoderState<E>, seq<Packet<E>>)
    requires e.window != []
  {
    if e.systematic then
      (e.(sentSources := e.sentSources + 1, sentPackets := (e.sentPackets + 1) % 65536),
       [SourcePacket(e.window[|e.window| - 1])])
    else GenerateRepair(f, e)
  }

  /** `commit_impl` */
  function Commit<E(!new)>(f: Field<E>, e: EncoderState<E>, data: seq<E>): (EncoderState<E>, seq<Packet<E>>)
    requires e.windowSize > 0 && e.rate > 0
  {
    var (sent, first) := SendNew(f, e.(window := Slide(e, data)));
    var (done, second) :=
      if (e.nextSource + 1) % e.rate == 0 then GenerateRepair(f, sent) else (sent, []);
    (done.(nextSource := e.nextSource + 1), first + second)
  }

  /** `source_list::erase`, on a window and a set of acknowledged identifiers. */
  function Unacknowledged<E>(window: seq<Source<E>>, acked: set<nat>): seq<Source<E>> {
    if window == [] then []
    else (if window[0].id in acked then [] else [window[0]]) + Unacknowledged(window[1..], acked)
  }

  function Ceil(x: real): int {
    if x == x.Floor as real then x.Floor else x.Floor + 1
  }

  /** `rate_for_loss`, over the reals. */
  function RateForLoss(loss: real): int {
    if loss < 0.01 then 50 else Ceil(1.0 / loss / 2.0)
  }

  /** The share of the packets sent since the last ack that the decoder did not receive. */
  function LossRate(sent: nat, received: nat): real
    requires sent > 0
  {
    (sent as real - received as real) / sent as real
  }

  function AdaptedRate(sent: nat, received: nat): int {
    if sent > 0 then RateForLoss(LossRate(sent, received)) else RateForLoss(0.0)
  }

  /** The rate chosen from an acknowledgement is always between 1 and 50. */
  lemma AdaptedRateBounds(sent: nat, received: nat)
    ensures 1 <= AdaptedRate(sent, received) <= 50
  {
    if sent > 0 && LossRate(sent, received) >= 0.01 {
      var loss := LossRate(sent, received);
      LossAtMostOne(sent, received);
      assert 1.0 / loss >= 1.0;
      assert 1.0 / loss <= 100.0;
    }
  }

  lemma LossAtMostOne(sent: nat, received: nat)
    requires sent > 0
    ensures LossRate(sent, received) <= 1.0
  {
    var s, r := sent as real, received as real;
    assert (s - r) / s <= 1.0 by {
      assert s - r <= s;
    }
  }

  /** `notify_impl`, once the packet has been read. */
  function Notify<E>(e: EncoderState<E>, acked: set<nat>, received: nat): EncoderState<E> {
    AdaptedRateBounds(e.sentPackets, received);
    e.(receivedAcks := e.receivedAcks + 1,
       rate := if e.adaptive then AdaptedRate(e.sentPackets, received) else e.rate,
       sentPackets := 0,
       window := Unacknowledged(e.window, acked))
  }

  // ----- the window

  lemma {:induction false} UnacknowledgedMembers<E>(window: seq<Source<E>>, acked: set<nat>, x: Source<E>)
    ensures x in Unacknowledged(window, acked) <==> x in window && x.id !in acked
  {
    if window != [] {
      UnacknowledgedMembers(window[1..], acked, x);
      assert x in window <==> x == window[0] || x in window[1..];
    }
  }

  lemma {:induction false} UnacknowledgedSorted<E>(window: seq<Source<E>>, acked: set<nat>)
    requires WindowSorted(window)
    ensures WindowSorted(Unacknowledged(window, acked)) && |Unacknowledged(window, acked)| <= |window|
  {
    if window != [] {
      var rest := Unacknowledged(window[1..], acked);
      UnacknowledgedSorted(window[1..], acked);
      forall i | 0 <= i < |rest|
        ensures window[0].id < rest[i].id
      {
        UnacknowledgedMembers(window[1..], acked, rest[i]);
        var j :| 0 <= j < |window[1..]| && window[1..][j] == rest[i];
        assert window[j + 1] == rest[i];
      }
    }
  }

  /** `erase` keeps exactly what was not acknowledged, in order. */
  lemma UnacknowledgedKeeps<E>(window: seq<Source<E>>, acked: set<nat>)
    requires WindowSorted(window)
    ensures var w := Unacknowledged(window, acked);
            && WindowSorted(w)
            && WindowIds(w) == WindowIds(window) - acked
            && (forall i | 0 <= i < |w| :: w[i] in window)
            && |w| <= |window|
  {
    UnacknowledgedSorted(window, acked);
    forall x {
      UnacknowledgedMembers(window, acked, x);
    }
  }

  /** The oldest source the window still holds, or the next one to come. */
  ghost function LowMark<E>(e: EncoderState<E>): nat {
    if e.window == [] then e.nextSource else e.window[0].id
  }

  ghost predicate EncoderOk<E(!new)>(f: Field<E>, truth: Truth<E>, e: EncoderState<E>) {
    && (forall s: nat :: s in truth <==> s < e.nextSource)
    && TruthOk(f, truth)
    && WindowSorted(e.window)
    && WindowTrue(truth, e.window)
    && e.rate > 0
    && e.windowSize > 0
  }

  lemma WindowMin<E>(w: seq<Source<E>>)
    requires w != [] && WindowSorted(w)
    ensures WindowIds(w) != {} && Min(WindowIds(w)) == w[0].id
  {
    assert w[0] in w;
    forall s | s in WindowIds(w)
      ensures w[0].id <= s
    {
      var x :| x in w && x.id == s;
      var i :| 0 <= i < |w| && w[i] == x;
    }
    MinIs(WindowIds(w), w[0].id);
  }

  lemma PopKeeps<E>(w: seq<Source<E>>)
    requires w != [] && WindowSorted(w)
    ensures WindowSorted(w[1..])
    ensures WindowIds(w[1..]) == WindowIds(w) - {w[0].id}
    ensures forall s | s in WindowIds(w[1..]) :: w[0].id < s
  {
    forall x | x in w[1..]
      ensures w[0].id < x.id
    {
      var i :| 0 <= i < |w[1..]| && w[1..][i] == x;
      assert w[i + 1] == x;
    }
    assert forall x :: x in w <==> x == w[0] || x in w[1..];
  }

  lemma AppendKeeps<E>(w: seq<Source<E>>, src: Source<E>)
    requires WindowSorted(w) && forall s | s in WindowIds(w) :: s < src.id
    ensures WindowSorted(w + [src])
    ensures WindowIds(w + [src]) == WindowIds(w) + {src.id}
  {
    forall i | 0 <= i < |w|
      ensures w[i].id < src.id
    {
      assert w[i].id in WindowIds(w);
    }
    assert forall x :: x in w + [src] <==> x in w || x == src;
  }

  lemma WindowBelow<E(!new)>(f: Field<E>, truth: Truth<E>, e: EncoderState<E>)
    requires EncoderOk(f, truth, e)
    ensures forall s | s in WindowIds(e.window) :: s < e.nextSource
  {
    forall x | x in e.window
      ensures x.id < e.nextSource
    {
      var i :| 0 <= i < |e.window| && e.window[i] == x;
      assert e.window[i].id in truth;
    }
  }

  /** What a commit does to the window: one new source at the end, at most the oldest one gone. */
  lemma SlideKeeps<E(!new)>(f: Field<E>, truth: Truth<E>, e: EncoderState<E>, data: seq<E>)
    requires EncoderOk(f, truth, e) && 0 < |data| <= f.maxSize
    ensures var w, truth' := Slide(e, data), truth[e.nextSource := data];
            && w != [] && WindowSorted(w) && WindowTrue(truth', w) && TruthOk(f, truth')
            && w[|w| - 1] == Source(e.nextSource, data)
            && (forall s | s in WindowIds(w) :: s <= e.nextSource)
    ensures LowMark(e) <= Slide(e, data)[0].id
    ensures forall s | Slide(e, data)[0].id <= s && (s in WindowIds(e.window) || s == e.nextSource) ::
              s in WindowIds(Slide(e, data))
    ensures |e.window| <= e.windowSize ==> |Slide(e, data)| <= e.windowSize
  {
    WindowBelow(f, truth, e);
    var kept := if |e.window| == e.windowSize then e.window[1..] else e.window;
    if |e.window| == e.windowSize {
      PopKeeps(e.window);
    }
    AppendKeeps(kept, Source(e.nextSource, data));
    SlideMark(f, truth, e, data);
  }

  lemma SlideMark<E(!new)>(f: Field<E>, truth: Truth<E>, e: EncoderState<E>, data: seq<E>)
    requires EncoderOk(f, truth, e)
    ensures LowMark(e) <= Slide(e, data)[0].id
    ensures |e.window| == e.windowSize ==> LowMark(e) < Slide(e, data)[0].id
  {
    if e.window != [] {
      WindowBelow(f, truth, e);
      assert e.window[0] in e.window;
    }
  }
}
