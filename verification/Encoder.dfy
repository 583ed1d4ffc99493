/** `netcode/detail/source_list.hh`, `netcode/detail/encoder.cc` and `netcode/encoder.hh` in their own form:
    methods that change the window, the repair being built and the counters in place. */
module Encoder {
  import opened Wrappers
  import opened GaloisField
  import opened Ids
  import opened Symbols
  import opened EncoderModel

  /** The state of `erase` with cursor `i` in the list and `j` in the identifiers: what precedes `i` is
      settled, and the identifiers that precede `j` are older than all the rest. */
  ghost predicate Erasing<E>(before: seq<Source<E>>, now: seq<Source<E>>, i: nat, ids: seq<nat>, j: nat) {
    && i <= |now| && j <= |ids|
    && WindowSorted(now)
    && now[..i] + Unacknowledged(now[i..], ToSet(ids)) == Unacknowledged(before, ToSet(ids))
    && forall p, q | i <= p < |now| && 0 <= q < j :: ids[q] < now[p].id
  }

  lemma ErasingStarts<E>(w: seq<Source<E>>, ids: seq<nat>)
    requires WindowSorted(w)
    ensures Erasing(w, w, 0, ids, 0)
  {
    assert w[0..] == w && w[..0] == [];
  }

  lemma ErasingDrops<E>(before: seq<Source<E>>, now: seq<Source<E>>, i: nat, ids: seq<nat>, j: nat)
    requires Erasing(before, now, i, ids, j) && i < |now| && j < |ids| && now[i].id == ids[j]
    ensures Erasing(before, now[..i] + now[i + 1..], i, ids, j + 1)
  {
    var t := now[..i] + now[i + 1..];
    assert t[..i] == now[..i] && t[i..] == now[i..][1..];
    assert now[i..][0] == now[i] && ids[j] in ToSet(ids);
    forall p | i <= p < |t|
      ensures t[p] == now[p + 1]
    {
    }
  }

  lemma ErasingSkipsId<E>(before: seq<Source<E>>, now: seq<Source<E>>, i: nat, ids: seq<nat>, j: nat)
    requires Erasing(before, now, i, ids, j) && i < |now| && j < |ids| && now[i].id > ids[j]
    ensures Erasing(before, now, i, ids, j + 1)
  {
  }

  lemma ErasingKeeps<E>(before: seq<Source<E>>, now: seq<Source<E>>, i: nat, ids: seq<nat>, j: nat)
    requires Increasing(ids) && Erasing(before, now, i, ids, j) && i < |now| && j < |ids| && now[i].id < ids[j]
    ensures Erasing(before, now, i + 1, ids, j)
  {
    NotListed(ids, j, now[i].id);
    assert now[i..][0] == now[i] && now[i..][1..] == now[i + 1..];
    assert now[..i + 1] == now[..i] + [now[i]];
    Associate(now[..i], [now[i]], Unacknowledged(now[i + 1..], ToSet(ids)));
  }

  lemma NoneListed<E>(before: seq<Source<E>>, now: seq<Source<E>>, i: nat, ids: seq<nat>, j: nat)
    requires Increasing(ids) && Erasing(before, now, i, ids, j) && (i == |now| || j == |ids|)
    ensures forall p | 0 <= p < |now[i..]| :: now[i..][p].id !in ToSet(ids)
  {
    hide Unacknowledged, WindowSorted;
    var rest := now[i..];
    forall p | 0 <= p < |rest|
      ensures rest[p].id !in ToSet(ids)
    {
      assert rest[p] == now[i + p] && j == |ids|;
      NotListed(ids, |ids|, now[i + p].id);
    }
  }

  lemma ErasingEnds<E>(before: seq<Source<E>>, now: seq<Source<E>>, i: nat, ids: seq<nat>, j: nat)
    requires Increasing(ids) && Erasing(before, now, i, ids, j) && (i == |now| || j == |ids|)
    ensures now == Unacknowledged(before, ToSet(ids))
  {
    hide Unacknowledged, WindowSorted, ToSet, Increasing;
    NoneListed(before, now, i, ids, j);
    NothingToErase(now[i..], ToSet(ids));
    assert now[..i] + now[i..] == now;
  }

  lemma NothingToErase<E>(w: seq<Source<E>>, acked: set<nat>)
    requires forall i | 0 <= i < |w| :: w[i].id !in acked
    ensures Unacknowledged(w, acked) == w
  {
    if w != [] {
      NothingToErase(w[1..], acked);
      assert w == [w[0]] + w[1..];
    }
  }

  /** Greater than what precedes `j` and less than what follows: not in the list. */
  lemma NotListed(ids: seq<nat>, j: nat, s: nat)
    requires j <= |ids| && Increasing(ids)
    requires (forall q | 0 <= q < j :: ids[q] < s) && (j < |ids| ==> s < ids[j])
    ensures s !in ids && s !in ToSet(ids)
  {
  }

  class SourceList<E> {
    var sources: seq<Source<E>>

    constructor ()
      ensures sources == []
    {
      sources := [];
    }

    method Emplace(id: nat, data: seq<E>)
      modifies this
      ensures sources == old(sources) + [Source(id, data)]
    {
      sources := sources + [Source(id, data)];
    }

    method PopFront()
      requires sources != []
      modifies this
      ensures sources == old(sources)[1..]
    {
      sources := sources[1..];
    }

    /** Erases the sources listed in `ids`, with one cursor in each of the two sorted lists. Identifiers
        that are not in the list any more are skipped. */
    method Erase(ids: seq<nat>)
      requires WindowSorted(sources) && Increasing(ids)
      modifies this
      ensures sources == Unacknowledged(old(sources), ToSet(ids))
    {
      hide Unacknowledged, WindowSorted;
      ghost var before := sources;
      var i, j := 0, 0;
      ErasingStarts(sources, ids);
      while i < |sources| && j < |ids|
        invariant Erasing(before, sources, i, ids, j)
        decreases |sources| - i + |ids| - j
      {
        if sources[i].id == ids[j] {
          ErasingDrops(before, sources, i, ids, j);
          sources := sources[..i] + sources[i + 1..];
          j := j + 1;
        } else if sources[i].id > ids[j] {
          ErasingSkipsId(before, sources, i, ids, j);
          j := j + 1;
        } else {
          ErasingKeeps(before, sources, i, ids, j);
          i := i + 1;
        }
      }
      ErasingEnds(before, sources, i, ids, j);
    }
  }

  /** The coding loop: the window is combined into one repair. */
  method BuildRepair<E(!new)>(f: Field<E>, id: nat, window: seq<Source<E>>) returns (r: Repair<E>)
    requires window != []
    ensures r == MakeRepair(f, id, window)
  {
    var first := window[0];
    var c := f.Coefficient(id, first.id);
    r := Repair(id, f.Scale(c, f.enc(|first.data|)), {first.id}, f.Scale(c, first.data));
    assert window[..1] == [first];
    OneSource(f, id, first);
    hide MakeRepair;
    for i := 1 to |window|
      invariant r == MakeRepair(f, id, window[..i])
    {
      OneMoreSource(f, id, window, i);
      var src := window[i];
      if |src.data| > |r.symbol| {
        r := r.(symbol := r.symbol + f.Zeros(|src.data| - |r.symbol|));
      }
      c := f.Coefficient(id, src.id);
      r := r.(ids := r.ids + {src.id}, symbol := f.AddScaled(r.symbol, c, src.data));
      r := r.(size := f.AddScaled(r.size, c, f.enc(|src.data|)));
    }
    assert window[..|window|] == window;
  }

  lemma OneSource<E(!new)>(f: Field<E>, id: nat, src: Source<E>)
    ensures MakeRepair(f, id, [src]) == StartRepair(f, id, src)
  {
  }

  lemma OneMoreSource<E(!new)>(f: Field<E>, id: nat, window: seq<Source<E>>, i: nat)
    requires 1 <= i < |window|
    ensures MakeRepair(f, id, window[..i + 1]) == ExtendRepair(f, MakeRepair(f, id, window[..i]), window[i])
  {
    assert window[..i + 1][..i] == window[..i];
  }

  class Encoder<E(!new)> {
    const f: Field<E>
    const list: SourceList<E>
    var nextSource: nat
    var nextRepair: nat
    var rate: nat
    var windowSize: nat
    var systematic: bool
    var adaptive: bool
    var sentSources: nat
    var sentRepairs: nat
    var receivedAcks: nat
    var sentPackets: nat
    var handled: seq<Packet<E>>

    /** The fields as one value. */
    ghost function Model(): EncoderState<E>
      reads this, list
    {
      EncoderState(list.sources, nextSource, nextRepair, rate, windowSize, systematic, adaptive,
                                   sentSources, sentRepairs, receivedAcks, sentPackets)
    }

    constructor (field: Field<E>, maximum: nat)
      ensures f == field && fresh(list) && handled == []
      ensures Model() == EncoderState([], 0, 0, 5, maximum, true, false, 0, 0, 0, 0)
    {
      f := field;
      list := new SourceList<E>();
      nextSource, nextRepair, rate, windowSize := 0, 0, 5, maximum;
      systematic, adaptive := true, false;
      sentSources, sentRepairs, receivedAcks, sentPackets := 0, 0, 0, 0;
      handled := [];
    }

    /** The user's handler takes a packet. */
    method Handle(p: Packet<E>)
      modifies this`handled
      ensures handled == old(handled) + [p]
    {
      handled := handled + [p];
    }

    method GenerateRepair()
      requires list.sources != []
      modifies this
      ensures Model() == EncoderModel.GenerateRepair(f, old(Model())).0
      ensures handled == old(handled) + EncoderModel.GenerateRepair(f, old(Model())).1
    {
      assert |list.sources| > 0; // the window is not empty
      var r := BuildRepair(f, nextRepair, list.sources);
      nextRepair := nextRepair + 1;
      sentRepairs := sentRepairs + 1;
      sentPackets := (sentPackets + 1) % 65536;
      Handle(RepairPacket(r));
    }

    /** The new source enters the window; a full window gives up its oldest source. */
    method SlideWindow(data: seq<E>)
      requires windowSize > 0
      modifies list
      ensures list.sources == Slide(old(Model()), data)
    {
      if |list.sources| == windowSize {
        list.PopFront();
      }
      list.Emplace(nextSource, data);
    }

    method SendNewSource()
      requires list.sources != []
      modifies this
      ensures Model() == SendNew(f, old(Model())).0
      ensures handled == old(handled) + SendNew(f, old(Model())).1
    {
      if systematic {
        sentSources := sentSources + 1;
        sentPackets := (sentPackets + 1) % 65536;
        Handle(SourcePacket(list.sources[|list.sources| - 1]));
      } else {
        GenerateRepair();
      }
    }

    /** A new source is given to the encoder. */
    method Commit(data: seq<E>)
      requires data != [] && windowSize > 0 && rate > 0
      modifies this, list
      ensures Model() == EncoderModel.Commit(f, old(Model()), data).0
      ensures handled == old(handled) + EncoderModel.Commit(f, old(Model()), data).1
    {
      hide SendNew, EncoderModel.GenerateRepair, Slide;
      ghost var e := Model();
      SlideWindow(data);
      SlideNotEmpty(e, data);
      ghost var slid := e.(window := Slide(e, data));
      assert Model() == slid;
      SendNewKeeps(f, slid);
      SendNewSource();
      if (nextSource + 1) % rate == 0 {
        GenerateRepair();
        RepairKeeps(f, SendNew(f, slid).0);
      }
      nextSource := nextSource + 1;
    }

    /** The rate follows the share of the packets that were lost. */
    method AdaptRate(received: nat)
      requires adaptive
      modifies this`rate
      ensures rate == AdaptedRate(sentPackets, received)
    {
      AdaptedRateBounds(sentPackets, received);
      if sentPackets > 0 {
        rate := RateForLoss(LossRate(sentPackets, received));
      } else {
        rate := RateForLoss(0.0);
      }
    }

    /** An acknowledgement is received. */
    method Notify(acked: set<nat>, received: nat)
      requires WindowSorted(list.sources)
      modifies this, list
      ensures Model() == EncoderModel.Notify(old(Model()), acked, received)
      ensures handled == old(handled)
    {
      hide Unacknowledged, AdaptedRate, WindowSorted, Sorted;
      receivedAcks := receivedAcks + 1;
      if adaptive {
        AdaptRate(received);
      }
      sentPackets := 0;
      SortedToSet(acked);
      list.Erase(Sorted(acked));
    }
  }

  lemma SlideNotEmpty<E>(e: EncoderState<E>, data: seq<E>)
    requires e.windowSize > 0
    ensures Slide(e, data) != []
  {
  }

  lemma RepairKeeps<E(!new)>(f: Field<E>, e: EncoderState<E>)
    requires e.window != []
    ensures var t := EncoderModel.GenerateRepair(f, e).0;
            t.window == e.window && t.nextSource == e.nextSource && t.rate == e.rate
  {
  }

  lemma SendNewKeeps<E(!new)>(f: Field<E>, e: EncoderState<E>)
    requires e.window != []
    ensures var t := SendNew(f, e).0;
            t.window == e.window && t.nextSource == e.nextSource && t.rate == e.rate
  {
  }
}
