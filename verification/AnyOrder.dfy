/** What holds of the decoder alone, for packets that arrive in any order, late or repeated, as long as each one
    meets the conditions of its assertions when it is processed. */
module AnyOrder {
  import opened GaloisField
  import opened Ids
  import opened Symbols
  import opened DecoderModel
  import opened EncoderModel
  import opened Peeling
  import opened Delivery
  import opened DecoderInvariant
  import opened DecoderSteps
  import opened NestedDecoding
  import opened SavedIterator
  import opened Permanence
  import opened Transmission

  /** A true source that no held repair encodes alone, or a right repair that does not start below what is
      outdated and either has no single unknown source or is alone with it; and in both cases the iterators that
      the decoder saves stay valid. */
  ghost predicate MayReceive<E(!new)>(f: Field<E>, truth: Truth<E>, d: State<E>, p: Packet<E>) {
    match p
    case SourcePacket(src) =>
      && src.id in truth && truth[src.id] == src.data && Strippable(d, src.id)
      && SourceKeepsIterators(f, d, src)
    case RepairPacket(r) =>
      && r.ids != {} && RepairOk(f, truth, r) && Low(d) <= Min(r.ids)
      && MayArrive(DropOutdated(d, Min(r.ids)), r.ids)
      && RepairKeepsIterators(d, r)
  }

  /** The decoder processes the packets one after the other. */
  ghost predicate Arrivals<E(!new)>(f: Field<E>, truth: Truth<E>, ds: seq<State<E>>, ps: seq<Packet<E>>,
          inOrder: bool) {
    && |ds| == |ps| + 1
    && ds[0] == Initial(inOrder)
    && (forall i | 0 <= i < |ps| :: MayReceive(f, truth, ds[i], ps[i]) && Receives(f, ds[i], ps[i], ds[i + 1]))
  }

  lemma ReceiveGood<E(!new)>(f: Field<E>, truth: Truth<E>, d: State<E>, p: Packet<E>, d': State<E>)
    requires f.Laws() && TruthOk(f, truth) && Good(f, truth, d, {}) && Balanced(d)
    requires MayReceive(f, truth, d, p) && Receives(f, d, p, d')
    ensures Good(f, truth, d', {}) && Balanced(d') && StillResolved(d, d') && Low(d) <= Low(d')
  {
    hide Good, Balanced, RepairOk, MayArrive, DropOutdated, Strippable, SourceStep, RepairStep, StillResolved;
    match p
    case SourcePacket(src) =>
      SourceStepGood(f, truth, d, src, d');
    case RepairPacket(r) =>
      RepairStepGood(f, truth, d, r, d');
  }

  lemma ReceiveLogs<E(!new)>(f: Field<E>, truth: Truth<E>, d: State<E>, p: Packet<E>, d': State<E>)
    requires f.Laws() && TruthOk(f, truth) && Good(f, truth, d, {}) && Balanced(d)
    requires MayReceive(f, truth, d, p) && Receives(f, d, p, d')
    ensures Logged(d, d')
  {
    hide Good, Balanced, RepairOk, MayArrive, DropOutdated, Strippable, SourceStep, RepairStep, StillResolved, Logged;
    match p
    case SourcePacket(src) =>
      SourceStepKeeps(f, truth, d, src, d');
    case RepairPacket(r) =>
      RepairStepLogs(f, truth, d, r, d');
  }

  lemma InitialGood<E(!new)>(f: Field<E>, truth: Truth<E>, inOrder: bool)
    ensures Good(f, truth, Initial(inOrder), {}) && Balanced(Initial<E>(inOrder))
  {
  }

  lemma {:induction false} ArrivalsGood<E(!new)>(f: Field<E>, truth: Truth<E>, ds: seq<State<E>>, ps: seq<Packet<E>>,
          inOrder: bool, i: nat)
    requires f.Laws() && TruthOk(f, truth) && Arrivals(f, truth, ds, ps, inOrder) && i < |ds|
    ensures Good(f, truth, ds[i], {}) && Balanced(ds[i]) && ds[i].inOrder == inOrder
  {
    hide Good, Balanced, MayReceive, Receives;
    if i == 0 {
      InitialGood(f, truth, inOrder);
    } else {
      ArrivalsGood(f, truth, ds, ps, inOrder, i - 1);
      assert Receives(f, ds[i - 1], ps[i - 1], ds[i - 1 + 1]);
      ReceiveGood(f, truth, ds[i - 1], ps[i - 1], ds[i]);
      ReceivesMode(f, ds[i - 1], ps[i - 1], ds[i]);
    }
  }

  lemma {:induction false} ArrivalsLog<E(!new)>(f: Field<E>, truth: Truth<E>, ds: seq<State<E>>, ps: seq<Packet<E>>,
          inOrder: bool, i: nat, j: nat)
    requires f.Laws() && TruthOk(f, truth) && Arrivals(f, truth, ds, ps, inOrder) && i <= j < |ds|
    ensures ds[i].log <= ds[j].log && Low(ds[i]) <= Low(ds[j])
    decreases j
  {
    hide Good, Balanced, MayReceive, Receives;
    if i < j {
      ArrivalsLog(f, truth, ds, ps, inOrder, i, j - 1);
      ArrivalsGood(f, truth, ds, ps, inOrder, j - 1);
      assert Receives(f, ds[j - 1], ps[j - 1], ds[j - 1 + 1]);
      ReceiveGood(f, truth, ds[j - 1], ps[j - 1], ds[j]);
      ReceiveLogs(f, truth, ds[j - 1], ps[j - 1], ds[j]);
    }
  }

  /** Whatever the order of arrival: what the callback is given is what was committed, never twice the same
      identifier, in increasing order if so asked, and then everything between what is outdated and the first
      missing source is stored. */
  lemma ArrivalsDeliver<E(!new)>(f: Field<E>, truth: Truth<E>, ds: seq<State<E>>, ps: seq<Packet<E>>, inOrder: bool,
          i: nat, j: nat)
    requires f.Laws() && TruthOk(f, truth) && Arrivals(f, truth, ds, ps, inOrder) && i <= j < |ds|
    ensures ds[i].log <= ds[j].log
    ensures forall k | 0 <= k < |ds[i].log| ::
              ds[i].log[k].id in truth && ds[i].log[k].data == truth[ds[i].log[k].id]
    ensures forall k, l | 0 <= k < l < |ds[j].log| ::
              if inOrder then ds[j].log[k].id < ds[j].log[l].id else ds[j].log[k].id != ds[j].log[l].id
    ensures inOrder ==> forall m: nat | Low(ds[i]) <= m < ds[i].firstMissing :: m in ds[i].sources
  {
    ArrivalsLog(f, truth, ds, ps, inOrder, i, j);
    ArrivalsGood(f, truth, ds, ps, inOrder, i);
    ArrivalsGood(f, truth, ds, ps, inOrder, j);
    hide Arrivals;
    GoodGives(f, truth, ds[i], {});
    GoodGives(f, truth, ds[j], {});
    hide Good;
  }
}
