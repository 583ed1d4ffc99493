/** What the callback receives: true data, never twice, and in increasing order when this was asked for.
    `pending` holds the sources that `add_source_recursive` is working on and has not stored yet. */
module Delivery {
  import opened Wrappers
  import opened Ids
  import opened Symbols
  import opened DecoderModel

  /** Identifiers below this bound are outdated. */
  function Low<E>(d: State<E>): nat {
    if d.lastId.Some? then d.lastId.value else 0
  }

  ghost predicate SourcesTrue<E>(truth: Truth<E>, d: State<E>) {
    forall s | s in d.sources :: s in truth && d.sources[s] == truth[s]
  }

  ghost predicate LogTrue<E>(truth: Truth<E>, log: seq<Source<E>>) {
    forall i | 0 <= i < |log| :: log[i].id in truth && log[i].data == truth[log[i].id]
  }

  ghost predicate LogIncreasing<E>(log: seq<Source<E>>) {
    forall i, j | 0 <= i < j < |log| :: log[i].id < log[j].id
  }

  ghost predicate LogDistinct<E>(log: seq<Source<E>>) {
    forall i, j | 0 <= i < j < |log| :: log[i].id != log[j].id
  }

  ghost predicate LogBelow<E>(log: seq<Source<E>>, bound: nat) {
    forall i | 0 <= i < |log| :: log[i].id < bound
  }

  /** Every source between the outdated ones and the first missing one has been received. */
  ghost predicate Covered<E>(d: State<E>, pending: set<nat>) {
    forall m | Low(d) <= m < d.firstMissing :: m in d.sources || m in pending
  }

  /** In-order mode. `slack` is 1 before a flush, when the first missing source may be in the queue. */
  ghost predicate InOrder<E>(d: State<E>, pending: set<nat>, slack: nat) {
    && d.ordered <= d.sources.Keys
    && (forall s | s in d.ordered :: d.firstMissing < s + slack)
    && LogIncreasing(d.log)
    && LogBelow(d.log, d.firstMissing)
    && Covered(d, pending)
  }

  /** Unordered mode. */
  ghost predicate Unordered<E>(d: State<E>, pending: set<nat>) {
    && LogDistinct(d.log)
    && forall i | 0 <= i < |d.log| ::
         d.log[i].id in d.sources || d.log[i].id in pending || d.log[i].id < Low(d)
  }

  ghost predicate Delivers<E>(d: State<E>, pending: set<nat>) {
    if d.inOrder then InOrder(d, pending, 0) else Unordered(d, pending)
  }

  // ----- flushing

  lemma {:induction false} FlushInOrder<E>(truth: Truth<E>, d: State<E>, pending: set<nat>)
    requires InOrder(d, pending, 1) && SourcesTrue(truth, d) && LogTrue(truth, d.log)
    ensures InOrder(Flush(d), pending, 0) && LogTrue(truth, Flush(d).log)
    ensures d.firstMissing <= Flush(d).firstMissing
    decreases |d.ordered|
  {
    var s := d.firstMissing;
    if s in d.ordered && s in d.sources {
      var t := d.(log := d.log + [Source(s, d.sources[s])], ordered := d.ordered - {s}, firstMissing := s + 1);
      FlushInOrder(truth, t, pending);
    }
  }

  lemma AnnounceDelivers<E>(truth: Truth<E>, d: State<E>, src: Source<E>, pending: set<nat>)
    requires Delivers(d, pending) && SourcesTrue(truth, d) && LogTrue(truth, d.log)
    requires src.id in truth && truth[src.id] == src.data
    requires src.id !in d.sources && src.id !in pending && Low(d) <= src.id
    ensures Delivers(Announce(d, src), pending + {src.id}) && LogTrue(truth, Announce(d, src).log)
  {
    if d.inOrder && src.id == d.firstMissing {
      var t := d.(log := d.log + [src], firstMissing := d.firstMissing + 1);
      FlushInOrder(truth, t, pending + {src.id});
    }
  }

  lemma StoreDelivers<E>(d: State<E>, src: Source<E>, pending: set<nat>)
    requires Delivers(d, pending + {src.id})
    ensures Delivers(Store(d, src), pending)
  {
  }

  /** A source rebuilt by full decoding is stored and delivered at once. */
  lemma DeliverDelivers<E>(truth: Truth<E>, d: State<E>, src: Source<E>)
    requires Delivers(d, {}) && SourcesTrue(truth, d) && LogTrue(truth, d.log)
    requires src.id in truth && truth[src.id] == src.data
    requires src.id !in d.sources && Low(d) <= src.id
    ensures Delivers(Deliver(d, src), {}) && SourcesTrue(truth, Deliver(d, src)) && LogTrue(truth, Deliver(d, src).log)
  {
    hide Flush;
    var stored := d.(sources := d.sources[src.id := src.data]);
    if d.inOrder && src.id == d.firstMissing {
      var t := stored.(log := d.log + [src], firstMissing := d.firstMissing + 1);
      FlushInOrder(truth, t, {});
    }
  }

  // ----- outdating

  lemma DueOnes<E>(d: State<E>, id: nat)
    ensures var due := Sorted(set s | s in d.ordered && s < id);
            Increasing(due) && forall i | 0 <= i < |due| :: due[i] in d.ordered && due[i] < id
  {
    var due := Sorted(set s | s in d.ordered && s < id);
    forall i | 0 <= i < |due|
      ensures due[i] in d.ordered && due[i] < id
    {
      assert due[i] in due;
    }
  }

  lemma DeliveriesAre<E>(ids: seq<nat>, sources: map<nat, seq<E>>)
    requires forall i | 0 <= i < |ids| :: ids[i] in sources
    ensures var more := Deliveries(ids, sources);
            |more| == |ids| && forall i | 0 <= i < |more| :: more[i] == Source(ids[i], sources[ids[i]])
  {
  }

  lemma QueuedOnes<E>(truth: Truth<E>, d: State<E>, due: seq<nat>, more: seq<Source<E>>)
    requires SourcesTrue(truth, d) && Increasing(due) && forall i | 0 <= i < |due| :: due[i] in d.sources
    requires |more| == |due| && forall i | 0 <= i < |more| :: more[i] == Source(due[i], d.sources[due[i]])
    ensures LogTrue(truth, more) && LogIncreasing(more)
  {
  }

  lemma DeliveriesOk<E>(truth: Truth<E>, d: State<E>, id: nat)
    requires InOrder(d, {}, 0) && SourcesTrue(truth, d)
    ensures var more := Deliveries(Sorted(set s | s in d.ordered && s < id), d.sources);
            && LogTrue(truth, more) && LogIncreasing(more)
            && forall i | 0 <= i < |more| :: d.firstMissing < more[i].id < id
  {
    hide *;
    var due := Sorted(set s | s in d.ordered && s < id);
    DueOnes(d, id);
    QueueIs(d);
    DeliveriesAre(due, d.sources);
    QueuedOnes(truth, d, due, Deliveries(due, d.sources));
  }

  lemma QueueIs<E>(d: State<E>)
    requires InOrder(d, {}, 0)
    ensures d.ordered <= d.sources.Keys && forall s | s in d.ordered :: d.firstMissing < s
  {
  }

  lemma LogAppend<E>(truth: Truth<E>, log: seq<Source<E>>, more: seq<Source<E>>, bound: nat, top: nat)
    requires LogTrue(truth, log) && LogIncreasing(log) && LogBelow(log, bound)
    requires LogTrue(truth, more) && LogIncreasing(more) && LogBelow(more, top) && bound <= top
    requires forall i | 0 <= i < |more| :: bound <= more[i].id
    ensures LogTrue(truth, log + more) && LogIncreasing(log + more) && LogBelow(log + more, top)
  {
  }

  lemma HandOverInOrder<E>(truth: Truth<E>, d: State<E>, id: nat)
    requires InOrder(d, {}, 0) && SourcesTrue(truth, d) && LogTrue(truth, d.log) && Low(d) <= id
    ensures InOrder(HandOver(d.(lastId := Some(id)), id), {}, 1)
    ensures LogTrue(truth, HandOver(d, id).log) && id <= HandOver(d, id).firstMissing
  {
    var more := Deliveries(Sorted(set s | s in d.ordered && s < id), d.sources);
    DeliveriesOk(truth, d, id);
    if d.firstMissing < id {
      LogAppend(truth, d.log, more, d.firstMissing, id);
    } else {
      assert more == [];
      assert d.log + more == d.log;
    }
  }

  /** `drop_outdated` hands over everything it is about to erase. */
  lemma ReleaseInOrder<E>(truth: Truth<E>, d: State<E>, id: nat)
    requires InOrder(d, {}, 0) && SourcesTrue(truth, d) && LogTrue(truth, d.log) && Low(d) <= id
    ensures var r := EraseBelow(Release(d.(lastId := Some(id)), id), id);
            InOrder(r, {}, 0) && LogTrue(truth, r.log) && id <= r.firstMissing
  {
    var u := HandOver(d.(lastId := Some(id)), id);
    HandOverInOrder(truth, d, id);
    FlushInOrder(truth, u, {});
    var r := EraseBelow(Flush(u), id);
    assert Low(r) == id;
  }
}
