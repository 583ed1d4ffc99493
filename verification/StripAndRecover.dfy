/** Encoder and decoder meet in one repair: what the encoder combined can be taken apart again. */
module StripAndRecover {
  import opened GaloisField
  import opened Symbols
  import opened EncoderModel

  /** The sources at the given positions of the window are removed from the repair, in that order. */
  function StripAll<E(!new)>(f: Field<E>, r: Repair<E>, window: seq<Source<E>>, order: seq<nat>): Repair<E>
    requires forall j | 0 <= j < |order| :: order[j] < |window|
    decreases |order|
  {
    if order == [] then r else StripAll(f, Strip(f, r, window[order[0]]), window, order[1..])
  }

  ghost predicate Distinct(order: seq<nat>) {
    forall i, j | 0 <= i < j < |order| :: order[i] != order[j]
  }

  /** The positions below `n` except one. */
  ghost predicate AllBut(order: seq<nat>, n: nat, last: nat) {
    && (forall j | 0 <= j < |order| :: order[j] < n && order[j] != last)
    && (forall i: nat | i < n && i != last :: i in order)
  }

  ghost function IdsAt<E>(window: seq<Source<E>>, order: seq<nat>): set<nat>
    requires forall j | 0 <= j < |order| :: order[j] < |window|
  {
    set j | 0 <= j < |order| :: window[order[j]].id
  }

  lemma IdsAtFirst<E>(window: seq<Source<E>>, order: seq<nat>)
    requires forall j | 0 <= j < |order| :: order[j] < |window|
    requires order != [] && Distinct(order) && WindowSorted(window)
    ensures IdsAt(window, order) == {window[order[0]].id} + IdsAt(window, order[1..])
    ensures window[order[0]].id !in IdsAt(window, order[1..])
  {
    forall j | 1 <= j < |order|
      ensures window[order[j]].id != window[order[0]].id && order[1..][j - 1] == order[j]
    {
      assert order[0] != order[j];
    }
    forall s
      ensures s in IdsAt(window, order) <==> s == window[order[0]].id || s in IdsAt(window, order[1..])
    {
      if j :| 0 <= j < |order| && window[order[j]].id == s {
        assert j > 0 ==> order[1..][j - 1] == order[j];
      }
      if j :| 0 <= j < |order[1..]| && window[order[1..][j]].id == s {
        assert order[j + 1] == order[1..][j];
      }
    }
  }

  lemma {:induction false} StripAllOk<E(!new)>(f: Field<E>, truth: Truth<E>, r: Repair<E>, window: seq<Source<E>>,
          order: seq<nat>)
    requires f.Laws() && TruthOk(f, truth) && RepairOk(f, truth, r)
    requires WindowSorted(window) && WindowTrue(truth, window) && Distinct(order)
    requires forall j | 0 <= j < |order| :: order[j] < |window|
    requires IdsAt(window, order) <= r.ids
    ensures RepairOk(f, truth, StripAll(f, r, window, order))
    ensures StripAll(f, r, window, order).ids == r.ids - IdsAt(window, order)
    decreases |order|
  {
    if order == [] {
      assert IdsAt(window, order) == {};
    } else {
      var src := window[order[0]];
      IdsAtFirst(window, order);
      hide RepairOk, WindowSorted, IdsAt;
      StripOk(f, truth, r, src);
      StripAllOk(f, truth, Strip(f, r, src), window, order[1..]);
    }
  }

  /** Of the repair of a window, all sources but one are removed, in any order: what is created from the rest is
      exactly that source, in identifier, size and data. */
  lemma StripAndRecover<E(!new)>(f: Field<E>, id: nat, window: seq<Source<E>>, order: seq<nat>, last: nat)
    requires f.Laws() && WindowSorted(window) && last < |window|
    requires forall i | 0 <= i < |window| :: 0 < |window[i].data| <= f.maxSize
    requires Distinct(order) && AllBut(order, |window|, last)
    ensures var r := StripAll(f, MakeRepair(f, id, window), window, order);
            r.ids != {} && Create(f, r) == window[last]
  {
    var truth := map i | 0 <= i < |window| :: window[i].id := window[i].data;
    assert WindowTrue(truth, window) && TruthOk(f, truth);
    MakeRepairOk(f, truth, id, window);
    var r := MakeRepair(f, id, window);
    OneLeft(window, order, last);
    hide RepairOk, MakeRepair, StripAll, TruthOk, WindowTrue;
    StripAllOk(f, truth, r, window, order);
    CreateOk(f, truth, StripAll(f, r, window, order), window[last].id);
    assert truth[window[last].id] == window[last].data;
  }

  lemma OneLeft<E>(window: seq<Source<E>>, order: seq<nat>, last: nat)
    requires WindowSorted(window) && last < |window|
    requires AllBut(order, |window|, last)
    ensures IdsAt(window, order) <= WindowIds(window)
    ensures WindowIds(window) - IdsAt(window, order) == {window[last].id}
  {
    forall s
      ensures s in WindowIds(window) - IdsAt(window, order) <==> s == window[last].id
    {
      if x :| x in window && x.id == s {
        var i :| 0 <= i < |window| && window[i] == x;
        if i != last {
          assert i in order;
          var j :| 0 <= j < |order| && order[j] == i;
          assert s in IdsAt(window, order);
        }
      }
      if s in IdsAt(window, order) {
        var j :| 0 <= j < |order| && window[order[j]].id == s;
        assert order[j] < last || last < order[j];
      }
      assert window[last] in window;
    }
  }
}
