/** Completeness of delivery: nothing that could be handed to the callback is held back, and nothing is
    erased before it was handed over. */
module InOrderDelivery {
  import opened Ids
  import opened Symbols
  import opened DecoderModel

  ghost predicate InLog<E>(log: seq<Source<E>>, s: nat) {
    exists i :: 0 <= i < |log| && log[i].id == s
  }

  /** The queue holds exactly the stored sources that are not due yet. `slack` is 1 before a flush. */
  ghost predicate Queue<E>(d: State<E>, slack: nat) {
    forall s: nat :: s in d.ordered <==> s in d.sources && d.firstMissing < s + slack
  }

  ghost predicate Handed<E>(d: State<E>) {
    forall s | s in d.sources && s < d.firstMissing :: InLog(d.log, s)
  }

  ghost predicate Complete<E>(d: State<E>) {
    if d.inOrder then d.firstMissing !in d.sources && Queue(d, 0) && Handed(d)
    else forall s | s in d.sources :: InLog(d.log, s)
  }

  lemma InLogGrows<E>(log: seq<Source<E>>, more: seq<Source<E>>, s: nat)
    ensures InLog(log, s) ==> InLog(log + more, s)
    ensures InLog(more, s) ==> InLog(log + more, s)
  {
    if i :| 0 <= i < |log| && log[i].id == s {
      assert (log + more)[i].id == s;
    }
    if i :| 0 <= i < |more| && more[i].id == s {
      assert (log + more)[|log| + i].id == s;
    }
  }

  lemma HandedOneMore<E>(d: State<E>, t: State<E>, src: Source<E>)
    requires Handed(d) && src.id == d.firstMissing
    requires t.log == d.log + [src] && t.firstMissing == d.firstMissing + 1
    requires forall s | s in t.sources :: s in d.sources || s == src.id
    ensures Handed(t)
  {
    forall s | s in t.sources && s < t.firstMissing
      ensures InLog(t.log, s)
    {
      InLogGrows(d.log, [src], s);
      assert [src][0].id == src.id;
    }
  }

  lemma {:induction false} FlushComplete<E>(d: State<E>)
    requires d.inOrder && Queue(d, 1) && Handed(d)
    ensures Complete(Flush(d))
    ensures forall s | InLog(d.log, s) :: InLog(Flush(d).log, s)
    ensures d.firstMissing <= Flush(d).firstMissing
    decreases |d.ordered|
  {
    var s := d.firstMissing;
    if s in d.ordered && s in d.sources {
      var src := Source(s, d.sources[s]);
      var t := d.(log := d.log + [src], ordered := d.ordered - {s}, firstMissing := s + 1);
      HandedOneMore(d, t, src);
      FlushComplete(t);
      forall x | InLog(d.log, x)
        ensures InLog(Flush(d).log, x)
      {
        InLogGrows(d.log, [src], x);
      }
    }
  }

  /** A new source, when it does not make any other decodable. */
  lemma NewSourceComplete<E>(d: State<E>, src: Source<E>)
    requires Complete(d) && src.id !in d.sources && (d.inOrder ==> d.firstMissing <= src.id)
    ensures Complete(Store(Announce(d, src), src))
  {
    var d' := Store(Announce(d, src), src);
    if !d.inOrder {
      forall s | s in d'.sources
        ensures InLog(d'.log, s)
      {
        InLogGrows(d.log, [src], s);
        assert [src][0].id == src.id;
      }
    } else if src.id == d.firstMissing {
      var t := d.(log := d.log + [src], firstMissing := d.firstMissing + 1);
      HandedOneMore(d, t, src);
      FlushComplete(t);
      assert InLog(t.log, src.id) by {
        assert t.log[|d.log|].id == src.id;
      }
    }
  }

  /** A source rebuilt by full decoding. */
  lemma DeliverComplete<E>(d: State<E>, src: Source<E>)
    requires Complete(d) && src.id !in d.sources && (d.inOrder ==> d.firstMissing <= src.id)
    ensures Complete(Deliver(d, src))
  {
    var d' := Deliver(d, src);
    var stored := d.(sources := d.sources[src.id := src.data]);
    if !d.inOrder {
      forall s | s in d'.sources
        ensures InLog(d'.log, s)
      {
        InLogGrows(d.log, [src], s);
        assert [src][0].id == src.id;
      }
    } else if src.id == d.firstMissing {
      var t := stored.(log := d.log + [src], firstMissing := d.firstMissing + 1);
      HandedOneMore(d, t, src);
      FlushComplete(t);
    }
  }

  ghost function Due<E>(d: State<E>, id: nat): set<nat> {
    set s | s in d.ordered && s < id
  }

  lemma DeliveriesLogged<E>(ids: set<nat>, sources: map<nat, seq<E>>, s: nat)
    requires s in ids
    ensures InLog(Deliveries(Sorted(ids), sources), s)
  {
    var ks := Sorted(ids);
    assert s in ks;
    var i :| 0 <= i < |ks| && ks[i] == s;
    assert Deliveries(ks, sources)[i].id == s;
  }

  lemma HandOverHanded<E>(d: State<E>, id: nat)
    requires d.inOrder && Complete(d)
    ensures Handed(HandOver(d, id)) && Queue(HandOver(d, id), 1)
    ensures forall s | s in d.sources && s < id :: InLog(HandOver(d, id).log, s)
    ensures forall s | InLog(d.log, s) :: InLog(HandOver(d, id).log, s)
  {
    var due := Due(d, id);
    var more := Deliveries(Sorted(due), d.sources);
    forall s
      ensures s in due ==> InLog(d.log + more, s)
      ensures InLog(d.log, s) ==> InLog(d.log + more, s)
    {
      InLogGrows(d.log, more, s);
      if s in due {
        DeliveriesLogged(due, d.sources, s);
      }
    }
  }

  /** Outdating hands over every stored source it erases, and leaves delivery complete. */
  lemma ReleaseComplete<E>(d: State<E>, id: nat)
    requires d.inOrder && Complete(d)
    ensures Complete(EraseBelow(Release(d, id), id))
    ensures forall s | s in d.sources && s < id :: InLog(Release(d, id).log, s)
    ensures forall s | InLog(d.log, s) :: InLog(Release(d, id).log, s)
  {
    HandOverHanded(d, id);
    FlushComplete(HandOver(d, id));
  }

  lemma DropOutdatedComplete<E>(d: State<E>, id: nat)
    requires Complete(d)
    ensures Complete(DropOutdated(d, id))
    ensures forall s | s in d.sources && s !in DropOutdated(d, id).sources :: InLog(DropOutdated(d, id).log, s)
  {
    if d.inOrder {
      ReleaseComplete(DropRepairs(d, id), id);
    }
  }
}
