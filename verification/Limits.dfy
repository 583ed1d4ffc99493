/** Where the guarantees of the decoder end. Each of them holds exactly under a condition that ordered arrival provides.
    `Overtaking.dfy` has short runs in which packets overtake each other and a condition fails. */
module Limits {
  import opened Wrappers
  import opened GaloisField
  import opened Ids
  import opened Symbols
  import opened DecoderModel
  import opened Peeling
  import opened Delivery
  import opened DecoderInvariant
  import opened DecoderSteps
  import opened InOrderDelivery
  import opened NestedDecoding

  // ----- removing a source from the repairs

  /** Removing a source from the repairs that encode it leaves consistent links exactly when none of these
      encodes nothing else. */
  lemma UnlinkExactly<E(!new)>(f: Field<E>, d: State<E>, src: Source<E>)
    requires Links(d)
    ensures Links(Unlink(f, d, src)) <==> Strippable(d, src.id)
  {
    if Strippable(d, src.id) {
      UnlinkKeepsLinks(f, d, src);
    } else {
      var k :| k in d.repairs && src.id in d.repairs[k].ids && d.repairs[k].ids == {src.id};
      assert src.id in d.missing && k in d.missing[src.id];
      assert Unlink(f, d, src).repairs[k].ids == {};
    }
  }

  // ----- a repair that arrives with a single unknown source

  /** Its source is no longer counted as missing before the other repairs are looked at: the links stay
      consistent exactly when no other repair encodes that source. */
  lemma DegreeOneExactly<E>(d: State<E>, s: Repair<E>, x: nat)
    requires Links(d) && s.id !in d.repairs && s.ids == {x} && x !in d.sources
    ensures Links(Take(Link(d, s), x, s.id)) <==> Alone(d, x)
  {
    var t := Take(Link(d, s), x, s.id);
    LinkThenTake(d, s, x);
    hide Link;
    if Alone(d, x) {
      AloneKeepsLinks(d, t, x);
    } else {
      var k :| k in d.repairs && x in d.repairs[k].ids;
      assert k in t.repairs && x in t.repairs[k].ids && x !in t.missing;
    }
  }

  // ----- outdating

  /** A useful repair sets the bound of what is outdated to its first source, whatever it was before: what was
      outdated stays so exactly when the repair does not start below. */
  lemma OutdatedStaysExactly<E>(d: State<E>, r: Repair<E>)
    requires r.ids != {}
    ensures (forall s: nat | IsOld(d, s) :: IsOld(DropOutdated(d, Min(r.ids)), s)) <==> Low(d) <= Min(r.ids)
  {
    var id := Min(r.ids);
    DropOutdatedShrinks(d, id);
    LastIs(d, id);
    if id < Low(d) {
      assert IsOld(d, id) && !IsOld(DropOutdated(d, id), id);
    }
  }

  lemma LastIs<E>(d: State<E>, id: nat)
    ensures DropOutdated(d, id).lastId == Some(id)
  {
  }

  // ----- a source that is passed over

  /** A source passed over is stored but not queued, and the decoder waits for it. */
  lemma PassedOverIsStuck<E(!new)>(f: Field<E>, truth: Truth<E>, d: State<E>, src: Source<E>)
    requires Good(f, truth, d, {}) && Complete(d) && PassedOver(f, d, src)
    requires src.id !in d.sources && Low(d) <= src.id && Strippable(d, src.id)
    ensures Add(f, d, src).firstMissing == src.id && src.id !in Add(f, d, src).ordered
  {
    GoodGives(f, truth, d, {});
    hide Good, Scan, Links, Strippable, Ready, InLog, Unlink, Delivers, ReadySet;
    assert Announce(d, src) == d;
    var u := Unlink(f, d, src);
    AnnouncedLinks(f, d, src);
    UnlinkSame(f, d, src);
    SameDelivery(d, u);
    ReadyStaysNewer(d, src, d, u);
    MeetsExactlyWhen(f, u, src.id);
    ScanComplete(f, u);
    NotReady(u, src.id);
    NotPeeled(f, u, src.id);
  }
}
