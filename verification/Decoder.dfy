/** `netcode/detail/decoder.cc` in its own form: methods that change the decoder's containers in place.
    Each computes the function of `DecoderModel.dfy` of the same name. The `assert` statements that carry
    a comment are the assertions of the library; here they are proved. */
module Decoder {
  import opened Wrappers
  import opened GaloisField
  import opened LinearAlgebra
  import opened SquareMatrix
  import opened InvertMatrix
  import opened Ids
  import opened Symbols
  import opened DecoderModel
  import opened Peeling
  import opened Delivery
  import opened DecoderInvariant
  import opened FullDecoding
  import opened DecoderSteps
  import opened DecoderLoops
  import opened Rebuilding
  import opened SavedIterator

  class Decoder<E(==,!new)> {
    const f: Field<E>
    const inOrder: bool
    var repairs: map<nat, Repair<E>>
    var sources: map<nat, seq<E>>
    var missing: map<nat, set<nat>>
    var lastId: Option<nat>
    var firstMissing: nat
    var ordered: set<nat>
    var log: seq<Source<E>>
    var useless: nat
    var failed: nat
    var decoded: nat

    /** The fields as one value. */
    ghost function Model(): State<E>
      reads this
    {
      State(inOrder, repairs, sources, missing, lastId, firstMissing, ordered, log, useless, failed, decoded)
    }

    constructor (field: Field<E>, order: bool)
      ensures f == field && inOrder == order && Model() == Initial(order)
    {
      f := field;
      inOrder := order;
      repairs, sources, missing := map[], map[], map[];
      lastId, firstMissing, ordered, log := None, 0, {}, [];
      useless, failed, decoded := 0, 0, 0;
    }

    method Callback(src: Source<E>)
      modifies this`log
      ensures log == old(log) + [src]
    {
      log := log + [src];
    }

    /** Gives to the callback every queued source that follows the ones already given. */
    method FlushOrderedSources()
      requires ordered <= sources.Keys
      modifies this`log, this`ordered, this`firstMissing
      ensures Model() == Flush(old(Model()))
    {
      hide Flush;
      var cit := firstMissing;
      FlushDone(Model());
      if cit in ordered {
        while true
          invariant cit in ordered && cit == firstMissing && ordered <= sources.Keys
          invariant Flush(Model()) == Flush(old(Model()))
          invariant Model() == old(Model()).(log := log, ordered := ordered, firstMissing := firstMissing)
          decreases |ordered|
        {
          assert cit == firstMissing; // only the first missing source is given
          FlushOnce(Model());
          Callback(Source(cit, sources[cit]));
          ordered := ordered - {cit};
          firstMissing := firstMissing + 1;
          NextInQueue(ordered, cit);
          var rest := After(ordered, cit);
          if rest == {} || Min(rest) > firstMissing {
            FlushDone(Model());
            break;
          }
          cit := Min(rest);
        }
      }
    }

    /** Rebuilds the only source of a repair. It never reads past the repair's symbol. */
    method CreateSourceFromRepair(r: Repair<E>, ghost truth: Truth<E>) returns (src: Source<E>)
      requires f.Laws() && TruthOk(f, truth) && RepairOk(f, truth, r) && |r.ids| == 1
      modifies this`decoded
      ensures src == Create(f, r) && decoded == old(decoded) + 1
    {
      assert |r.ids| == 1; // the repair encodes one source
      var id := Min(r.ids);
      SingletonIs(r.ids, id);
      CreateInBounds(f, truth, r, id);
      hide RepairOk, Create, Comb, TruthOk;
      var inverse := f.inv(f.Coefficient(r.id, id));
      var size := f.dec(f.Scale(inverse, r.size));
      src := Source(id, f.Scale(inverse, r.symbol[..size]));
      decoded := decoded + 1;
    }

    /** Takes a source out of the size and the symbol of a repair. */
    method RemoveSourceDataFromRepair(src: Source<E>, r: Repair<E>) returns (r': Repair<E>)
      requires |r.ids| > 1 && |src.data| <= |r.symbol|
      ensures r' == StripData(f, r, src)
    {
      assert |r.ids| > 1; // the repair encodes more than one source
      assert |src.data| <= |r.symbol|; // the symbol is large enough
      var c := f.Coefficient(r.id, src.id);
      r' := r.(size := f.AddScaled(r.size, c, f.enc(|src.data|)), symbol := f.AddScaled(r.symbol, c, src.data));
    }

    method RemoveSourceFromRepair(src: Source<E>, r: Repair<E>) returns (r': Repair<E>)
      requires |r.ids| > 1 && |src.data| <= |r.symbol| && src.id in r.ids
      ensures r' == Strip(f, r, src)
    {
      r' := RemoveSourceDataFromRepair(src, r);
      assert src.id in r'.ids; // the source is listed
      r' := r'.(ids := r'.ids - {src.id});
    }

    /** The source is removed from every repair that encodes it, and is no longer missing. */
    method UnlinkSource(src: Source<E>, ghost truth: Truth<E>)
      requires Links(Model()) && RepairsRight(f, truth, Model()) && Strippable(Model(), src.id)
      requires src.id in truth && truth[src.id] == src.data
      modifies this`repairs, this`missing
      ensures Model() == Unlink(f, old(Model()), src)
    {
      if src.id in missing {
        ghost var d := Model();
        var links := missing[src.id];
        var todo := links;
        assert repairs == PartlyStripped(f, d.repairs, links, todo, src);
        while todo != {}
          invariant todo <= links && missing == d.missing
          invariant repairs == PartlyStripped(f, d.repairs, links, todo, src)
        {
          var k := Min(todo);
          LinkedIsStrippable(f, truth, d, src, k);
          StripOneMore(f, d.repairs, links, todo, src, k);
          var r := RemoveSourceFromRepair(src, repairs[k]);
          repairs := repairs[k := r];
          todo := todo - {k};
        }
        AllStripped(f, d, src);
        missing := missing - {src.id};
      }
    }

    /** A new source goes to the callback at once, unless older ones must go first. */
    method AnnounceSource(src: Source<E>)
      requires inOrder ==> ordered <= sources.Keys
      modifies this`log, this`ordered, this`firstMissing
      ensures Model() == Announce(old(Model()), src)
    {
      if !inOrder {
        Callback(src);
      } else if src.id == firstMissing {
        Callback(src);
        firstMissing := firstMissing + 1;
        FlushOrderedSources();
      }
    }

    /** Adds a new source, and every other source that this makes decodable. */
    method AddSourceRecursive(src: Source<E>, ghost truth: Truth<E>, ghost pending: set<nat>)
      requires f.Laws() && TruthOk(f, truth) && Good(f, truth, Model(), pending)
      requires src.id in truth && truth[src.id] == src.data
      requires src.id !in sources && src.id !in pending && Low(Model()) <= src.id && Strippable(Model(), src.id)
      requires AddSaved(f, Model(), src).Some?
      modifies this
      ensures Model() == Add(f, old(Model()), src)
      decreases |missing.Keys|, 1
    {
      hide Good, Scan, Strippable, Announce, Unlink, Links, Young, RepairsRight, SourcesTrue, LogTrue, Delivers;
      hide ScanSaved, ReadyNeighbours, TruthOk;
      ghost var d := Model();
      ReadyToAnnounce(f, truth, d, src, pending);
      AnnouncedGood(f, truth, d, src, pending);
      AnnounceSource(src);
      UnlinkSource(src, truth);
      ghost var start := Model();
      UnlinkShrinks(f, d, src);
      ScanMissing(truth, pending + {src.id});
      GoodGives(f, truth, start, pending + {src.id});
      ScanSavedExactly(f, start);
      assert src.id !in sources by { // the source was not added already
        ScanGood(f, truth, start, 0, pending + {src.id});
        PendingNotStored(f, truth, Model(), pending + {src.id}, src.id);
      }
      sources := sources[src.id := src.data];
      if inOrder && src.id > firstMissing {
        ordered := ordered + {src.id};
      }
    }

    /** The iterator after `y`, or the end. */
    method Advance(y: nat) returns (next: Option<nat>)
      ensures next == Successor(Model(), y)
    {
      var rest := set m | m in missing && y < m;
      assert rest == Above(Model(), y + 1);
      if rest == {} {
        return None;
      }
      return Some(Min(rest));
    }

    /** Looks for repairs that encode one source only. The iterator to the next missing source is taken before a
        source is decoded, and read after it. */
    method ScanMissing(ghost truth: Truth<E>, ghost pending: set<nat>)
      requires f.Laws() && TruthOk(f, truth) && Good(f, truth, Model(), pending)
      requires ScanSaved(f, Model(), Begin(Model())).Some?
      modifies this
      ensures Some(Model()) == ScanSaved(f, old(Model()), Begin(old(Model())))
      decreases |missing.Keys|, 0, 1
    {
      hide Good, ScanSaved, AddSaved, Add, Ready, TruthOk, Take, Create, Min, Successor, Steps;
      ghost var start := Model();
      var cit: Option<nat> := None;
      if missing.Keys != {} {
        cit := Some(Min(missing.Keys));
      }
      while cit.Some?
        invariant Good(f, truth, Model(), pending)
        invariant ScanSaved(f, Model(), cit) == ScanSaved(f, start, Begin(start))
        invariant |missing.Keys| <= |start.missing.Keys|
        decreases |missing.Keys|, Steps(Model(), cit)
      {
        ghost var d := Model();
        var y := cit.value;
        SavedRound(f, truth, d, y, pending);
        assert y in missing; // the iterator's entry has not been erased
        var next := Advance(y);
        TryDecode(y, truth, pending);
        cit := next;
      }
      ScanSavedEnds(f, Model());
    }

    /** Decodes the missing source `y` if a single repair encodes it and nothing else. */
    method TryDecode(y: nat, ghost truth: Truth<E>, ghost pending: set<nat>)
      requires f.Laws() && TruthOk(f, truth) && Good(f, truth, Model(), pending) && y in missing
      requires Ready(Model(), y) ==>
        AddSaved(f, Take(Model(), y, Min(missing[y])), Create(f, repairs[Min(missing[y])])).Some?
      modifies this
      ensures !Ready(old(Model()), y) ==> Model() == old(Model())
      ensures Ready(old(Model()), y) ==>
        Model() == Add(f, Take(old(Model()), y, Min(old(missing[y]))), Create(f, old(repairs)[Min(old(missing[y]))]))
      decreases |missing.Keys|, 0, 0
    {
      hide Good, Add, AddSaved, Create, RepairOk, Strippable;
      ghost var d := Model();
      GoodGives(f, truth, d, pending);
      var links := missing[y];
      if |links| == 1 {
        var k := Min(links);
        if |repairs[k].ids| == 1 {
          ghost var _ := TakenGood(f, truth, d, y, pending);
          assert lastId.Some? ==> lastId.value <= Min(repairs[k].ids); // it was not decoded in the past
          assert Min(repairs[k].ids) !in sources; // it is not stored
          hide Links, Young, RepairsRight, SourcesTrue, LogTrue, Delivers;
          var src := CreateSourceFromRepair(repairs[k], truth);
          repairs := repairs - {k};
          missing := missing - {y};
          assert Model() == Take(d, y, k);
          SubsetSize(missing.Keys, d.missing.Keys);
          AddSourceRecursive(src, truth, pending);
        }
      }
    }

    // ----- outdating

    /** Removes repair `k` from the links of the sources in `ids`. */
    method EraseLinks(k: nat, ids: set<nat>)
      requires ids <= missing.Keys
      modifies this`missing
      ensures missing == Unlinked(old(missing), ids, k)
    {
      var todo := ids;
      while todo != {}
        invariant todo <= ids && missing == Unlinked(old(missing), ids - todo, k)
      {
        var s := Min(todo);
        missing := missing[s := missing[s] - {k}];
        assert ids - (todo - {s}) == ids - todo + {s};
        todo := todo - {s};
      }
      assert ids - todo == ids;
    }

    /** The first loop of `drop_outdated`. */
    method DropOldRepairs(id: nat)
      requires Links(Model())
      modifies this`lastId, this`repairs, this`missing
      ensures Model() == DropRepairs(old(Model()), id)
    {
      ghost var d := Model();
      lastId := Some(id);
      var todo := repairs.Keys;
      DroppedNone(d, id, Model());
      while todo != {}
        invariant todo <= d.repairs.Keys && PartlyDropped(d, id, todo, Model())
      {
        hide PartlyDropped, Links;
        var k := Min(todo);
        DropStep(d, id, todo, Model(), k);
        KeptNotEmpty(d, k);
        assert repairs[k].ids != {}; // a held repair encodes something
        if id > Min(repairs[k].ids) {
          EraseLinks(k, repairs[k].ids);
          repairs := repairs - {k};
        }
        todo := todo - {k};
      }
      DroppedAll(d, id, Model());
    }

    /** Gives to the callback every queued source below `id`, in order. */
    method HandOverBelow(id: nat)
      requires ordered <= sources.Keys
      modifies this`log, this`ordered, this`firstMissing
      ensures Model() == HandOver(old(Model()), id)
    {
      hide HandingOver;
      ghost var d := Model();
      var due := set s | s in ordered && s < id;
      ghost var all := due;
      HandingOverStarts(d, all);
      while due != {}
        invariant due <= all && HandingOver(d, all, due, Model())
      {
        HandOverStep(d, all, due, Model());
        HandingOverKeeps(d, all, due, Model());
        var s := Min(due);
        Callback(Source(s, sources[s]));
        ordered := ordered - {s};
        due := due - {s};
      }
      HandedOver(d, id, Model());
      HandingOverKeeps(d, all, due, Model());
      if firstMissing < id {
        firstMissing := id;
      }
    }

    /** Drops what is older than `id`. */
    method DropOutdatedData(id: nat, ghost truth: Truth<E>)
      requires Good(f, truth, Model(), {})
      modifies this
      ensures Model() == DropOutdated(old(Model()), id)
    {
      hide Links, Young, RepairsRight, SourcesTrue, LogTrue;
      DropOldRepairs(id);
      if inOrder {
        HandOverBelow(id);
        FlushOrderedSources();
      }
      sources := map s | s in sources && id <= s :: sources[s];
      missing := map m | m in missing && id <= m :: missing[m];
    }

    // ----- full decoding

    /** Rebuilds the missing source of row `k` of the inverted matrix. */
    method RebuildSource(inv: SquareMatrix<E>, rs: seq<Repair<E>>, k: nat, s: nat,
            ghost a: Matrix<E>) returns (src: Source<E>)
      requires f.Laws() && inv.Valid() && inv.dimension == |rs| == |a| && k < |rs| && LeftInverse(f, inv.rows, a)
      requires forall j | 0 <= j < |rs| :: |rs[j].size| == f.sizeLen
      ensures |inv.rows[k]| == |rs| && src == Rebuilt(f, inv.rows[k], rs, s)
    {
      LeftInverseRowNonZero(f, inv.rows, a, k);
      var size := RebuildSize(f, inv, rs, k);
      var data := RebuildData(f, inv, rs, k, f.dec(size));
      src := Source(s, data);
      RebuiltFrom(f, inv.rows[k], rs, s, size, data);
    }

    /** Stores a source rebuilt by full decoding, and gives it to the callback if it may. */
    method StoreRebuilt(src: Source<E>)
      requires src.id !in sources && (inOrder ==> ordered <= sources.Keys)
      modifies this`sources, this`log, this`ordered, this`firstMissing
      ensures Model() == Deliver(old(Model()), src)
    {
      assert src.id !in sources; // the source was not added already
      sources := sources[src.id := src.data];
      if !inOrder {
        Callback(src);
      } else if src.id == firstMissing {
        Callback(src);
        firstMissing := firstMissing + 1;
        FlushOrderedSources();
      } else {
        ordered := ordered + {src.id};
      }
    }

    /** The inversion failed: the repair at the reported index is given up. */
    method DropFaulty(index: nat)
      requires Links(Model()) && repairs.Keys != {} && index == |repairs.Keys| - 1
      modifies this`repairs, this`missing, this`failed
      ensures Model() == GiveUp(old(Model()))
    {
      hide Links, Sorted, Unlinked;
      ghost var d := Model();
      failed := failed + 1;
      var ks := Sorted(repairs.Keys);
      LastIsMax(repairs.Keys);
      var k := ks[index];
      EncodesMissing(d, k);
      UnlinkedIsAll(d, k);
      EraseLinks(k, repairs[k].ids);
      repairs := repairs - {k};
    }

    /** An index of the held repairs, in the order of the rows of the matrix. */
    method IndexRepairs() returns (rs: seq<Repair<E>>)
      ensures rs == RepairList(Model())
    {
      var ks := Sorted(repairs.Keys);
      SortedIn(repairs.Keys);
      rs := [];
      for j := 0 to |ks|
        invariant |rs| == j && forall i | 0 <= i < j :: rs[i] == repairs[ks[i]]
      {
        rs := rs + [repairs[ks[j]]];
      }
      ListIs(Model(), rs);
    }

    method RebuildOne(inv: SquareMatrix<E>, rs: seq<Repair<E>>, k: nat, s: nat, ghost a: Matrix<E>)
      requires f.Laws() && inv.Valid() && inv.dimension == |rs| == |a| && k < |rs| && LeftInverse(f, inv.rows, a)
      requires forall j | 0 <= j < |rs| :: |rs[j].size| == f.sizeLen
      requires s !in sources && (inOrder ==> ordered <= sources.Keys)
      modifies this`sources, this`log, this`ordered, this`firstMissing
      ensures |inv.rows[k]| == |rs| && Model() == Deliver(old(Model()), Rebuilt(f, inv.rows[k], rs, s))
    {
      hide Rebuilt, Deliver, IsRows;
      var src := RebuildSource(inv, rs, k, s, a);
      RebuiltId(f, inv.rows[k], rs, s);
      StoreRebuilt(src);
    }

    /** The inversion succeeded: every missing source is rebuilt. */
    method RebuildAll(inv: SquareMatrix<E>, rs: seq<Repair<E>>, ms: seq<nat>, ghost truth: Truth<E>)
      requires f.Laws() && TruthOk(f, truth) && Good(f, truth, Model(), {})
      requires rs == RepairList(Model()) && ms == Sorted(missing.Keys) && |rs| == |ms| == inv.dimension && inv.Valid()
      requires LeftInverse(f, inv.rows, Coefficients(f, Model()))
      modifies this
      ensures Solved(f, old(Model()), Model(), inv.rows)
    {
      hide Good, Links, Young, RepairsRight, SourcesTrue, LogTrue, Delivers, Deliverable, Rebuilt, Sorted;
      hide RebuiltAll, LeftInverse, RepairList, Deliver, IsRows, Solve, CoefficientsOf;
      ghost var d, l := Model(), inv.rows;
      SizesAreRight(f, truth, d, rs);
      RebuiltReady(f, truth, d, l);
      ghost var srcs := RebuiltAll(f, l, rs, ms);
      for k := 0 to |ms|
        invariant inv.Valid() && inv.rows == l
        invariant Model() == DeliverAll(d, srcs[..k])
      {
        RebuiltAt(f, l, rs, ms, k);
        DeliverNext(truth, d, srcs, k);
        RebuildOne(inv, rs, k, ms[k], Coefficients(f, d));
      }
      FinishSolve(f, d, Model(), l, srcs);
      decoded := decoded + |missing|;
      repairs := map[];
      missing := map[];
    }

    /** Tries to rebuild every missing source at once. */
    method AttemptFullDecoding(ghost truth: Truth<E>)
      requires f.Laws() && TruthOk(f, truth) && Good(f, truth, Model(), {})
      requires |repairs.Keys| <= |missing.Keys| && (|repairs.Keys| == 1 ==> |missing.Keys| != 1)
      modifies this
      ensures FullStep(f, old(Model()), Model())
    {
      hide Good, Solved, GiveUp, Links, Sorted, RepairList, LeftInverse, Singular, IsRows, CoefficientsOf, TruthOk;
      hide Young, RepairsRight, SourcesTrue, LogTrue, Delivers;
      if |repairs.Keys| == 0 || |missing.Keys| == 0 {
        return;
      }
      if |missing.Keys| > |repairs.Keys| {
        return;
      }
      assert |missing.Keys| == |repairs.Keys|; // there are no more repairs than missing sources
      assert |missing.Keys| > 1; // the matrix is not for a single missing source
      ghost var d := Model();
      GoodGives(f, truth, d, {});
      var rs := IndexRepairs();
      var ms := Sorted(missing.Keys);
      var coefficients := new SquareMatrix(|rs|, f.zero);
      FillCoefficients(f, coefficients, rs, ms);
      var inv := new SquareMatrix(|rs|, f.zero);
      var r := Invert(f, coefficients, inv);
      if r.Some? {
        DropFaulty(r.value);
      } else {
        RebuildAll(inv, rs, ms, truth);
        assert Solved(f, d, Model(), inv.rows);
      }
    }

    // ----- the two entry points

    /** A source is received. */
    method ReceiveSource(src: Source<E>, ghost truth: Truth<E>)
      requires f.Laws() && TruthOk(f, truth) && Good(f, truth, Model(), {}) && Balanced(Model())
      requires src.id in truth && truth[src.id] == src.data && Strippable(Model(), src.id)
      requires SourceKeepsIterators(f, Model(), src)
      modifies this
      ensures SourceStep(f, old(Model()), src, Model())
    {
      hide Good, Add, AddSaved, FullStep, Strippable, ReadyNeighbours, Links;
      if lastId.Some? && src.id < lastId.value {
        return;
      }
      if src.id in sources {
        return;
      }
      ghost var d := Model();
      GoodGives(f, truth, d, {});
      hide Young, RepairsRight, SourcesTrue, LogTrue, Delivers;
      AddSavedExactly(f, d, src);
      AddSafe(f, truth, d, src);
      AddSourceRecursive(src, truth, {});
      AttemptFullDecoding(truth);
    }

    /** Stores an incoming repair, without the sources that are known, and links it with the others. */
    method StoreRepair(incoming: Repair<E>, ghost truth: Truth<E>)
      requires f.Laws() && TruthOk(f, truth) && SourcesTrue(truth, Model()) && RepairOk(f, truth, incoming)
      requires incoming.id !in repairs && !(incoming.ids <= sources.Keys)
      modifies this`repairs, this`missing
      ensures Model() == Link(old(Model()), StripKnown(f, incoming, sources, incoming.ids * sources.Keys))
    {
      hide Linking, RepairOk, StripKnown, SourcesTrue, Max, Link, TruthOk;
      ghost var d := Model();
      var id := incoming.id;
      repairs := repairs[id := incoming];
      var todo := incoming.ids;
      LinkingStarts(f, d, incoming);
      while todo != {}
        invariant id in repairs && repairs == d.repairs[id := repairs[id]]
        invariant Linking(f, d, incoming, todo, repairs[id], missing) && RepairOk(f, truth, repairs[id])
      {
        var s := Max(todo);
        if s in sources {
          LinkingStrips(f, truth, d, incoming, todo, repairs[id], missing);
          var r := RemoveSourceDataFromRepair(Source(s, sources[s]), repairs[id]);
          repairs := repairs[id := r.(ids := r.ids - {s})];
        } else {
          LinkingLinks(f, d, incoming, todo, repairs[id], missing);
          if s !in missing {
            missing := missing[s := {id}];
          } else {
            missing := missing[s := missing[s] + {id}];
          }
        }
        todo := todo - {s};
      }
      LinkingEnds(f, d, incoming, repairs[id], missing);
    }

    /** A repair is received. */
    method ReceiveRepair(incoming: Repair<E>, ghost truth: Truth<E>)
      requires f.Laws() && TruthOk(f, truth) && Good(f, truth, Model(), {}) && Balanced(Model())
      requires incoming.ids != {} && RepairOk(f, truth, incoming) && Low(Model()) <= Min(incoming.ids)
      requires MayArrive(DropOutdated(Model(), Min(incoming.ids)), incoming.ids)
      requires RepairKeepsIterators(Model(), incoming)
      modifies this
      ensures RepairStep(f, old(Model()), incoming, Model())
    {
      hide Good, Add, FullStep, DropOutdated, MayArrive, StripKnown, RepairOk, UsefulStep, LoneKeepsIterators;
      assert incoming.ids != {}; // the repair encodes something
      if lastId.Some? && Max(incoming.ids) < lastId.value {
        return;
      }
      if incoming.id in repairs {
        return;
      }
      ghost var d := Model();
      DropOutdatedGood(f, truth, d, Min(incoming.ids));
      DropOutdatedShrinks(d, Min(incoming.ids));
      DropOutdatedData(Min(incoming.ids), truth);
      if incoming.ids <= sources.Keys {
        useless := useless + 1;
        return;
      }
      UseRepair(incoming, truth);
    }

    /** The rest of the work, when the repair is useful. */
    method UseRepair(incoming: Repair<E>, ghost truth: Truth<E>)
      requires f.Laws() && TruthOk(f, truth) && Good(f, truth, Model(), {}) && RepairOk(f, truth, incoming)
      requires incoming.id !in repairs && !(incoming.ids <= sources.Keys)
      requires (forall s | s in incoming.ids :: Low(Model()) <= s) && MayArrive(Model(), incoming.ids)
      requires LoneKeepsIterators(Model(), incoming.ids - sources.Keys)
      modifies this
      ensures UsefulStep(f, old(Model()), incoming, Model())
    {
      hide Good, Add, FullStep, StripKnown, RepairOk, Create, Strippable, TruthOk, Link, RoomFor, Resolved;
      hide Links, Young, RepairsRight, SourcesTrue, LogTrue, Delivers, LoneKeepsIterators;
      ghost var d := Model();
      GoodGives(f, truth, d, {});
      StoreRepair(incoming, truth);
      var id := incoming.id;
      ghost var s := StrippedRight(f, truth, d, incoming);
      LinkStores(d, s);
      assert repairs[id].ids != {}; // something is left to decode
      if |repairs[id].ids| == 1 {
        UseUp(id, d, s, truth);
      } else {
        RoomForMore(d, s.ids);
        LinkedGood(f, truth, d, s);
        AttemptFullDecoding(truth);
      }
    }

    /** Rebuilds the single source that repair `id` encodes. */
    method UseUp(id: nat, ghost d: State<E>, ghost s: Repair<E>, ghost truth: Truth<E>)
      requires f.Laws() && TruthOk(f, truth) && Good(f, truth, d, {}) && RepairOk(f, truth, s)
      requires s.id == id && id !in d.repairs && |s.ids| == 1 && s.ids !! d.sources.Keys && RoomFor(d, s.ids)
      requires (forall x | x in s.ids :: Low(d) <= x) && LoneKeepsIterators(d, s.ids)
      requires Model() == Link(d, s)
      modifies this
      ensures Model() == Add(f, Take(Link(d, s), Min(s.ids), id), Create(f, s))
    {
      hide Good, Add, AddSaved, RepairOk, Create, Strippable, Link, Take, RoomFor, LoneKeepsIterators;
      ghost var x := Min(s.ids);
      SingletonIs(s.ids, x);
      DegreeOneReady(f, truth, d, s, x);
      LoneSaved(f, truth, d, s, x);
      LinkStores(d, s);
      var src := CreateSourceFromRepair(repairs[id], truth);
      missing := missing - {src.id};
      repairs := repairs - {id};
      TakeIs(old(Model()), x, id, Model());
      AddSourceRecursive(src, truth, {});
    }
  }
}
