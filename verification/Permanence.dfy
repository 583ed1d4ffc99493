/** What a call of the decoder never takes back: the callback's past, and a stored source that it has not
    been given yet. */
module Permanence {
  import opened GaloisField
  import opened LinearAlgebra
  import opened Ids
  import opened Symbols
  import opened DecoderModel
  import opened Peeling
  import opened Delivery
  import opened DecoderInvariant
  import opened DecoderSteps
  import opened InOrderDelivery
  import opened NestedDecoding

  /** A stored source is still stored, or has been handed over. */
  ghost predicate Kept<E>(d: State<E>, d': State<E>) {
    forall s | s in d.sources :: s in d'.sources || InLog(d'.log, s)
  }

  // ----- the log

  lemma DeliverLogs<E>(d: State<E>, src: Source<E>)
    ensures Logged(d, Deliver(d, src))
  {
    if d.inOrder && src.id == d.firstMissing {
      FlushLogs(d.(sources := d.sources[src.id := src.data],
                   log := d.log + [src], firstMissing := d.firstMissing + 1));
    }
  }

  lemma {:induction false} DeliverAllLogs<E>(d: State<E>, srcs: seq<Source<E>>)
    ensures Logged(d, DeliverAll(d, srcs))
    decreases |srcs|
  {
    hide Deliver;
    if srcs != [] {
      DeliverAllLogs(d, srcs[..|srcs| - 1]);
      DeliverLogs(DeliverAll(d, srcs[..|srcs| - 1]), srcs[|srcs| - 1]);
    }
  }

  lemma FullStepLogs<E(!new)>(f: Field<E>, d: State<E>, d': State<E>)
    requires FullStep(f, d, d')
    ensures Logged(d, d')
  {
    hide Coefficients, Singular, LeftInverse, RebuiltAll, DeliverAll, RepairList, Sorted;
    if |d.repairs.Keys| == 0 || |d.missing.Keys| == 0 || |d.missing.Keys| > |d.repairs.Keys| {
    } else if !Singular(f, Coefficients(f, d)) {
      var l: Matrix<E> :| Solved(f, d, d', l);
      DeliverAllLogs(d, RebuiltAll(f, l, RepairList(d), Sorted(d.missing.Keys)));
    }
  }

  lemma LoggedTwice<E>(a: State<E>, b: State<E>, c: State<E>)
    requires Logged(a, b) && Logged(b, c)
    ensures Logged(a, c)
  {
  }

  lemma DropOutdatedLogs<E>(d: State<E>, id: nat)
    ensures Logged(d, DropOutdated(d, id))
  {
    if d.inOrder {
      FlushLogs(HandOver(DropRepairs(d, id), id));
    }
  }

  lemma UsefulLogs<E(!new)>(f: Field<E>, truth: Truth<E>, d: State<E>, r: Repair<E>, d': State<E>)
    requires f.Laws() && TruthOk(f, truth) && Good(f, truth, d, {}) && RepairOk(f, truth, r)
    requires r.id !in d.repairs && !(r.ids <= d.sources.Keys)
    requires MayArrive(d, r.ids) && UsefulStep(f, d, r, d')
    ensures Logged(d, d')
  {
    hide Good, Add, Create, FullStep, StripKnown, RepairOk, Alone, Strippable, Logged, Links;
    var s := StrippedRight(f, truth, d, r);
    if |s.ids| == 1 {
      var x := Min(s.ids);
      SingletonIs(s.ids, x);
      DegreeOneTaken(f, truth, d, s, x);
      var t := Take(Link(d, s), x, s.id);
      GoodGives(f, truth, t, {});
      CreateId(f, s, x);
      AddLogs(f, t, Create(f, s));
      SameLog(d, t);
      LoggedTwice(d, t, d');
    } else {
      FullStepLogs(f, Link(d, s), d');
      SameLog(d, Link(d, s));
      LoggedTwice(d, Link(d, s), d');
    }
  }

  lemma SameLog<E>(d: State<E>, t: State<E>)
    requires t.log == d.log
    ensures Logged(d, t)
  {
  }

  // ----- a source arrives

  lemma SourceStepKeeps<E(!new)>(f: Field<E>, truth: Truth<E>, d: State<E>, src: Source<E>, d': State<E>)
    requires f.Laws() && TruthOk(f, truth) && Good(f, truth, d, {}) && Balanced(d)
    requires src.id in truth && truth[src.id] == src.data && Strippable(d, src.id)
    requires SourceStep(f, d, src, d')
    ensures Logged(d, d') && Kept(d, d')
  {
    hide Good, Add, FullStep, Strippable, Logged, Links, StillResolved;
    GoodGives(f, truth, d, {});
    SourceStepGood(f, truth, d, src, d');
    StillStored(d, d');
    if !IsOld(d, src.id) && src.id !in d.sources {
      AddLogs(f, d, src);
      FullStepLogs(f, Add(f, d, src), d');
      LoggedTwice(d, Add(f, d, src), d');
    } else {
      SameLog(d, d');
    }
  }

  lemma StillStored<E>(d: State<E>, d': State<E>)
    requires Young(d) && StillResolved(d, d') && Low(d') == Low(d)
    ensures forall s | s in d.sources :: s in d'.sources
  {
    forall s | s in d.sources
      ensures s in d'.sources
    {
      assert Resolved(d, s);
    }
  }

  // ----- a repair arrives

  lemma RepairStepLogs<E(!new)>(f: Field<E>, truth: Truth<E>, d: State<E>, r: Repair<E>, d': State<E>)
    requires f.Laws() && TruthOk(f, truth) && Good(f, truth, d, {}) && Balanced(d)
    requires r.ids != {} && RepairOk(f, truth, r) && Low(d) <= Min(r.ids)
    requires MayArrive(DropOutdated(d, Min(r.ids)), r.ids)
    requires RepairStep(f, d, r, d')
    ensures Logged(d, d')
  {
    hide Good, RepairOk, UsefulStep, DropOutdated, MayArrive, Logged;
    var c := DropOutdated(d, Min(r.ids));
    if !IsOld(d, Max(r.ids)) && r.id !in d.repairs {
      DropOutdatedGood(f, truth, d, Min(r.ids));
      DropOutdatedLogs(d, Min(r.ids));
      DropOutdatedShrinks(d, Min(r.ids));
      assert r.id !in c.repairs.Keys;
      if r.ids <= c.sources.Keys {
        SameLog(c, d');
      } else {
        UsefulLogs(f, truth, c, r, d');
      }
      LoggedTwice(d, c, d');
    } else {
      SameLog(d, d');
    }
  }

  /** Outdated sources are handed over before they are erased. */
  lemma RepairStepKeeps<E(!new)>(f: Field<E>, truth: Truth<E>, d: State<E>, r: Repair<E>, d': State<E>)
    requires f.Laws() && TruthOk(f, truth) && Good(f, truth, d, {}) && Balanced(d) && Complete(d)
    requires r.ids != {} && RepairOk(f, truth, r) && Low(d) <= Min(r.ids)
    requires MayArrive(DropOutdated(d, Min(r.ids)), r.ids)
    requires RepairStep(f, d, r, d')
    ensures Logged(d, d') && Kept(d, d')
  {
    hide Good, RepairOk, UsefulStep, DropOutdated, MayArrive, Complete, Logged, Kept;
    var c := DropOutdated(d, Min(r.ids));
    if !IsOld(d, Max(r.ids)) && r.id !in d.repairs {
      DropOutdatedGood(f, truth, d, Min(r.ids));
      DropOutdatedLogs(d, Min(r.ids));
      DropOutdatedComplete(d, Min(r.ids));
      DropOutdatedShrinks(d, Min(r.ids));
      assert r.id !in c.repairs.Keys;
      AfterOutdating(f, truth, d, c, r, d');
    } else {
      KeptItself(d);
    }
  }

  lemma KeptItself<E>(d: State<E>)
    ensures Kept(d, d) && Logged(d, d)
  {
  }

  lemma AfterOutdating<E(!new)>(f: Field<E>, truth: Truth<E>, d: State<E>, c: State<E>, r: Repair<E>, d': State<E>)
    requires f.Laws() && TruthOk(f, truth) && Good(f, truth, c, {}) && Logged(d, c)
    requires forall s | s in d.sources && s !in c.sources :: InLog(c.log, s)
    requires r.ids != {} && RepairOk(f, truth, r) && MayArrive(c, r.ids) && Low(c) == Min(r.ids) && r.id !in c.repairs
    requires if r.ids <= c.sources.Keys then d' == c.(useless := c.useless + 1) else UsefulStep(f, c, r, d')
    ensures Logged(d, d') && Kept(d, d')
  {
    hide Good, RepairOk, UsefulStep, MayArrive, Links, Resolved, InLog;
    if !(r.ids <= c.sources.Keys) {
      GoodGives(f, truth, c, {});
      UsefulLogs(f, truth, c, r, d');
      UsefulGood(f, truth, c, r, d');
      StillStored(c, d');
    }
    LoggedTwice(d, c, d');
    forall s | s in d.sources
      ensures s in d'.sources || InLog(d'.log, s)
    {
      if s !in c.sources {
        PrefixInLog(c.log, d'.log, s);
      }
    }
  }
}
