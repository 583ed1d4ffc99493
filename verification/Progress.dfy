/** The decoder can always take the next packet: in every reachable state the step that delivers it exists. */
module Progress {
  import opened GaloisField
  import opened LinearAlgebra
  import opened Ids
  import opened Symbols
  import opened DecoderModel
  import opened EncoderModel
  import opened Peeling
  import opened Delivery
  import opened DecoderInvariant
  import opened DecoderSteps
  import opened Invertibility
  import opened Transmission
  import opened Runs

  lemma CoefficientsSquare<E(!new)>(f: Field<E>, d: State<E>)
    requires |d.repairs.Keys| == |d.missing.Keys|
    ensures IsSquare(Coefficients(f, d), |d.missing.Keys|) && |Coefficients(f, d)| == |d.missing.Keys|
  {
    hide Entry;
  }

  /** Full decoding has an outcome, whether the matrix is singular or not. */
  lemma FullStepExists<E(!new)>(f: Field<E>, d: State<E>) returns (d': State<E>)
    requires f.Laws() && |d.repairs.Keys| <= |d.missing.Keys|
    ensures FullStep(f, d, d')
  {
    hide Coefficients, Singular, Solve, GiveUp, LeftInverse;
    if |d.repairs.Keys| == 0 || |d.missing.Keys| > |d.repairs.Keys| {
      d' := d;
    } else {
      CoefficientsSquare(f, d);
      var a := Coefficients(f, d);
      if Singular(f, a) {
        d' := GiveUp(d);
      } else {
        var l := NonSingularHasLeftInverse(f, a);
        InverseIsSquare(f, l, a);
        d' := Solve(f, d, l);
        assert Solved(f, d, d', l);
      }
    }
  }

  lemma InverseIsSquare<E(!new)>(f: Field<E>, l: Matrix<E>, a: Matrix<E>)
    requires LeftInverse(f, l, a)
    ensures IsSquare(l, |a|)
  {
  }

  lemma SourceStepExists<E(!new)>(f: Field<E>, truth: Truth<E>, d: State<E>, src: Source<E>) returns (d': State<E>)
    requires f.Laws() && TruthOk(f, truth) && Good(f, truth, d, {}) && Balanced(d)
    requires src.id in truth && truth[src.id] == src.data && Strippable(d, src.id)
    ensures SourceStep(f, d, src, d')
  {
    hide Good, Add, FullStep, Strippable;
    if IsOld(d, src.id) || src.id in d.sources {
      d' := d;
    } else {
      AddSafe(f, truth, d, src);
      d' := FullStepExists(f, Add(f, d, src));
    }
  }

  lemma UsefulStepExists<E(!new)>(f: Field<E>, truth: Truth<E>, d: State<E>, r: Repair<E>) returns (d': State<E>)
    requires f.Laws() && TruthOk(f, truth) && Good(f, truth, d, {}) && RepairOk(f, truth, r)
    requires r.id !in d.repairs && !(r.ids <= d.sources.Keys) && forall s | s in r.ids :: Low(d) <= s
    requires MayArrive(d, r.ids)
    ensures UsefulStep(f, d, r, d')
  {
    hide Good, Add, Create, Link, FullStep, StripKnown, RepairOk, Alone, Take;
    var s := StrippedRight(f, truth, d, r);
    if |s.ids| == 1 {
      d' := Add(f, Take(Link(d, s), Min(s.ids), r.id), Create(f, s));
    } else {
      LinkedGood(f, truth, d, s);
      d' := FullStepExists(f, Link(d, s));
    }
  }

  lemma RepairStepExists<E(!new)>(f: Field<E>, truth: Truth<E>, d: State<E>, r: Repair<E>) returns (d': State<E>)
    requires f.Laws() && TruthOk(f, truth) && Good(f, truth, d, {}) && Balanced(d)
    requires r.ids != {} && RepairOk(f, truth, r) && Low(d) <= Min(r.ids)
    requires MayArrive(DropOutdated(d, Min(r.ids)), r.ids)
    ensures RepairStep(f, d, r, d')
  {
    hide Good, RepairOk, UsefulStep, DropOutdated, MayArrive;
    if IsOld(d, Max(r.ids)) || r.id in d.repairs {
      d' := d;
    } else {
      var current := DropOutdated(d, Min(r.ids));
      DropOutdatedGood(f, truth, d, Min(r.ids));
      DropOutdatedShrinks(d, Min(r.ids));
      if r.ids <= current.sources.Keys {
        d' := current.(useless := current.useless + 1);
      } else {
        assert r.id !in current.repairs.Keys;
        d' := UsefulStepExists(f, truth, current, r);
      }
    }
  }

  /** Whatever acceptable packet arrives, the decoder has a next state. */
  lemma ReceiveExists<E(!new)>(f: Field<E>, truth: Truth<E>, d: State<E>, p: Packet<E>) returns (d': State<E>)
    requires f.Laws() && Acceptable(f, truth, d, p)
    ensures Receives(f, d, p, d')
  {
    hide Good, Balanced, RepairOk, MayArrive, DropOutdated, Strippable, SourceStep, RepairStep, TruthOk;
    match p
    case SourcePacket(src) =>
      d' := SourceStepExists(f, truth, d, src);
    case RepairPacket(r) =>
      d' := RepairStepExists(f, truth, d, r);
  }

  /** In every reachable state with a packet on its way, delivering the oldest one is a step of the system, and keeps
      the invariant. */
  lemma DeliveryIsPossible<E(!new)>(f: Field<E>, s: System<E>) returns (s': System<E>)
    requires f.Laws() && Inv(f, s) && s.channel != []
    ensures DeliverStep(f, s, s') && Inv(f, s')
  {
    hide *;
    NextIsAcceptable(f, s);
    var d := ReceiveExists(f, s.truth, s.dec, s.channel[0].packet);
    s' := s.(dec := d, channel := s.channel[1..], seen := s.channel[0].born);
    DeliveredTo(f, s, s', d);
    DeliverInv(f, s, s');
  }

  lemma DeliveredTo<E(!new)>(f: Field<E>, s: System<E>, s': System<E>, d: State<E>)
    requires s.channel != [] && Receives(f, s.dec, s.channel[0].packet, d)
    requires s' == s.(dec := d, channel := s.channel[1..], seen := s.channel[0].born)
    ensures DeliverStep(f, s, s')
  {
    hide Receives;
  }
}
