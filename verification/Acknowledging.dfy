/** What an acknowledgement achieves: the encoder's window keeps exactly the sources that it does not list. */
module Acknowledging {
  import opened GaloisField
  import opened Symbols
  import opened EncoderModel
  import opened DecoderInvariant
  import opened Transmission
  import opened Wire
  import opened Rates
  import opened EncoderRuns
  import opened ByteRuns

  /** The window keeps what is not listed, in its order and with its data. */
  ghost predicate Forgets<E>(before: seq<Source<E>>, now: seq<Source<E>>, ids: set<nat>) {
    && WindowSorted(now) && WindowIds(now) == WindowIds(before) - ids
    && (forall x | x in before && x.id !in ids :: x in now)
    && (forall x | x in now :: x in before)
  }

  lemma UnacknowledgedForgets<E>(window: seq<Source<E>>, acked: set<nat>)
    requires WindowSorted(window)
    ensures Forgets(window, Unacknowledged(window, acked), acked)
  {
    UnacknowledgedKeeps(window, acked);
    forall x
      ensures x in Unacknowledged(window, acked) <==> x in window && x.id !in acked
    {
      UnacknowledgedMembers(window, acked, x);
    }
  }

  /** Whenever it was sent, an acknowledgement that arrives makes the encoder forget exactly what it lists, all of which
      the decoder is done with; the count it carries sets the rate in adaptive mode. */
  lemma AckForgets<E(!new)>(f: Field<E>, s: System<E>, s': System<E>, acked: set<nat>, received: nat)
    requires Inv(f, s) && DeliverAckStep(s, s', acked, received)
    ensures Forgets(s.enc.window, s'.enc.window, acked) && forall m | m in acked :: Resolved(s'.dec, m)
    ensures s'.enc.sentPackets == 0 && s'.enc.receivedAcks == s.enc.receivedAcks + 1
    ensures if s.enc.adaptive then RateFor(s.enc.sentPackets, received, s'.enc.rate) else s'.enc.rate == s.enc.rate
  {
    AckChanges(s.enc, acked, received);
    UnacknowledgedForgets(s.enc.window, acked);
    hide RateFor, Forgets, WindowIds, Unacknowledged, AdaptedRate;
  }

  /** The acknowledgement of the present decoder can be sent and can arrive; it leaves in the window exactly the sources
      that the decoder does not hold. */
  lemma PresentAck<E(!new)>(f: Field<E>, s: System<E>, received: nat) returns (s1: System<E>, s2: System<E>)
    requires Inv(f, s)
    ensures SendAckStep(s, s1) && DeliverAckStep(s1, s2, s.dec.sources.Keys, received) && s2.dec == s.dec
    ensures Forgets(s.enc.window, s2.enc.window, s.dec.sources.Keys)
    ensures WindowIds(s.enc.window) <= s.dec.sources.Keys ==> s2.enc.window == []
  {
    s1 := s.(acks := s.acks + {s.dec.sources.Keys});
    s2 := s1.(enc := Notify(s.enc, s.dec.sources.Keys, received));
    UnacknowledgedForgets(s.enc.window, s.dec.sources.Keys);
    hide Unacknowledged, AdaptedRate;
    if WindowIds(s.enc.window) <= s.dec.sources.Keys {
      NothingLeft(s2.enc.window);
    }
  }

  lemma NothingLeft<E>(window: seq<Source<E>>)
    ensures window != [] ==> WindowIds(window) != {}
  {
    if window != [] {
      assert window[0] in window && window[0].id in WindowIds(window);
    }
  }

  /** The same with bytes on the way back, for the count that they carry. */
  lemma PresentAckBytes(b: ByteSystem, b1: ByteSystem, b2: ByteSystem, n: nat)
    requires WindowSorted(b.enc.window) && SendAckBytes(b, b1, n)
    requires DeliverAckBytes(b1, b2, AckBytes(b.dec.sources.Keys, n))
    ensures Forgets(b.enc.window, b2.enc.window, b.dec.sources.Keys)
    ensures if b.enc.adaptive then RateFor(b.enc.sentPackets, n, b2.enc.rate) else b2.enc.rate == b.enc.rate
  {
    AckSurvivesExactly(b.dec.sources.Keys, n);
    AckChanges(b.enc, b.dec.sources.Keys, n);
    UnacknowledgedForgets(b.enc.window, b.dec.sources.Keys);
    hide AckFromBytes, AckBytes, AckFits, Forgets, RateFor, Unacknowledged, AdaptedRate, WindowIds;
  }
}
