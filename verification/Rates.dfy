/** What an acknowledgement sets the encoder's rate to, in terms of the packets that were lost. */
module Rates {
  import opened EncoderModel

  // ----- the rate for a loss

  lemma CeilIs(x: real, k: int)
    ensures Ceil(x) == k <==> (k - 1) as real < x <= k as real
  {
  }

  /** The number of sources per lost packet, halved. */
  lemma HalfInverse(lost: int, sent: nat)
    requires lost > 0 && sent > 0
    ensures var loss := lost as real / sent as real; loss > 0.0 && 1.0 / loss / 2.0 * (2 * lost) as real == sent as real
  {
    var l, s := lost as real, sent as real;
    var loss := l / s;
    assert loss * s == l;
    var x := 1.0 / loss;
    assert x * loss == 1.0;
    assert x * l == s by {
      assert x * (loss * s) == (x * loss) * s;
    }
    assert x / 2.0 * (2.0 * l) == x * l;
  }

  lemma Scaled(x: real, k: int, lost: int, sent: nat)
    requires lost > 0 && x * (2 * lost) as real == sent as real
    ensures x <= k as real <==> sent <= 2 * k * lost
  {
    var m := (2 * lost) as real;
    assert k as real * m == (2 * k * lost) as real;
    assert x <= k as real ==> x * m <= k as real * m;
    assert x > k as real ==> x * m > k as real * m;
  }

  lemma SmallLoss(lost: int, sent: nat)
    requires sent > 0
    ensures lost as real / sent as real < 0.01 <==> 100 * lost < sent
  {
    var loss := lost as real / sent as real;
    assert loss * sent as real == lost as real;
    assert loss < 0.01 ==> loss * sent as real < 0.01 * sent as real;
    assert loss >= 0.01 ==> loss * sent as real >= 0.01 * sent as real;
  }

  /** The rate is 50 when nothing was sent or less than one packet in a hundred was lost; otherwise it is the least
      number of sources per repair such that, in twice as many sources, one packet or more is lost. */
  ghost predicate RateFor(sent: nat, received: nat, rate: int) {
    var lost := sent - received;
    if sent == 0 || 100 * lost < sent then rate == 50
    else sent <= 2 * rate * lost && 2 * (rate - 1) * lost < sent
  }

  lemma AdaptedRateExactly(sent: nat, received: nat, rate: int)
    ensures AdaptedRate(sent, received) == rate <==> RateFor(sent, received, rate)
  {
    if sent > 0 {
      var lost := sent - received;
      var loss := lost as real / sent as real;
      assert LossRate(sent, received) == loss;
      SmallLoss(lost, sent);
      if 100 * lost >= sent {
        HalfInverse(lost, sent);
        var x := 1.0 / loss / 2.0;
        CeilIs(x, rate);
        Scaled(x, rate, lost, sent);
        Scaled(x, rate - 1, lost, sent);
      }
    }
  }

  /** The more is received, the fewer repairs are sent: the rate does not fall. */
  lemma RateRises(sent: nat, received: nat, more: nat)
    requires received <= more
    ensures AdaptedRate(sent, received) <= AdaptedRate(sent, more)
  {
    var k, l := AdaptedRate(sent, received), AdaptedRate(sent, more);
    AdaptedRateBounds(sent, received);
    AdaptedRateBounds(sent, more);
    AdaptedRateExactly(sent, received, k);
    AdaptedRateExactly(sent, more, l);
    hide AdaptedRate;
    if sent > 0 && 100 * (sent - more) >= sent {
      LeastRises(sent, sent - received, sent - more, k, l);
    }
  }

  lemma LeastRises(sent: nat, lost: nat, fewer: nat, k: nat, l: nat)
    requires fewer <= lost && 2 * (k - 1) * lost < sent <= 2 * l * fewer
    ensures k <= l
  {
    if l < k {
      Times(2 * l, 2 * (k - 1), fewer, lost);
    }
  }

  lemma Times(a: nat, b: nat, x: nat, y: nat)
    requires a <= b && x <= y
    ensures a * x <= b * y
  {
    assert a * x <= b * x <= b * y;
  }
}
