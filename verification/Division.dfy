/** Division of natural numbers, and the number of 32-bit integers. */
module Division {
  const TWO_TO_THE_32: nat := 0x1_0000_0000

  /** `n / d` and `n % d` by repeated subtraction. They are recursive so that division and remainder stay out of
      every proof that does not ask for them; `DivideIs` says what they are. */
  ghost function Quotient(n: nat, d: nat): nat
    requires d > 0
    decreases n
  {
    if n < d then 0 else 1 + Quotient(n - d, d)
  }

  ghost function Remainder(n: nat, d: nat): (r: nat)
    requires d > 0
    ensures r < d
    decreases n
  {
    if n < d then n else Remainder(n - d, d)
  }

  lemma {:induction false} DivideIs(n: nat, d: nat)
    requires d > 0
    ensures Quotient(n, d) == n / d && Remainder(n, d) == n % d
    decreases n
  {
    if n >= d {
      DivideIs(n - d, d);
      OneLess(n, d);
    }
  }

  lemma OneLess(n: nat, d: nat)
    requires d > 0 && n >= d
    ensures n / d == 1 + (n - d) / d && n % d == (n - d) % d
  {
    var q, r := (n - d) / d, (n - d) % d;
    assert n == (q + 1) * d + r;
    UniqueQuotient(q + 1, r, n, d);
  }

  lemma UniqueQuotient(q: nat, r: nat, n: nat, d: nat)
    requires r < d && n == q * d + r
    ensures n / d == q && n % d == r
  {
    var p := n / d - q;
    assert n == (n / d) * d + n % d;
    assert p * d == r - n % d;
    Multiple(p, d);
  }

  lemma Multiple(p: int, d: nat)
    ensures p >= 1 ==> p * d >= d
    ensures p <= -1 ==> p * d <= -(d as int)
  {
  }
}
