/** Which coefficients the code chooses: their value from the identifiers, when two of them are equal, and when two
    repairs of the same two sources are worth no more than one. */
module ChosenCoefficients {
  import opened Division
  import opened GaloisField
  import opened LinearAlgebra

  // ----- remainders

  lemma ModuloSkips(x: int, k: int, m: nat)
    requires m > 0
    ensures (x + k * m) % m == x % m
  {
    var q, r := (x + k * m) / m - x / m - k, (x + k * m) % m - x % m;
    assert x == (x / m) * m + x % m;
    assert x + k * m == ((x + k * m) / m) * m + (x + k * m) % m;
    assert q * m == -r;
    Multiple(q, m);
  }

  /** Two integers leave the same remainder exactly when their difference leaves none. */
  lemma SameRemainder(x: int, y: int, m: nat)
    requires m > 0
    ensures x % m == y % m <==> (x - y) % m == 0
  {
    var p, q := x / m, y / m;
    assert x == p * m + x % m && y == q * m + y % m;
    if x % m == y % m {
      assert x - y == 0 + (p - q) * m;
      ModuloSkips(0, p - q, m);
    }
    if (x - y) % m == 0 {
      var d := (x - y) / m;
      assert x - y == d * m;
      assert x == y + d * m;
      ModuloSkips(y, d, m);
    }
  }

  lemma Regrouped(a: int, b: int, p: int, x: int, u: int, z: int, m: int) returns (k: int)
    requires a == p * m + x && b == u * m + z
    ensures b * a == z * x + k * m
  {
    k := u * a + z * p;
    assert (u * m + z) * a == u * m * a + z * a;
    assert z * a == z * (p * m) + z * x;
    assert u * m * a == u * a * m && z * (p * m) == z * p * m;
  }

  lemma Divided(a: nat, m: nat) returns (p: nat, x: nat)
    requires m > 0
    ensures p == a / m && x == a % m && a == p * m + x
  {
    p, x := a / m, a % m;
  }

  lemma SumReduced(a: nat, b: nat, m: nat)
    requires m > 0
    ensures (a % m + b % m) % m == (a + b) % m
  {
    var p, x := Divided(a, m);
    var q, y := Divided(b, m);
    assert a + b == (x + y) + (p + q) * m;
    ModuloSkips(x + y, p + q, m);
  }

  lemma ProductReduced(a: nat, b: nat, p: nat, x: nat, u: nat, z: nat, m: nat)
    requires m > 0 && a == p * m + x && b == u * m + z
    ensures z * x % m == b * a % m
  {
    var k := Regrouped(a, b, p, x, u, z, m);
    ModuloSkips(z * x, k, m);
  }

  /** Reducing the operands first, as the machine does, does not change the remainder. */
  lemma ReducedFirst(a: nat, b: nat, m: nat)
    requires m > 0
    ensures (a % m + b % m) % m * (a % m) % m == (a + b) * a % m
  {
    SumReduced(a, b, m);
    var p, x := Divided(a, m);
    var u, z := Divided(a + b, m);
    ProductReduced(a, a + b, p, x, u, z, m);
  }

  // ----- the value of a coefficient

  /** What the coefficient is computed from. */
  function Seed(repairId: nat, sourceId: nat): nat {
    (repairId + sourceId + 2) * (repairId + 1)
  }

  /** The number of elements that are not zero. */
  function Cycle(w: nat): (n: nat)
    ensures n > 0
  {
    if w == 4 then 15 else if w == 8 then 255 else 65535
  }

  lemma IndexIs<E(!new)>(f: Field<E>, repairId: nat, sourceId: nat)
    requires f.w in {4, 8, 16}
    ensures f.CoefficientIndex(repairId, sourceId) == Seed(repairId, sourceId) % TWO_TO_THE_32 % Cycle(f.w) + 1
    ensures 1 <= f.CoefficientIndex(repairId, sourceId) < Order(f.w)
  {
    ReducedFirst(repairId + 1, sourceId + 1, TWO_TO_THE_32);
    assert (repairId + 1) + (sourceId + 1) == repairId + sourceId + 2;
  }

  /** With 32-bit unsigned arithmetic, for identifiers of any size. */
  lemma CoefficientIs<E(!new)>(f: Field<E>, repairId: nat, sourceId: nat)
    requires f.w in {4, 8, 16}
    ensures f.Coefficient(repairId, sourceId)
         == f.ofNat((repairId + sourceId + 2) * (repairId + 1) % 0x1_0000_0000
                    % (if f.w == 4 then 15 else if f.w == 8 then 255 else 65535) + 1)
  {
    IndexIs(f, repairId, sourceId);
    hide f.CoefficientIndex;
  }

  lemma BelowIsItself(n: nat, m: nat)
    requires n < m
    ensures n % m == n
  {
  }

  /** As long as nothing wraps. */
  lemma SmallCoefficientIs<E(!new)>(f: Field<E>, repairId: nat, sourceId: nat)
    requires f.w in {4, 8, 16} && Seed(repairId, sourceId) < TWO_TO_THE_32
    ensures f.Coefficient(repairId, sourceId)
         == f.ofNat((repairId + sourceId + 2) * (repairId + 1) % (Order(f.w) - 1) + 1)
    ensures f.CoefficientIndex(repairId, sourceId) == Seed(repairId, sourceId) % Cycle(f.w) + 1
  {
    IndexIs(f, repairId, sourceId);
    BelowIsItself(Seed(repairId, sourceId), TWO_TO_THE_32);
    hide f.CoefficientIndex;
    assert Order(f.w) - 1 == Cycle(f.w);
  }

  /** For w = 32 the product itself, with zero replaced by one. */
  lemma WideCoefficientIs<E(!new)>(f: Field<E>, repairId: nat, sourceId: nat)
    requires f.w == 32
    ensures var n := (repairId + sourceId + 2) * (repairId + 1) % 0x1_0000_0000;
            f.Coefficient(repairId, sourceId) == f.ofNat(if n == 0 then 1 else n)
  {
    ReducedFirst(repairId + 1, sourceId + 1, TWO_TO_THE_32);
    assert (repairId + 1) + (sourceId + 1) == repairId + sourceId + 2;
  }

  // ----- when coefficients are equal

  /** A repair gives two sources the same coefficient exactly when the number of nonzero elements divides the product
      of its own number, from one, and the distance of the sources. */
  lemma EqualExactly<E(!new)>(f: Field<E>, r: nat, s: nat, t: nat)
    requires f.ReadsIntegers() && f.w in {4, 8, 16} && Seed(r, s) < TWO_TO_THE_32 && Seed(r, t) < TWO_TO_THE_32
    ensures f.Coefficient(r, s) == f.Coefficient(r, t) <==> (r + 1) * (t - s) % (Order(f.w) - 1) == 0
  {
    SmallCoefficientIs(f, r, s);
    SmallCoefficientIs(f, r, t);
    IndexIs(f, r, s);
    IndexIs(f, r, t);
    f.SameNat(f.CoefficientIndex(r, s), f.CoefficientIndex(r, t));
    SameRemainder(Seed(r, t), Seed(r, s), Cycle(f.w));
    assert Seed(r, t) - Seed(r, s) == (r + 1) * (t - s) by {
      assert (r + t + 2) * (r + 1) - (r + s + 2) * (r + 1) == (t - s) * (r + 1);
    }
    hide f.CoefficientIndex, f.ReadsIntegers, Seed;
    assert Order(f.w) - 1 == Cycle(f.w);
  }

  /** The coefficients repeat with the number of nonzero elements, in the repairs and in the sources. */
  lemma CoefficientsRepeat<E(!new)>(f: Field<E>, r: nat, s: nat, k: nat)
    requires f.w in {4, 8, 16}
    requires var n := Order(f.w) - 1; Seed(r + k * n, s) < TWO_TO_THE_32 && Seed(r, s + k * n) < TWO_TO_THE_32
    ensures var n := Order(f.w) - 1;
            f.Coefficient(r + k * n, s) == f.Coefficient(r, s) == f.Coefficient(r, s + k * n)
  {
    hide *;
    CycleIs(f.w);
    var n := Cycle(f.w);
    LaterSeed(r, s, k, n);
    FartherSeed(r, s, k, n);
    Positive(k, r + 1);
    Positive(k * (r + 1), n);
    Repeats(f, r, s, r + k * n, s, k * ((r + s + 2) + (r + 1) + k * n));
    Repeats(f, r, s, r, s + k * n, k * (r + 1));
  }

  lemma CycleIs(w: nat)
    requires w in {4, 8, 16}
    ensures Order(w) - 1 == Cycle(w)
  {
  }

  lemma Repeats<E(!new)>(f: Field<E>, r: nat, s: nat, r': nat, s': nat, k: int)
    requires f.w in {4, 8, 16} && Seed(r, s) < TWO_TO_THE_32 && Seed(r', s') < TWO_TO_THE_32
    requires Seed(r', s') == Seed(r, s) + k * Cycle(f.w)
    ensures f.Coefficient(r', s') == f.Coefficient(r, s)
  {
    ModuloSkips(Seed(r, s), k, Cycle(f.w));
    hide Seed, f.CoefficientIndex, Cycle;
    SmallCoefficientIs(f, r, s);
    SmallCoefficientIs(f, r', s');
    SameIndex(f, r', s', r, s);
  }

  lemma SameIndex<E(!new)>(f: Field<E>, r: nat, s: nat, r': nat, s': nat)
    requires f.w in {4, 8, 16} && f.CoefficientIndex(r, s) == f.CoefficientIndex(r', s')
    ensures f.Coefficient(r, s) == f.Coefficient(r', s')
  {
    hide f.CoefficientIndex;
  }

  lemma LaterSeed(r: nat, s: nat, k: nat, n: nat)
    ensures Seed(r + k * n, s) == Seed(r, s) + (k * ((r + s + 2) + (r + 1) + k * n)) * n
  {
    Expanded(r + s + 2, r + 1, k, n);
    assert Seed(r + k * n, s) == (r + s + 2 + k * n) * (r + 1 + k * n);
  }

  lemma Expanded(b: int, c: int, k: int, n: int)
    ensures (b + k * n) * (c + k * n) == b * c + (k * (b + c + k * n)) * n
  {
    var m := k * n;
    assert (b + m) * (c + m) == b * c + (b + c + m) * m;
    assert (b + c + m) * (k * n) == (k * (b + c + m)) * n;
  }

  lemma FartherSeed(r: nat, s: nat, k: nat, n: nat)
    ensures Seed(r, s + k * n) == Seed(r, s) + (k * (r + 1)) * n
  {
    var m := k * n;
    assert (r + s + 2 + m) * (r + 1) == (r + s + 2) * (r + 1) + m * (r + 1);
    assert (k * n) * (r + 1) == (k * (r + 1)) * n;
  }

  lemma Positive(x: nat, y: nat)
    ensures x * y >= 0
  {
  }

  // ----- two repairs of two sources

  /** The coefficients of two repairs of the same two sources. */
  ghost function PairMatrix<E(!new)>(f: Field<E>, k: nat, l: nat, a: nat, b: nat): Matrix<E> {
    [[f.Coefficient(k, a), f.Coefficient(k, b)], [f.Coefficient(l, a), f.Coefficient(l, b)]]
  }

  /** The two repairs together determine the sources. */
  ghost predicate Determines<E(!new)>(f: Field<E>, k: nat, l: nat, a: nat, b: nat) {
    f.mul(f.Coefficient(k, a), f.Coefficient(l, b)) != f.mul(f.Coefficient(k, b), f.Coefficient(l, a))
  }

  /** A matrix of two rows has no inverse exactly when its cross products are equal. */
  lemma CrossProducts<E(!new)>(f: Field<E>, a: Matrix<E>, x: E, y: E, z: E, w: E)
    requires f.Laws() && a == [[x, y], [z, w]] && y != f.zero
    ensures Singular(f, a) <==> f.mul(x, w) == f.mul(y, z)
  {
    if f.mul(x, w) == f.mul(y, z) {
      CrossedKernel(f, a, x, y, z, w);
    }
    if Singular(f, a) {
      var v: seq<E> :| |v| == 2 && InKernel(f, a, v) && exists k :: 0 <= k < |v| && v[k] != f.zero;
      assert Dot(f, a[0], v) == f.zero && Dot(f, a[1], v) == f.zero;
      DotOfTwo(f, x, y, v);
      DotOfTwo(f, z, w, v);
      KernelCrosses(f, x, y, z, w, v[0], v[1]);
    }
  }

  lemma CrossedKernel<E(!new)>(f: Field<E>, a: Matrix<E>, x: E, y: E, z: E, w: E)
    requires f.Laws() && a == [[x, y], [z, w]] && y != f.zero && f.mul(x, w) == f.mul(y, z)
    ensures Singular(f, a)
  {
    var v := [y, x];
    DotOfTwo(f, x, y, v);
    DotOfTwo(f, z, w, v);
    f.Law(x, y, y);
    f.Law(f.mul(x, y), y, y);
    f.Law(z, y, y);
    f.Law(w, x, x);
    f.Law(f.mul(x, w), y, y);
    assert InKernel(f, a, v) && v[0] != f.zero;
  }

  /** What is equal to its own negative is added to zero exactly when it is the other summand. */
  lemma SumIsZero<E(!new)>(f: Field<E>, u: E, v: E)
    requires f.Laws() && f.add(u, v) == f.zero
    ensures u == v
  {
    f.AddCancels(u, v);
    f.AddZero(v);
  }

  lemma KernelCrosses<E(!new)>(f: Field<E>, x: E, y: E, z: E, w: E, s: E, t: E)
    requires f.Laws() && y != f.zero && (s != f.zero || t != f.zero)
    requires f.add(f.mul(x, s), f.mul(y, t)) == f.zero && f.add(f.mul(z, s), f.mul(w, t)) == f.zero
    ensures f.mul(x, w) == f.mul(y, z)
  {
    SumIsZero(f, f.mul(x, s), f.mul(y, t));
    SumIsZero(f, f.mul(z, s), f.mul(w, t));
    if s == f.zero {
      f.MulZero(x);
      f.MulInv(y, t);
      f.MulZero(f.inv(y));
      assert false;
    } else {
      f.Law(w, x, s);
      f.Law(w, y, t);
      f.Law(y, w, t);
      f.Law(y, z, s);
      f.Law(x, w, s);
      Cancel(f, f.mul(x, w), f.mul(y, z), s);
    }
  }

  lemma Cancel<E(!new)>(f: Field<E>, u: E, v: E, s: E)
    requires f.Laws() && s != f.zero && f.mul(u, s) == f.mul(v, s)
    ensures u == v
  {
    f.Law(u, s, s);
    f.Law(v, s, s);
    f.MulInv(s, u);
    f.MulInv(s, v);
  }

  lemma PairSingularExactly<E(!new)>(f: Field<E>, k: nat, l: nat, a: nat, b: nat)
    requires f.Laws()
    ensures Singular(f, PairMatrix(f, k, l, a, b)) <==> !Determines(f, k, l, a, b)
  {
    f.CoefficientNonZero(k, b);
    hide Singular, f.Coefficient;
    CrossProducts(f, PairMatrix(f, k, l, a, b), f.Coefficient(k, a), f.Coefficient(k, b),
                  f.Coefficient(l, a), f.Coefficient(l, b));
  }

  /** If each of them gives both sources the same coefficient, they do not. */
  lemma EqualRowsDoNot<E(!new)>(f: Field<E>, k: nat, l: nat, a: nat, b: nat)
    requires f.Laws() && f.ReadsIntegers()
    requires Seed(k, a) < TWO_TO_THE_32 && Seed(k, b) < TWO_TO_THE_32
    requires Seed(l, a) < TWO_TO_THE_32 && Seed(l, b) < TWO_TO_THE_32
    requires var n := Order(f.w) - 1; (k + 1) * (b - a) % n == 0 && (l + 1) * (b - a) % n == 0
    ensures !Determines(f, k, l, a, b)
  {
    assert f.w in {4, 8, 16};
    hide f.Laws, f.ReadsIntegers, f.Coefficient, Seed;
    EqualExactly(f, k, a, b);
    EqualExactly(f, l, a, b);
  }
}
