/** The quadratic extension of a field by a root y of y^2 + y + c, over any field in which that has no root. */
module Extension {
  import opened GaloisField

  /** The element lo + hi y. */
  datatype Pair<K> = Pair(lo: K, hi: K)

  function Plus<K(!new)>(k: Field<K>, p: Pair<K>, q: Pair<K>): Pair<K> {
    Pair(k.add(p.lo, q.lo), k.add(p.hi, q.hi))
  }

  /** Multiplication by an element of the small field. */
  function Scaled<K(!new)>(k: Field<K>, a: K, p: Pair<K>): Pair<K> {
    Pair(k.mul(a, p.lo), k.mul(a, p.hi))
  }

  /** Multiplication by y. */
  function YTime<K(!new)>(k: Field<K>, c: K, p: Pair<K>): Pair<K> {
    Pair(k.mul(c, p.hi), k.add(p.lo, p.hi))
  }

  function Product<K(!new)>(k: Field<K>, c: K, p: Pair<K>, q: Pair<K>): Pair<K> {
    Plus(k, Scaled(k, q.lo, p), Scaled(k, q.hi, YTime(k, c, p)))
  }

  function Conjugate<K(!new)>(k: Field<K>, p: Pair<K>): Pair<K> {
    Pair(k.add(p.lo, p.hi), p.hi)
  }

  /** The product of an element with its conjugate. */
  function Norm<K(!new)>(k: Field<K>, c: K, p: Pair<K>): K {
    k.add(k.mul(p.lo, k.add(p.lo, p.hi)), k.mul(c, k.mul(p.hi, p.hi)))
  }

  function Inverse<K(!new)>(k: Field<K>, c: K, p: Pair<K>): Pair<K> {
    Scaled(k, k.inv(Norm(k, c, p)), Conjugate(k, p))
  }

  /** The value of y^2 + y + c at an element of the small field. */
  function Value<K(!new)>(k: Field<K>, c: K, t: K): K {
    k.add(k.mul(t, k.add(t, k.one)), c)
  }

  ghost predicate NoRoot<K(!new)>(k: Field<K>, c: K) {
    forall t: K :: Value(k, c, t) != k.zero
  }

  // ----- sums

  lemma PlusLaws<K(!new)>(k: Field<K>, p: Pair<K>, q: Pair<K>, r: Pair<K>)
    requires k.Laws()
    ensures Plus(k, p, q) == Plus(k, q, p) && Plus(k, Plus(k, p, q), r) == Plus(k, p, Plus(k, q, r))
    ensures Plus(k, Pair(k.zero, k.zero), p) == p && Plus(k, p, p) == Pair(k.zero, k.zero)
  {
    k.Law(p.lo, q.lo, r.lo);
    k.Law(p.hi, q.hi, r.hi);
  }

  lemma PlusCross<K(!new)>(k: Field<K>, p: Pair<K>, q: Pair<K>, r: Pair<K>, s: Pair<K>)
    requires k.Laws()
    ensures Plus(k, Plus(k, p, q), Plus(k, r, s)) == Plus(k, Plus(k, p, r), Plus(k, q, s))
  {
    k.AddCross(p.lo, q.lo, r.lo, s.lo);
    k.AddCross(p.hi, q.hi, r.hi, s.hi);
  }

  // ----- the two factors of a product

  lemma MulSwap<K(!new)>(k: Field<K>, a: K, b: K, c: K)
    requires k.Laws()
    ensures k.mul(a, k.mul(b, c)) == k.mul(b, k.mul(a, c))
  {
    k.Law(a, b, c);
    k.Law(b, a, c);
  }

  lemma ScaledPlus<K(!new)>(k: Field<K>, a: K, p: Pair<K>, q: Pair<K>)
    requires k.Laws()
    ensures Scaled(k, a, Plus(k, p, q)) == Plus(k, Scaled(k, a, p), Scaled(k, a, q))
  {
    k.Law(a, p.lo, q.lo);
    k.Law(a, p.hi, q.hi);
  }

  lemma ScaledSwaps<K(!new)>(k: Field<K>, a: K, b: K, p: Pair<K>)
    requires k.Laws()
    ensures Scaled(k, a, Scaled(k, b, p)) == Scaled(k, b, Scaled(k, a, p))
  {
    MulSwap(k, a, b, p.lo);
    MulSwap(k, a, b, p.hi);
  }

  lemma YTimePlus<K(!new)>(k: Field<K>, c: K, p: Pair<K>, q: Pair<K>)
    requires k.Laws()
    ensures YTime(k, c, Plus(k, p, q)) == Plus(k, YTime(k, c, p), YTime(k, c, q))
  {
    k.Law(c, p.hi, q.hi);
    k.AddCross(p.lo, q.lo, p.hi, q.hi);
  }

  lemma YTimeScaled<K(!new)>(k: Field<K>, c: K, a: K, p: Pair<K>)
    requires k.Laws()
    ensures YTime(k, c, Scaled(k, a, p)) == Scaled(k, a, YTime(k, c, p))
  {
    MulSwap(k, c, a, p.hi);
    k.Law(a, p.lo, p.hi);
  }

  /** Multiplying by `q` is linear and commutes with multiplying by y and by elements of the small field. */
  lemma ProductPlus<K(!new)>(k: Field<K>, c: K, p: Pair<K>, q: Pair<K>, r: Pair<K>)
    requires k.Laws()
    ensures Product(k, c, Plus(k, p, q), r) == Plus(k, Product(k, c, p, r), Product(k, c, q, r))
  {
    hide Scaled, YTime, Plus;
    var y, z := YTime(k, c, p), YTime(k, c, q);
    ScaledPlus(k, r.lo, p, q);
    YTimePlus(k, c, p, q);
    ScaledPlus(k, r.hi, y, z);
    PlusCross(k, Scaled(k, r.lo, p), Scaled(k, r.lo, q), Scaled(k, r.hi, y), Scaled(k, r.hi, z));
  }

  lemma ProductScaled<K(!new)>(k: Field<K>, c: K, a: K, p: Pair<K>, q: Pair<K>)
    requires k.Laws()
    ensures Product(k, c, Scaled(k, a, p), q) == Scaled(k, a, Product(k, c, p, q))
  {
    hide Scaled, YTime, Plus;
    var y := YTime(k, c, p);
    ScaledSwaps(k, q.lo, a, p);
    YTimeScaled(k, c, a, p);
    ScaledSwaps(k, q.hi, a, y);
    ScaledPlus(k, a, Scaled(k, q.lo, p), Scaled(k, q.hi, y));
  }

  lemma ProductYTime<K(!new)>(k: Field<K>, c: K, p: Pair<K>, q: Pair<K>)
    requires k.Laws()
    ensures Product(k, c, YTime(k, c, p), q) == YTime(k, c, Product(k, c, p, q))
  {
    hide Scaled, YTime, Plus;
    var y := YTime(k, c, p);
    YTimeScaled(k, c, q.lo, p);
    YTimeScaled(k, c, q.hi, y);
    YTimePlus(k, c, Scaled(k, q.lo, p), Scaled(k, q.hi, y));
  }

  lemma ProductCommutes<K(!new)>(k: Field<K>, c: K, p: Pair<K>, q: Pair<K>)
    requires k.Laws()
    ensures Product(k, c, p, q) == Product(k, c, q, p)
  {
    k.Law(p.lo, q.lo, q.hi);
    MulSwap(k, q.hi, c, p.hi);
    MulSwap(k, p.hi, c, q.hi);
    k.Law(q.hi, p.lo, p.hi);
    k.Law(p.hi, q.lo, q.hi);
    k.AddSwap(k.mul(q.lo, p.hi), k.mul(q.hi, p.lo), k.mul(q.hi, p.hi));
    k.Law(p.hi, q.hi, q.lo);
    k.Law(p.lo, q.hi, q.lo);
  }

  lemma ProductSwaps<K(!new)>(k: Field<K>, c: K, p: Pair<K>, q: Pair<K>, r: Pair<K>)
    requires k.Laws()
    ensures Product(k, c, Product(k, c, p, q), r) == Product(k, c, Product(k, c, p, r), q)
  {
    var y := YTime(k, c, p);
    ProductPlus(k, c, Scaled(k, q.lo, p), Scaled(k, q.hi, y), r);
    ProductScaled(k, c, q.lo, p, r);
    ProductScaled(k, c, q.hi, y, r);
    ProductYTime(k, c, p, r);
    hide Scaled, YTime, Plus;
  }

  lemma ProductAssociates<K(!new)>(k: Field<K>, c: K, p: Pair<K>, q: Pair<K>, r: Pair<K>)
    requires k.Laws()
    ensures Product(k, c, Product(k, c, p, q), r) == Product(k, c, p, Product(k, c, q, r))
  {
    hide Product;
    ProductCommutes(k, c, p, q);
    ProductSwaps(k, c, q, p, r);
    ProductCommutes(k, c, Product(k, c, q, r), p);
  }

  lemma ProductOne<K(!new)>(k: Field<K>, c: K, p: Pair<K>)
    requires k.Laws()
    ensures Product(k, c, p, Pair(k.one, k.zero)) == p
  {
    k.Law(p.lo, p.lo, p.lo);
    k.Law(p.hi, p.hi, p.hi);
    k.MulZero(k.mul(c, p.hi));
    k.MulZero(k.add(p.lo, p.hi));
    k.AddZero(p.lo);
    k.AddZero(p.hi);
  }

  // ----- the inverse

  lemma NonZeroProduct<K(!new)>(k: Field<K>, a: K, b: K)
    requires k.Laws() && a != k.zero && b != k.zero
    ensures k.mul(a, b) != k.zero
  {
    k.MulInv(a, b);
    k.MulZero(k.inv(a));
  }

  lemma Quotient<K(!new)>(k: Field<K>, a: K, b: K) returns (t: K)
    requires k.Laws() && b != k.zero
    ensures a == k.mul(t, b)
  {
    t := k.mul(k.inv(b), a);
    k.MulInv(b, a);
    k.Law(k.inv(b), a, b);
    k.Law(b, a, a);
    k.Law(b, k.inv(b), a);
    k.Law(a, b, b);
    MulSwap(k, k.inv(b), b, a);
    k.Law(t, b, b);
  }

  lemma NormScales<K(!new)>(k: Field<K>, c: K, t: K, b: K)
    requires k.Laws()
    ensures Norm(k, c, Pair(k.mul(t, b), b)) == k.mul(Value(k, c, t), k.mul(b, b))
  {
    var bb, u := k.mul(b, b), k.add(t, k.one);
    k.Law(b, b, b);
    k.MulAdd(b, t, k.one);
    k.Law(t, b, k.mul(u, b));
    MulSwap(k, b, u, b);
    k.Law(t, u, bb);
    k.MulAdd(bb, k.mul(t, u), c);
  }

  /** Only zero has norm zero. */
  lemma NormNonZero<K(!new)>(k: Field<K>, c: K, p: Pair<K>)
    requires k.Laws() && NoRoot(k, c) && p != Pair(k.zero, k.zero)
    ensures Norm(k, c, p) != k.zero
  {
    var a, b := p.lo, p.hi;
    if b == k.zero {
      k.MulZero(b);
      k.MulZero(c);
      k.AddZero(a);
      NonZeroProduct(k, a, a);
      k.AddZero(k.mul(a, a));
    } else {
      var t := Quotient(k, a, b);
      NormScales(k, c, t, b);
      NonZeroProduct(k, b, b);
      NonZeroProduct(k, Value(k, c, t), k.mul(b, b));
    }
  }

  lemma ConjugateNorm<K(!new)>(k: Field<K>, c: K, p: Pair<K>)
    requires k.Laws()
    ensures Product(k, c, Conjugate(k, p), p) == Pair(Norm(k, c, p), k.zero)
  {
    var a, b := p.lo, p.hi;
    MulSwap(k, b, c, b);
    k.AddCancels(a, b);
    k.Law(a, b, b);
    k.Law(k.mul(a, b), a, a);
  }

  lemma InverseInverts<K(!new)>(k: Field<K>, c: K, p: Pair<K>)
    requires k.Laws() && NoRoot(k, c) && p != Pair(k.zero, k.zero)
    ensures Product(k, c, Inverse(k, c, p), p) == Pair(k.one, k.zero)
  {
    hide Product, NoRoot;
    var n := Norm(k, c, p);
    NormNonZero(k, c, p);
    ConjugateNorm(k, c, p);
    ProductScaled(k, c, k.inv(n), Conjugate(k, p), p);
    k.Law(n, n, n);
    k.MulZero(k.inv(n));
  }

  /** On elements of the small field it is the product there. */
  lemma ProductOfLow<K(!new)>(k: Field<K>, c: K, a: K, b: K)
    requires k.Laws()
    ensures Product(k, c, Pair(a, k.zero), Pair(b, k.zero)) == Pair(k.mul(b, a), k.zero)
  {
    k.MulZero(b);
    k.MulZero(c);
    k.AddZero(a);
    k.AddZero(k.zero);
    k.AddZero(k.mul(b, a));
    k.MulZero(a);
    k.MulZero(k.zero);
  }
}
