/** The arithmetic of `netcode/detail/galois_field.hh`, over an abstract field of characteristic 2.
    The library delegates multiplication and division to gf_complete; here a field is a record of
    operations that satisfies `Laws`, and everything else is proved from those laws alone.
    `Gf16.dfy` exhibits such a field. */
module GaloisField {
  import opened Division

  /** `w` is the field width, `ofNat` reads an integer below 2^w as an element, `enc` and `dec` turn
      a 16-bit size into field elements and back (two for w = 8, one for w = 16). */
  datatype Field<!E(!new)> = Field(
    w: nat,
    zero: E,
    one: E,
    add: (E, E) -> E,
    mul: (E, E) -> E,
    inv: E -> E,
    ofNat: nat -> E,
    sizeLen: nat,
    maxSize: nat,
    enc: nat -> seq<E>,
    dec: seq<E> -> nat)
  {
    // ----- laws

    /** Always true. The laws are instantiated only where a proof mentions this predicate. */
    ghost predicate At3(a: E, b: E, c: E) { true }

    ghost predicate LawsAt(a: E, b: E, c: E) {
      && add(a, b) == add(b, a)
      && add(add(a, b), c) == add(a, add(b, c))
      && add(zero, a) == a
      && add(a, a) == zero
      && mul(a, b) == mul(b, a)
      && mul(mul(a, b), c) == mul(a, mul(b, c))
      && mul(one, a) == a
      && mul(a, add(b, c)) == add(mul(a, b), mul(a, c))
      && (a != zero ==> mul(inv(a), a) == one)
    }

    /** Always true. Gates the laws about integers, as `At3` gates those about elements. */
    ghost predicate AtNat(n: nat) { true }

    ghost predicate NonZeroAt(n: nat) {
      1 <= n < Order(w) ==> ofNat(n) != zero
    }

    /** Always true. Gates the law about two integers. */
    ghost predicate AtNats(n: nat, m: nat) { true }

    ghost predicate DistinctAt(n: nat, m: nat) {
      n < m < Order(w) ==> ofNat(n) != ofNat(m)
    }

    ghost predicate SizeAt(n: nat) {
      n <= maxSize ==> |enc(n)| == sizeLen && dec(enc(n)) == n
    }

    /** Integers below 2^w are read as different elements, zero and one as themselves. */
    ghost predicate ReadsIntegers() {
      && w in {4, 8, 16, 32}
      && ofNat(0) == zero && ofNat(1) == one
      && (forall n: nat, m: nat {:trigger AtNats(n, m)} :: DistinctAt(n, m))
    }

    /** The laws of a field, and a lossless encoding of sizes: the latter excludes w = 32. */
    ghost predicate Laws() {
      && w in {4, 8, 16}
      && one != zero
      && (forall a: E, b: E, c: E {:trigger At3(a, b, c)} :: LawsAt(a, b, c))
      && ReadsIntegers()
      && (forall n: nat {:trigger AtNat(n)} :: SizeAt(n))
    }

    lemma Law(a: E, b: E, c: E)
      requires Laws()
      ensures LawsAt(a, b, c)
    {
      assert At3(a, b, c);
    }

    lemma NatLaw(n: nat)
      requires Laws()
      ensures NonZeroAt(n) && SizeAt(n)
    {
      assert ReadsIntegers();
      assert AtNat(n);
      assert AtNats(0, n);
    }

    /** An integer below 2^w can be told from the element that it is read as. */
    lemma SameNat(n: nat, m: nat)
      requires ReadsIntegers() && n < Order(w) && m < Order(w)
      ensures ofNat(n) == ofNat(m) <==> n == m
    {
      assert AtNats(n, m) && AtNats(m, n);
    }

    // ----- derived scalar facts

    lemma MulZero(a: E)
      requires Laws()
      ensures mul(a, zero) == zero && mul(zero, a) == zero
    {
      var t := mul(a, zero);
      Law(a, zero, zero);
      Law(zero, zero, zero);
      Law(t, t, t);
      assert t == add(t, t);
    }

    lemma AddZero(a: E)
      requires Laws()
      ensures add(a, zero) == a && add(zero, a) == a
    {
      Law(a, zero, zero);
    }

    /** Adding twice what was added once removes it: the decoder's way to strip a source. */
    lemma AddCancels(a: E, b: E)
      requires Laws()
      ensures add(add(a, b), b) == a && add(add(b, a), b) == a
    {
      Law(a, b, b);
      Law(b, b, b);
      AddZero(a);
      Law(b, a, a);
    }

    lemma AddSwap(a: E, b: E, c: E)
      requires Laws()
      ensures add(a, add(b, c)) == add(b, add(a, c))
    {
      Law(a, b, c);
      Law(b, a, c);
    }

    lemma AddCross(a: E, b: E, c: E, d: E)
      requires Laws()
      ensures add(add(a, b), add(c, d)) == add(add(a, c), add(b, d))
    {
      Law(a, b, add(c, d));
      AddSwap(b, c, d);
      Law(a, c, add(b, d));
    }

    lemma MulAdd(a: E, b: E, c: E)
      requires Laws()
      ensures mul(add(b, c), a) == add(mul(b, a), mul(c, a))
      ensures mul(a, add(b, c)) == add(mul(a, b), mul(a, c))
    {
      Law(a, b, c);
      Law(a, add(b, c), c);
      Law(a, c, b);
    }

    lemma MulInv(a: E, b: E)
      requires Laws() && a != zero
      ensures mul(inv(a), mul(a, b)) == b
      ensures inv(a) != zero
    {
      Law(inv(a), a, b);
      Law(a, a, a);
      Law(b, b, b);
      if inv(a) == zero {
        MulZero(a);
      }
    }

    // ----- coefficients

    /** The coefficient of a source in a repair, `galois_field::coefficient`: 32-bit unsigned arithmetic, reduced
        to 1 .. 2^w - 1; for w = 32 only zero is replaced. */
    function CoefficientIndex(repairId: nat, sourceId: nat): nat
      requires w in {4, 8, 16, 32}
    {
      var r := (repairId + 1) % TWO_TO_THE_32;
      var s := (sourceId + 1) % TWO_TO_THE_32;
      var res := ((r + s) % TWO_TO_THE_32) * r % TWO_TO_THE_32;
      if w == 32 then if res == 0 then 1 else res
      else res % (Order(w) - 1) + 1
    }

    function Coefficient(repairId: nat, sourceId: nat): E {
      if w in {4, 8, 16, 32} then ofNat(CoefficientIndex(repairId, sourceId)) else one
    }

    /** A coefficient is never zero, whatever the identifiers wrap to and for every width. */
    lemma CoefficientNonZero(repairId: nat, sourceId: nat)
      requires ReadsIntegers()
      ensures Coefficient(repairId, sourceId) != zero
    {
      var n := CoefficientIndex(repairId, sourceId);
      assert 1 <= n < Order(w);
      assert AtNats(0, n);
    }

    // ----- vectors and regions

    /** The element at position `i`, zero past the end: a region read as an infinite vector. */
    function At(v: seq<E>, i: nat): E {
      if i < |v| then v[i] else zero
    }

    function Zeros(n: nat): seq<E> {
      seq(n, _ => zero)
    }

    /** `multiply` on a region, and `multiply_size` on an encoded size. */
    function Scale(c: E, v: seq<E>): (r: seq<E>) {
      seq(|v|, i requires 0 <= i < |v| => mul(c, v[i]))
    }

    /** `multiply_add` on a region: only the first `|src|` elements of `dst` change. */
    function AddScaled(dst: seq<E>, c: E, src: seq<E>): seq<E> {
      seq(|dst|, i requires 0 <= i < |dst| => if i < |src| then add(dst[i], mul(c, src[i])) else dst[i])
    }

    lemma AtScale(c: E, v: seq<E>, i: nat)
      requires Laws()
      ensures At(Scale(c, v), i) == mul(c, At(v, i))
    {
      MulZero(c);
    }

    lemma AtAddScaled(dst: seq<E>, c: E, src: seq<E>, i: nat)
      requires Laws() && |src| <= |dst|
      ensures At(AddScaled(dst, c, src), i) == add(At(dst, i), mul(c, At(src, i)))
    {
      MulZero(c);
      AddZero(At(dst, i));
    }
  }

  function Order(w: nat): nat {
    if w == 4 then 16 else if w == 8 then 256 else if w == 16 then 65536 else if w == 32 then TWO_TO_THE_32 else 2
  }
}
