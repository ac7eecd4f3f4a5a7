/**
  Groups of prime order and pairings between them: the interface that the curve
  library offers. Scalar multiplication is repeated addition; everything else
  about it (distribution, composition, reduction modulo the order, cancellation)
  is a lemma. The last part shows that the laws can be met, for every prime.
 */
module Groups {
  import opened Modular

  /** `elem` is membership of the prime-order subgroup (`InG1` / `InG2`). */
  datatype PrimeGroup<!T> = PrimeGroup(elem: T -> bool, zero: T, add: (T, T) -> T, neg: T -> T, gen: T)

  function Mult<T>(g: PrimeGroup<T>, k: nat, p: T): T {
    if k == 0 then g.zero else g.add(Mult(g, k - 1, p), p)
  }

  // ----- Laws, one predicate a law so that each is used only where it is named -----

  ghost predicate ClosedAt<T>(g: PrimeGroup<T>, x: T, y: T) {
    g.elem(x) && g.elem(y) ==> g.elem(g.add(x, y)) && g.add(x, y) == g.add(y, x)
  }

  ghost predicate AssocAt<T>(g: PrimeGroup<T>, x: T, y: T, z: T) {
    g.elem(x) && g.elem(y) && g.elem(z) ==> g.add(g.add(x, y), z) == g.add(x, g.add(y, z))
  }

  ghost predicate UnitAt<T>(g: PrimeGroup<T>, x: T) {
    g.elem(x) ==> g.add(x, g.zero) == x && g.elem(g.neg(x)) && g.add(x, g.neg(x)) == g.zero
  }

  ghost predicate OrderAt<T>(g: PrimeGroup<T>, r: nat, x: T) {
    g.elem(x) ==> Mult(g, r, x) == g.zero && exists k: nat :: Mult(g, k, g.gen) == x
  }

  ghost predicate Laws<T(!new)>(g: PrimeGroup<T>, r: int) {
    && Prime(r)
    && g.elem(g.zero) && g.elem(g.gen) && g.gen != g.zero
    && (forall x, y :: ClosedAt(g, x, y))
    && (forall x, y, z :: AssocAt(g, x, y, z))
    && (forall x :: UnitAt(g, x))
    && (forall x :: OrderAt(g, r, x))
  }

  // ----- Consequences -----

  lemma Closed<T(!new)>(g: PrimeGroup<T>, r: int, x: T, y: T)
    requires Laws(g, r) && g.elem(x) && g.elem(y)
    ensures g.elem(g.add(x, y)) && g.add(x, y) == g.add(y, x)
  {
    assert ClosedAt(g, x, y);
  }

  lemma Assoc<T(!new)>(g: PrimeGroup<T>, r: int, x: T, y: T, z: T)
    requires Laws(g, r) && g.elem(x) && g.elem(y) && g.elem(z)
    ensures g.add(g.add(x, y), z) == g.add(x, g.add(y, z))
  {
    assert AssocAt(g, x, y, z);
  }

  lemma Unit<T(!new)>(g: PrimeGroup<T>, r: int, x: T)
    requires Laws(g, r) && g.elem(x)
    ensures g.add(x, g.zero) == x && g.add(g.zero, x) == x
    ensures g.elem(g.neg(x)) && g.add(x, g.neg(x)) == g.zero
  {
    assert UnitAt(g, x);
    assert ClosedAt(g, x, g.zero);
  }

  lemma AddCancel<T(!new)>(g: PrimeGroup<T>, r: int, x: T, y: T, z: T)
    requires Laws(g, r) && g.elem(x) && g.elem(y) && g.elem(z)
    requires g.add(x, z) == g.add(y, z)
    ensures x == y
  {
    Unit(g, r, z);
    Unit(g, r, x);
    Unit(g, r, y);
    Assoc(g, r, x, z, g.neg(z));
    Assoc(g, r, y, z, g.neg(z));
  }

  lemma {:induction false} MultElem<T(!new)>(g: PrimeGroup<T>, r: int, k: nat, p: T)
    requires Laws(g, r) && g.elem(p)
    ensures g.elem(Mult(g, k, p))
  {
    if k == 0 {
    } else {
      MultElem(g, r, k - 1, p);
      Closed(g, r, Mult(g, k - 1, p), p);
    }
  }

  lemma MultOne<T(!new)>(g: PrimeGroup<T>, r: int, p: T)
    requires Laws(g, r) && g.elem(p)
    ensures Mult(g, 1, p) == p
  {
    Unit(g, r, p);
    assert Mult(g, 1, p) == g.add(Mult(g, 0, p), p);
  }

  /** (a + b) P = a P + b P. */
  lemma {:induction false} MultAdd<T(!new)>(g: PrimeGroup<T>, r: int, a: nat, b: nat, p: T)
    requires Laws(g, r) && g.elem(p)
    ensures Mult(g, a + b, p) == g.add(Mult(g, a, p), Mult(g, b, p))
  {
    MultElem(g, r, a, p);
    if b == 0 {
      Unit(g, r, Mult(g, a, p));
    } else {
      MultAdd(g, r, a, b - 1, p);
      MultElem(g, r, b - 1, p);
      assert Mult(g, a + b, p) == g.add(Mult(g, a + (b - 1), p), p);
      Assoc(g, r, Mult(g, a, p), Mult(g, b - 1, p), p);
    }
  }

  /** (a b) P = a (b P). */
  lemma {:induction false} MultMul<T(!new)>(g: PrimeGroup<T>, r: int, a: nat, b: nat, p: T)
    requires Laws(g, r) && g.elem(p)
    ensures Mult(g, a * b, p) == Mult(g, a, Mult(g, b, p))
  {
    if a > 0 {
      MultMul(g, r, a - 1, b, p);
      MulAdd(a - 1, 1, b);
      MultAdd(g, r, (a - 1) * b, b, p);
    } else {
      assert a * b == 0;
    }
  }

  lemma {:induction false} MultZero<T(!new)>(g: PrimeGroup<T>, r: int, k: nat)
    requires Laws(g, r)
    ensures Mult(g, k, g.zero) == g.zero
  {
    if k == 0 {
    } else {
      MultZero(g, r, k - 1);
      Unit(g, r, g.zero);
    }
  }

  /** Only the residue of a scalar matters. */
  lemma MultMod<T(!new)>(g: PrimeGroup<T>, r: int, k: nat, p: T)
    requires Laws(g, r) && g.elem(p)
    ensures Mult(g, k, p) == Mult(g, k % r, p)
  {
    var q: nat := k / r;
    var m := k % r;
    assert OrderAt(g, r, p);
    MultAdd(g, r, q * r, m, p);
    MultMul(g, r, q, r, p);
    MultZero(g, r, q);
    MultElem(g, r, m, p);
    Unit(g, r, Mult(g, m, p));
  }

  /** Multiplying by a non-zero scalar is undone by multiplying by its inverse. */
  lemma MultInverse<T(!new)>(g: PrimeGroup<T>, r: int, k: nat, p: T)
    requires Laws(g, r) && g.elem(p) && k % r != 0
    ensures Mult(g, Inverse(k, r), Mult(g, k, p)) == p
    ensures Mult(g, k, Mult(g, Inverse(k, r), p)) == p
  {
    var v := Inverse(k, r);
    InverseCorrect(k, r);
    MulAssoc(k, v, 1);
    MultMul(g, r, v, k, p);
    MultMul(g, r, k, v, p);
    MultMod(g, r, v * k, p);
    MultOne(g, r, p);
  }

  lemma MultCommute<T(!new)>(g: PrimeGroup<T>, r: int, a: nat, b: nat, p: T)
    requires Laws(g, r) && g.elem(p)
    ensures Mult(g, a, Mult(g, b, p)) == Mult(g, b, Mult(g, a, p))
  {
    MultMul(g, r, a, b, p);
    MultMul(g, r, b, a, p);
    MulAssoc(a, b, 1);
  }

  /** A non-identity element has order r: a multiple of it determines the scalar. */
  lemma MultCancel<T(!new)>(g: PrimeGroup<T>, r: int, a: nat, b: nat, p: T)
    requires Laws(g, r) && g.elem(p) && p != g.zero
    ensures Mult(g, a, p) == Mult(g, b, p) <==> a % r == b % r
  {
    MultMod(g, r, a, p);
    MultMod(g, r, b, p);
    if Mult(g, a, p) == Mult(g, b, p) && a % r != b % r {
      var hi, lo := if a % r > b % r then a % r else b % r, if a % r > b % r then b % r else a % r;
      var d := hi - lo;
      MultAdd(g, r, d, lo, p);
      MultElem(g, r, d, p);
      MultElem(g, r, lo, p);
      Unit(g, r, Mult(g, lo, p));
      AddCancel(g, r, Mult(g, d, p), g.zero, Mult(g, lo, p));
      SmallMod(d, r);
      MultInverse(g, r, d, p);
      MultZero(g, r, Inverse(d, r));
      assert false;
    }
  }

  lemma MultNonZero<T(!new)>(g: PrimeGroup<T>, r: int, k: nat, p: T)
    requires Laws(g, r) && g.elem(p)
    ensures Mult(g, k, p) == g.zero <==> k % r == 0 || p == g.zero
  {
    MultZero(g, r, k);
    if p != g.zero {
      MultCancel(g, r, k, 0, p);
      SmallMod(0, r);
    }
  }

  /** k (P + Q) = k P + k Q. */
  lemma {:induction false} MultDistribute<T(!new)>(g: PrimeGroup<T>, r: int, k: nat, p: T, q: T)
    requires Laws(g, r) && g.elem(p) && g.elem(q)
    ensures Mult(g, k, g.add(p, q)) == g.add(Mult(g, k, p), Mult(g, k, q))
  {
    if k == 0 {
      Unit(g, r, g.zero);
    } else {
      var a, b := Mult(g, k - 1, p), Mult(g, k - 1, q);
      MultDistribute(g, r, k - 1, p, q);
      MultElem(g, r, k - 1, p);
      MultElem(g, r, k - 1, q);
      AddSwap(g, r, a, b, p, q);
    }
  }

  lemma AddSwap<T(!new)>(g: PrimeGroup<T>, r: int, a: T, b: T, p: T, q: T)
    requires Laws(g, r) && g.elem(a) && g.elem(b) && g.elem(p) && g.elem(q)
    ensures g.add(g.add(a, b), g.add(p, q)) == g.add(g.add(a, p), g.add(b, q))
  {
    Closed(g, r, p, q);
    Closed(g, r, b, p);
    Closed(g, r, b, q);
    Assoc(g, r, a, b, g.add(p, q));
    Assoc(g, r, b, p, q);
    Assoc(g, r, p, b, q);
    Assoc(g, r, a, p, g.add(b, q));
  }

  /** The discrete logarithm to the generator, reduced modulo the order. */
  ghost function Dlog<T(!new)>(g: PrimeGroup<T>, r: int, p: T): (k: nat)
    requires Laws(g, r) && g.elem(p)
    ensures k < r && Mult(g, k, g.gen) == p
  {
    assert OrderAt(g, r, p);
    var k: nat :| Mult(g, k, g.gen) == p;
    MultMod(g, r, k, g.gen);
    k % r
  }

  /** In a group of prime order any element is a multiple of any non-identity one, in exactly one way. */
  lemma Ratio<T(!new)>(g: PrimeGroup<T>, r: int, p: T, q: T) returns (k: nat)
    requires Laws(g, r) && g.elem(p) && g.elem(q) && q != g.zero
    ensures k < r && p == Mult(g, k, q)
    ensures forall j: nat :: j < r && p == Mult(g, j, q) ==> j == k
  {
    var a, b := Dlog(g, r, p), Dlog(g, r, q);
    assert Mult(g, 0, g.gen) == g.zero;
    SmallMod(b, r);
    var v := Inverse(b, r);
    MultCommute(g, r, v, b, g.gen);
    MultMul(g, r, a, v, q);
    MultInverse(g, r, b, g.gen);
    MultMod(g, r, a * v, q);
    k := a * v % r;
    forall j: nat | j < r && p == Mult(g, j, q)
      ensures j == k
    {
      MultCancel(g, r, j, k, q);
      ModIs(j, 0, j, r);
      ModIs(k, 0, k, r);
    }
  }

  // ----- Pairings -----

  datatype Suite<!A, !B, !C> = Suite(r: int, g1: PrimeGroup<A>, g2: PrimeGroup<B>, gt: PrimeGroup<C>, pair: (A, B) -> C)

  ghost predicate BilinearLeftAt<A, B, C>(s: Suite<A, B, C>, p: A, p': A, q: B) {
    s.g1.elem(p) && s.g1.elem(p') && s.g2.elem(q) ==>
      s.pair(s.g1.add(p, p'), q) == s.gt.add(s.pair(p, q), s.pair(p', q))
  }

  ghost predicate BilinearRightAt<A, B, C>(s: Suite<A, B, C>, p: A, q: B, q': B) {
    s.g1.elem(p) && s.g2.elem(q) && s.g2.elem(q') ==>
      s.pair(p, s.g2.add(q, q')) == s.gt.add(s.pair(p, q), s.pair(p, q'))
  }

  ghost predicate PairElemAt<A, B, C>(s: Suite<A, B, C>, p: A, q: B) {
    s.g1.elem(p) && s.g2.elem(q) ==> s.gt.elem(s.pair(p, q))
  }

  /** Three groups of the same prime order and a bilinear, non-degenerate map. */
  ghost predicate PairingLaws<A(!new), B(!new), C(!new)>(s: Suite<A, B, C>) {
    && Laws(s.g1, s.r) && Laws(s.g2, s.r) && Laws(s.gt, s.r)
    && (forall p, q :: PairElemAt(s, p, q))
    && (forall p, p', q :: BilinearLeftAt(s, p, p', q))
    && (forall p, q, q' :: BilinearRightAt(s, p, q, q'))
    && s.pair(s.g1.gen, s.g2.gen) != s.gt.zero
  }

  lemma PairZero<A(!new), B(!new), C(!new)>(s: Suite<A, B, C>, p: A, q: B)
    requires PairingLaws(s) && s.g1.elem(p) && s.g2.elem(q)
    ensures s.gt.elem(s.pair(p, q))
    ensures s.pair(s.g1.zero, q) == s.gt.zero && s.pair(p, s.g2.zero) == s.gt.zero
  {
    assert PairElemAt(s, p, q);
    Unit(s.g1, s.r, s.g1.zero);
    Unit(s.g2, s.r, s.g2.zero);
    var x, y := s.pair(s.g1.zero, q), s.pair(p, s.g2.zero);
    assert PairElemAt(s, s.g1.zero, q);
    assert PairElemAt(s, p, s.g2.zero);
    assert BilinearLeftAt(s, s.g1.zero, s.g1.zero, q);
    assert BilinearRightAt(s, p, s.g2.zero, s.g2.zero);
    Unit(s.gt, s.r, x);
    Unit(s.gt, s.r, y);
    AddCancel(s.gt, s.r, x, s.gt.zero, x);
    AddCancel(s.gt, s.r, y, s.gt.zero, y);
  }

  lemma {:induction false} PairMultLeft<A(!new), B(!new), C(!new)>(s: Suite<A, B, C>, k: nat, p: A, q: B)
    requires PairingLaws(s) && s.g1.elem(p) && s.g2.elem(q)
    ensures s.pair(Mult(s.g1, k, p), q) == Mult(s.gt, k, s.pair(p, q))
  {
    PairZero(s, p, q);
    if k == 0 {
    } else {
      PairMultLeft(s, k - 1, p, q);
      MultElem(s.g1, s.r, k - 1, p);
      assert BilinearLeftAt(s, Mult(s.g1, k - 1, p), p, q);
    }
  }

  lemma {:induction false} PairMultRight<A(!new), B(!new), C(!new)>(s: Suite<A, B, C>, k: nat, p: A, q: B)
    requires PairingLaws(s) && s.g1.elem(p) && s.g2.elem(q)
    ensures s.pair(p, Mult(s.g2, k, q)) == Mult(s.gt, k, s.pair(p, q))
  {
    PairZero(s, p, q);
    if k == 0 {
    } else {
      PairMultRight(s, k - 1, p, q);
      MultElem(s.g2, s.r, k - 1, q);
      assert BilinearRightAt(s, p, Mult(s.g2, k - 1, q), q);
    }
  }

  /** Pairing with the generator of the second group loses nothing. */
  lemma PairInjective<A(!new), B(!new), C(!new)>(s: Suite<A, B, C>, p: A, p': A)
    requires PairingLaws(s) && s.g1.elem(p) && s.g1.elem(p')
    ensures s.pair(p, s.g2.gen) == s.pair(p', s.g2.gen) <==> p == p'
  {
    var a, b := Dlog(s.g1, s.r, p), Dlog(s.g1, s.r, p');
    PairZero(s, s.g1.gen, s.g2.gen);
    PairMultLeft(s, a, s.g1.gen, s.g2.gen);
    PairMultLeft(s, b, s.g1.gen, s.g2.gen);
    MultCancel(s.gt, s.r, a, b, s.pair(s.g1.gen, s.g2.gen));
    ModIs(a, 0, a, s.r);
    ModIs(b, 0, b, s.r);
  }

  // ----- The laws are consistent: integers modulo any prime -----

  function Zr(r: int): PrimeGroup<int>
    requires r > 1
  {
    PrimeGroup(x => 0 <= x < r, 0, (x, y) => (x + y) % r, x => (r - x) % r, 1)
  }

  lemma {:induction false} ZrMult(r: int, k: nat, x: int)
    requires r > 1 && 0 <= x < r
    ensures Mult(Zr(r), k, x) == k * x % r
  {
    if k == 0 {
      SmallMod(0, r);
    } else {
      ZrMult(r, k - 1, x);
      MulAdd(k - 1, 1, x);
      ModAdd((k - 1) * x, x, r);
      ModIs(x, 0, x, r);
    }
  }

  lemma ZrLaws(r: int)
    requires Prime(r)
    ensures Laws(Zr(r), r)
  {
    var g := Zr(r);
    forall x, y, z ensures AssocAt(g, x, y, z) {
      if g.elem(x) && g.elem(y) && g.elem(z) {
        ModAdd(x + y, z, r);
        ModAdd(x, y + z, r);
        ModIs(x, 0, x, r);
        ModIs(z, 0, z, r);
      }
    }
    forall x ensures UnitAt(g, x) {
      if g.elem(x) {
        ModIs(x, 0, x, r);
        ModShift(-x, 1, r);
        ModAdd(x, r - x, r);
        ModIs(r, 1, 0, r);
      }
    }
    forall x ensures OrderAt(g, r, x) {
      if g.elem(x) {
        ZrMult(r, r, x);
        MulAssoc(r, x, 1);
        ModIs(r * x, x, 0, r);
        ZrMult(r, x, 1);
        ModIs(x, 0, x, r);
        assert Mult(g, x, g.gen) == x;
      }
    }
    forall x, y ensures ClosedAt(g, x, y) {}
  }

  /** Multiplication of discrete logarithms is a pairing, so the laws above have a model. */
  lemma ZrPairing(r: int)
    requires Prime(r)
    ensures PairingLaws(Suite(r, Zr(r), Zr(r), Zr(r), (x: int, y: int) => x * y % r))
  {
    ZrLaws(r);
    var s := Suite(r, Zr(r), Zr(r), Zr(r), (x: int, y: int) => x * y % r);
    forall p, q ensures PairElemAt(s, p, q) {}
    forall p, p', q ensures BilinearLeftAt(s, p, p', q) {
      ModMulLeft(p + p', q, r);
      MulAdd(p, p', q);
      ModAdd(p * q, p' * q, r);
    }
    forall p, q, q' ensures BilinearRightAt(s, p, q, q') {
      ModMulLeft(q + q', p, r);
      MulAdd(q, q', p);
      MulAssoc((q + q') % r, p, 1);
      ModAdd(p * q, p * q', r);
    }
    SmallMod(1, r);
  }
}
