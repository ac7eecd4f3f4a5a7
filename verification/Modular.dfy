/**
  Arithmetic modulo a prime: what a scalar of the BLS12-381 field has to satisfy.
  The modulus is an arbitrary prime; inverses come from the extended Euclidean
  algorithm, and their existence and uniqueness are proved.
 */
module Modular {

  ghost predicate Divides(d: int, a: int)
    requires d > 0
  {
    a % d == 0
  }

  ghost predicate Prime(r: int) {
    r > 1 && forall d :: 1 < d < r ==> !Divides(d, r)
  }

  // ----- Products, kept apart so that each proof meets few of them -----

  lemma MulBound(d: int, r: int)
    requires r > 0
    ensures d >= 1 ==> d * r >= r
    ensures d <= -1 ==> d * r <= -r
  {}

  lemma MulAdd(a: int, b: int, c: int)
    ensures (a + b) * c == a * c + b * c
    ensures c * (a + b) == c * a + c * b
    ensures (a - b) * c == a * c - b * c
  {}

  lemma MulAssoc(a: int, b: int, c: int)
    ensures (a * b) * c == a * (b * c)
    ensures a * b == b * a
  {}

  // ----- The remainder, through its quotient -----

  lemma Quotient(a: int, r: int) returns (q: int)
    requires r > 0
    ensures a == q * r + a % r
  {
    q := a / r;
  }

  lemma ModUnique(q: int, m: int, r: int)
    requires r > 0 && 0 <= m < r
    ensures (q * r + m) % r == m
  {
    var a := q * r + m;
    var p := Quotient(a, r);
    MulAdd(p, q, r);
    MulBound(p - q, r);
  }

  lemma ModIs(a: int, q: int, m: int, r: int)
    requires r > 0 && 0 <= m < r && a == q * r + m
    ensures a % r == m
  {
    ModUnique(q, m, r);
  }

  lemma ModShift(a: int, q: int, r: int)
    requires r > 0
    ensures (a + q * r) % r == a % r
  {
    var p := Quotient(a, r);
    MulAdd(p, q, r);
    ModIs(a + q * r, p + q, a % r, r);
  }

  lemma ModAdd(a: int, b: int, r: int)
    requires r > 0
    ensures (a + b) % r == (a % r + b % r) % r
  {
    var p := Quotient(a, r);
    var q := Quotient(b, r);
    MulAdd(p, q, r);
    ModShift(a % r + b % r, p + q, r);
  }

  lemma MulRegroup(q: int, r: int, m: int, b: int)
    ensures (q * r + m) * b == m * b + (q * b) * r
  {
    MulAdd(q * r, m, b);
    MulAssoc(q, r, b);
    MulAssoc(r, b, 1);
    MulAssoc(q, b, r);
  }

  lemma ModMulLeft(a: int, b: int, r: int)
    requires r > 0
    ensures (a % r) * b % r == a * b % r
  {
    var q := Quotient(a, r);
    var m := a % r;
    MulRegroup(q, r, m, b);
    ModShift(m * b, q * b, r);
  }

  lemma ModMul(a: int, b: int, r: int)
    requires r > 0
    ensures (a % r) * (b % r) % r == a * b % r
  {
    ModMulLeft(a, b % r, r);
    ModMulLeft(b, a, r);
    MulAssoc(a, b % r, 1);
    MulAssoc(a, b, 1);
  }

  lemma SmallMod(e: int, r: int)
    requires r > 0 && -r < e < r
    ensures e % r == 0 <==> e == 0
  {
    if e < 0 {
      ModIs(e, -1, e + r, r);
    } else {
      ModIs(e, 0, e, r);
    }
  }

  /** Equal residues are exactly a difference that the modulus divides. */
  lemma ModEqual(a: int, b: int, r: int)
    requires r > 0
    ensures a % r == b % r <==> (a - b) % r == 0
  {
    var p := Quotient(a, r);
    var q := Quotient(b, r);
    MulAdd(p, q, r);
    var e := a % r - b % r;
    ModShift(e, p - q, r);
    SmallMod(e, r);
  }

  // ----- Extended Euclid -----

  datatype Bezout = Bezout(g: int, x: int, y: int)

  lemma BezoutStep(a: int, b: int, q: int, m: int, x: int, y: int)
    requires a == q * b + m
    ensures a * y + b * (x - q * y) == b * x + m * y
  {
    MulAdd(q * b, m, y);
    MulAdd(x, -(q * y), b);
    assert b * (x - q * y) == b * x - b * (q * y);
    MulAssoc(q, b, y);
    MulAssoc(b, q, y);
  }

  /** The extended Euclidean algorithm: a common divisor written as a combination. */
  function Egcd(a: nat, b: nat): (e: Bezout)
    ensures a * e.x + b * e.y == e.g
    ensures e.g >= 0 && (a + b > 0 ==> e.g > 0)
    decreases b
  {
    if b == 0 then Bezout(a, 1, 0)
    else
      var e := Egcd(b, a % b);
      BezoutStep(a, b, a / b, a % b, e.x, e.y);
      Bezout(e.g, e.y, e.x - (a / b) * e.y)
  }

  lemma DividesCombination(q: int, b: int, m: int, g: int)
    requires g > 0 && b % g == 0 && m % g == 0
    ensures (q * b + m) % g == 0
  {
    var x := Quotient(b, g);
    var y := Quotient(m, g);
    MulAssoc(q, x, g);
    MulAdd(q * x, y, g);
    ModIs(q * b + m, q * x + y, 0, g);
  }

  lemma SelfMod(a: int)
    requires a > 0
    ensures a % a == 0 && 0 % a == 0
  {
    ModUnique(1, 0, a);
    ModUnique(0, 0, a);
  }

  lemma {:induction false} EgcdDivides(a: nat, b: nat)
    requires a + b > 0
    ensures a % Egcd(a, b).g == 0 && b % Egcd(a, b).g == 0
    decreases b
  {
    if b == 0 {
      SelfMod(a);
    } else {
      EgcdDivides(b, a % b);
      var q := Quotient(a, b);
      DividesCombination(q, b, a % b, Egcd(b, a % b).g);
    }
  }

  /** The scalar inverse; the zero scalar is mapped to zero. */
  function Inverse(a: nat, r: int): (v: nat)
    requires r > 1
    ensures v < r
  {
    if a % r == 0 then 0 else Egcd(a % r, r).x % r
  }

  /** A non-zero residue is coprime to a prime modulus. */
  lemma PrimeCoprime(m: nat, r: int)
    requires Prime(r) && 0 < m < r
    ensures Egcd(m, r).g == 1
  {
    var g := Egcd(m, r).g;
    EgcdDivides(m, r);
    assert Divides(g, r);
    if g > m {
      ModUnique(0, m, g);
    }
  }

  /** Every non-zero residue of a prime modulus has its inverse. */
  lemma InverseCorrect(a: nat, r: int)
    requires Prime(r) && a % r != 0
    ensures a * Inverse(a, r) % r == 1
    ensures Inverse(a, r) != 0
  {
    var m := a % r;
    var e := Egcd(m, r);
    PrimeCoprime(m, r);
    assert m * e.x + r * e.y == 1;
    MulAssoc(r, e.y, 1);
    ModShift(1, -e.y, r);
    ModUnique(0, 1, r);
    assert (-e.y) * r == -(e.y * r);
    ModMul(a, e.x, r);
    MulAssoc(a, e.x % r, 1);
    MulAssoc(m, e.x % r, 1);
    ModMulLeft(a, e.x % r, r);
    MulAssoc(m, e.x, 1);
    ModMulLeft(e.x, m, r);
  }

  /** Multiplying by `a` and then by a residue that undoes it is the identity. */
  lemma Undo(a: int, v: int, b: int, r: int)
    requires r > 1 && a * v % r == 1
    ensures (a * b) * v % r == b % r
    ensures (a * v) * b % r == b % r
  {
    ModMulLeft(a * v, b, r);
    MulAssoc(a, b, v);
    MulAssoc(b, v, a);
    MulAssoc(a, v, b);
    MulAssoc(v, b, a);
  }

  /** A residue that undoes multiplication by `a` is the inverse: there is only one. */
  lemma InverseUnique(a: nat, v: nat, r: int)
    requires Prime(r) && v < r && a * v % r == 1
    ensures a % r != 0 && v == Inverse(a, r)
  {
    ModMulLeft(a, v, r);
    ModUnique(0, 0, r);
    assert a % r != 0;
    InverseCorrect(a, r);
    var w := Inverse(a, r);
    Undo(a, w, v, r);
    ModMulLeft(a * v, w, r);
    ModUnique(0, v, r);
    ModUnique(0, w, r);
  }
}
