/**
 * The field capability that both the curve layer and the evaluation-domain
 * layer are written against: a prime field F_P with its ring operations,
 * partial inversion, partial square root, the ordering used to pick a
 * canonical square root, exponentiation, and the batch helpers
 * (`batch_inversion`, `batch_product_in_place`).
 *
 * Elements are the canonical representatives 0 <= x < P. The modulus is a
 * small prime standing in for the large moduli of real curves. The ring
 * laws below only use that arithmetic is taken modulo P; the solver also
 * uses the value 13 directly, most visibly in EveryNonzeroInvertible
 * (P is prime) and NegFixedIsZero (P is odd).
 */
module Field {
  import opened Wrappers

  /** The field modulus (prime). */
  const P: int := 13

  /** A field element, kept in canonical form. */
  type Elem = x: int | 0 <= x < P

  /** `F::multiplicative_generator()`: a generator of the multiplicative group (2 has order 12 mod 13). */
  const MULTIPLICATIVE_GENERATOR: Elem := 2

  function Add(a: Elem, b: Elem): Elem { (a + b) % P }

  function Sub(a: Elem, b: Elem): Elem { (a - b) % P }

  function Neg(a: Elem): Elem { (P - a) % P }

  function Mul(a: Elem, b: Elem): Elem { (a * b) % P }

  function Square(a: Elem): Elem { Mul(a, a) }

  function Double(a: Elem): Elem { Add(a, a) }

  function Cube(a: Elem): Elem { Mul(Square(a), a) }

  /** `F::from(n as u64)`: the image of a natural number in the field. */
  function FromNat(n: nat): (r: Elem)
    ensures Cong(n, r)
  {
    n % P
  }

  /** `a.pow(n)`; the value does not depend on how the exponentiation is scheduled. */
  function Pow(a: Elem, n: nat): Elem
  {
    if n == 0 then 1 else Mul(Pow(a, n - 1), a)
  }

  // ---------------------------------------------------------------------
  // Partial inversion and partial square root
  // ---------------------------------------------------------------------

  /** Searches [from, P) for an element b with a * b == 1. */
  function InverseFrom(a: Elem, from: nat): (r: Option<Elem>)
    decreases P - from
    ensures r.Some? ==> Mul(a, r.value) == 1
    ensures r.None? ==> forall b: Elem :: from <= b ==> Mul(a, b) != 1
  {
    if from >= P then None
    else if Mul(a, from) == 1 then Some(from)
    else InverseFrom(a, from + 1)
  }

  /** `a.inverse()`: None exactly when a has no multiplicative inverse. */
  function Inverse(a: Elem): (r: Option<Elem>)
    ensures r.Some? <==> exists b: Elem :: Mul(a, b) == 1
    ensures r.Some? ==> Mul(a, r.value) == 1
  {
    InverseFrom(a, 0)
  }

  /** Every nonzero element of F_P has an inverse (P is prime). */
  lemma EveryNonzeroInvertible(a: Elem)
    requires a != 0
    ensures Inverse(a).Some?
  {
    var b: Elem :=
      if a == 1 then 1 else if a == 2 then 7 else if a == 3 then 9
      else if a == 4 then 10 else if a == 5 then 8 else if a == 6 then 11
      else if a == 7 then 2 else if a == 8 then 5 else if a == 9 then 3
      else if a == 10 then 4 else if a == 11 then 6 else 12;
    assert Mul(a, b) == 1;
  }

  /** `a.inverse().unwrap()` for an element known to be nonzero. */
  function Inv(a: Elem): (r: Elem)
    requires a != 0
    ensures Mul(a, r) == 1 && r != 0
  {
    EveryNonzeroInvertible(a);
    Inverse(a).value
  }

  /** An element has at most one inverse. */
  lemma InverseUnique(a: Elem, b: Elem, c: Elem)
    requires Mul(a, b) == 1 && Mul(a, c) == 1
    ensures b == c
  {
    assert Mul(Mul(a, c), b) == b;
    MulAssoc(a, c, b);
    assert Mul(c, b) == Mul(b, c);
    MulAssoc(a, b, c);
    assert Mul(Mul(a, b), c) == c;
  }

  /** Searches [from, P) for a square root of a. */
  function SqrtFrom(a: Elem, from: nat): (r: Option<Elem>)
    decreases P - from
    ensures r.Some? ==> Square(r.value) == a
    ensures r.None? ==> forall b: Elem :: from <= b ==> Square(b) != a
  {
    if from >= P then None
    else if Square(from) == a then Some(from)
    else SqrtFrom(a, from + 1)
  }

  /**
   * `a.sqrt()`: None exactly when a is a quadratic non-residue. Which of the
   * two roots is returned is left to the field; callers canonicalise it.
   */
  function Sqrt(a: Elem): (r: Option<Elem>)
    ensures r.Some? <==> exists b: Elem :: Square(b) == a
    ensures r.Some? ==> Square(r.value) == a
  {
    SqrtFrom(a, 0)
  }

  // ---------------------------------------------------------------------
  // Congruence: the bridge from integer polynomial identities to F_P
  // ---------------------------------------------------------------------

  /** The integer x reduces to the field element e. */
  ghost predicate Cong(x: int, e: Elem)
  {
    x % P == e
  }

  lemma ModAddMultiple(k: int, n: int)
    ensures (k * P + n) % P == n % P
  {
  }

  lemma ModMul(a: int, b: int)
    ensures ((a % P) * (b % P)) % P == (a * b) % P
  {
    var qa, ra := a / P, a % P;
    var qb, rb := b / P, b % P;
    var k := qa * qb * P + qa * rb + ra * qb;
    assert a * b == k * P + ra * rb by {
      assert a == qa * P + ra;
      assert b == qb * P + rb;
    }
    ModAddMultiple(k, ra * rb);
  }

  lemma CongAdd(x: int, a: Elem, y: int, b: Elem)
    requires Cong(x, a) && Cong(y, b)
    ensures Cong(x + y, Add(a, b))
  {
  }

  lemma CongSub(x: int, a: Elem, y: int, b: Elem)
    requires Cong(x, a) && Cong(y, b)
    ensures Cong(x - y, Sub(a, b))
  {
  }

  lemma CongNeg(x: int, a: Elem)
    requires Cong(x, a)
    ensures Cong(-x, Neg(a))
  {
  }

  lemma CongMul(x: int, a: Elem, y: int, b: Elem)
    requires Cong(x, a) && Cong(y, b)
    ensures Cong(x * y, Mul(a, b))
  {
    ModMul(x, y);
  }

  /** Two elements that reduce from the same integer are equal. */
  lemma CongUnique(x: int, a: Elem, b: Elem)
    requires Cong(x, a) && Cong(x, b)
    ensures a == b
  {
  }

  // ---------------------------------------------------------------------
  // Ring laws
  // ---------------------------------------------------------------------

  lemma MulAssoc(a: Elem, b: Elem, c: Elem)
    ensures Mul(Mul(a, b), c) == Mul(a, Mul(b, c))
  {
    CongMul(a, a, b, b);
    CongMul(a * b, Mul(a, b), c, c);
    CongMul(b, b, c, c);
    CongMul(a, a, b * c, Mul(b, c));
    AssocIdentity(a, b, c);
    CongUnique(a * (b * c), Mul(Mul(a, b), c), Mul(a, Mul(b, c)));
  }

  lemma AssocIdentity(a: int, b: int, c: int)
    ensures (a * b) * c == a * (b * c)
  {
  }

  /** Regrouping of a product of four factors. */
  lemma MulShuffle(w: Elem, x: Elem, y: Elem, z: Elem)
    ensures Mul(Mul(w, x), Mul(y, z)) == Mul(Mul(w, y), Mul(x, z))
  {
    MulAssoc(w, x, Mul(y, z));
    MulAssoc(x, y, z);
    assert Mul(x, y) == Mul(y, x);
    MulAssoc(y, x, z);
    MulAssoc(w, y, Mul(x, z));
  }

  lemma MulSubDistrib(a: Elem, b: Elem, c: Elem)
    ensures Mul(a, Sub(b, c)) == Sub(Mul(a, b), Mul(a, c))
  {
    CongSub(b, b, c, c);
    CongMul(a, a, b - c, Sub(b, c));
    CongMul(a, a, b, b);
    CongMul(a, a, c, c);
    CongSub(a * b, Mul(a, b), a * c, Mul(a, c));
    DistribIdentity(a, b, c);
    CongUnique(a * (b - c), Mul(a, Sub(b, c)), Sub(Mul(a, b), Mul(a, c)));
  }

  /** (a + b)^2 - a^2 - b^2 == 2ab. */
  lemma SquareOfSum(a: Elem, b: Elem)
    ensures Sub(Sub(Square(Add(a, b)), Square(a)), Square(b)) == Mul(2, Mul(a, b))
  {
    CongAdd(a, a, b, b);
    CongMul(a + b, Add(a, b), a + b, Add(a, b));
    CongMul(a, a, a, a);
    CongMul(b, b, b, b);
    CongSub((a + b) * (a + b), Square(Add(a, b)), a * a, Square(a));
    CongSub((a + b) * (a + b) - a * a, Sub(Square(Add(a, b)), Square(a)), b * b, Square(b));
    CongMul(a, a, b, b);
    CongMul(2, 2, a * b, Mul(a, b));
    SquareOfSumIdentity(a, b);
    CongUnique(2 * (a * b), Sub(Sub(Square(Add(a, b)), Square(a)), Square(b)), Mul(2, Mul(a, b)));
  }

  /** (2h)^2 == 4h^2, with 4 written as two doublings. */
  lemma SquareOfDouble(h: Elem)
    ensures Square(Double(h)) == Double(Double(Square(h)))
  {
    CongAdd(h, h, h, h);
    CongMul(h + h, Double(h), h + h, Double(h));
    CongMul(h, h, h, h);
    CongAdd(h * h, Square(h), h * h, Square(h));
    CongAdd(h * h + h * h, Double(Square(h)), h * h + h * h, Double(Square(h)));
    SquareOfDoubleIdentity(h);
    CongUnique((h + h) * (h + h), Square(Double(h)), Double(Double(Square(h))));
  }

  /** (r - y)(r + y) == r^2 - y^2. */
  lemma DifferenceOfSquares(r: Elem, y: Elem)
    ensures Mul(Sub(r, y), Add(r, y)) == Sub(Square(r), Square(y))
  {
    CongSub(r, r, y, y);
    CongAdd(r, r, y, y);
    CongMul(r - y, Sub(r, y), r + y, Add(r, y));
    CongMul(r, r, r, r);
    CongMul(y, y, y, y);
    CongSub(r * r, Square(r), y * y, Square(y));
    DifferenceOfSquaresIdentity(r, y);
    CongUnique((r - y) * (r + y), Mul(Sub(r, y), Add(r, y)), Sub(Square(r), Square(y)));
  }

  lemma SquareNeg(a: Elem)
    ensures Square(Neg(a)) == Square(a)
  {
    var na: int := -(a as int);
    CongNeg(a, a);
    CongMul(na, Neg(a), na, Neg(a));
    CongMul(a, a, a, a);
    NegSquareIdentity(a);
    CongUnique(a * a, Square(Neg(a)), Square(a));
  }

  /** The units 0 and 1 and negation as an involution. */
  lemma UnitLaws(a: Elem)
    ensures Add(a, 0) == a && Sub(a, 0) == a && Sub(a, a) == 0
    ensures Mul(a, 0) == 0 && Mul(0, a) == 0 && Mul(a, 1) == a && Mul(1, a) == a
    ensures Neg(Neg(a)) == a && Neg(0) == 0
    ensures Square(1) == 1 && Cube(1) == 1 && Square(0) == 0
  {
  }

  /** No nonzero element is its own negation (the characteristic is odd). */
  lemma NegFixedIsZero(a: Elem)
    requires Neg(a) == a
    ensures a == 0
  {
  }

  /** Multiplication distributes over addition, on both sides. */
  lemma MulAddDistrib(a: Elem, b: Elem, c: Elem)
    ensures Mul(Add(a, b), c) == Add(Mul(a, c), Mul(b, c))
    ensures Mul(c, Add(a, b)) == Add(Mul(c, a), Mul(c, b))
  {
    CongAdd(a, a, b, b);
    CongMul(a + b, Add(a, b), c, c);
    CongMul(a, a, c, c);
    CongMul(b, b, c, c);
    CongAdd(a * c, Mul(a, c), b * c, Mul(b, c));
    RightDistribIdentity(a, b, c);
    CongUnique((a + b) * c, Mul(Add(a, b), c), Add(Mul(a, c), Mul(b, c)));
    assert Mul(c, Add(a, b)) == Mul(Add(a, b), c);
    assert Mul(c, a) == Mul(a, c) && Mul(c, b) == Mul(b, c);
  }

  /** Regrouping of a sum of four terms. */
  lemma AddShuffle(w: Elem, x: Elem, y: Elem, z: Elem)
    ensures Add(Add(w, x), Add(y, z)) == Add(Add(w, y), Add(x, z))
  {
    CongAdd(w, w, x, x);
    CongAdd(y, y, z, z);
    CongAdd(w + x, Add(w, x), y + z, Add(y, z));
    CongAdd(w, w, y, y);
    CongAdd(x, x, z, z);
    CongAdd(w + y, Add(w, y), x + z, Add(x, z));
    CongUnique(w + x + y + z, Add(Add(w, x), Add(y, z)), Add(Add(w, y), Add(x, z)));
  }

  /** (p0 + q0) + x (a + b) == (p0 + x a) + (q0 + x b). */
  lemma AddMulRearrange(p0: Elem, q0: Elem, x: Elem, a: Elem, b: Elem)
    ensures Add(Add(p0, q0), Mul(x, Add(a, b))) == Add(Add(p0, Mul(x, a)), Add(q0, Mul(x, b)))
  {
    MulAddDistrib(a, b, x);
    AddShuffle(p0, q0, Mul(x, a), Mul(x, b));
  }

  /** c p0 + x (c e) == c (p0 + x e). */
  lemma ScaleRearrange(c: Elem, p0: Elem, x: Elem, e: Elem)
    ensures Add(Mul(c, p0), Mul(x, Mul(c, e))) == Mul(c, Add(p0, Mul(x, e)))
  {
    MulAddDistrib(p0, Mul(x, e), c);
    MulAssoc(x, c, e);
    MulAssoc(c, x, e);
    assert Mul(x, c) == Mul(c, x);
  }

  /** p0 b + x (a b) == (p0 + x a) b. */
  lemma ProductRearrange(p0: Elem, x: Elem, a: Elem, b: Elem)
    ensures Add(Mul(p0, b), Mul(x, Mul(a, b))) == Mul(Add(p0, Mul(x, a)), b)
  {
    MulAddDistrib(p0, Mul(x, a), b);
    MulAssoc(x, a, b);
  }

  /** Repeated doubling and addition are multiplication by a small constant. */
  lemma SmallMultiples(a: Elem)
    ensures Double(a) == Mul(2, a)
    ensures Add(a, Double(a)) == Mul(3, a) && Add(Add(a, a), a) == Mul(3, a)
    ensures Double(Double(a)) == Mul(4, a)
    ensures Double(Double(Double(a))) == Mul(8, a)
  {
    var d := Double(a);
    CongAdd(a, a, a, a);
    CongMul(2, 2, a, a);
    CongUnique(2 * a, d, Mul(2, a));
    CongAdd(a, a, 2 * a, d);
    CongAdd(2 * a, Add(a, a), a, a);
    CongMul(3, 3, a, a);
    CongUnique(3 * a, Add(a, d), Mul(3, a));
    CongUnique(3 * a, Add(Add(a, a), a), Mul(3, a));
    var dd := Double(d);
    CongAdd(2 * a, d, 2 * a, d);
    CongMul(4, 4, a, a);
    CongUnique(4 * a, dd, Mul(4, a));
    CongAdd(4 * a, dd, 4 * a, dd);
    CongMul(8, 8, a, a);
    CongUnique(8 * a, Double(dd), Mul(8, a));
  }

  lemma SubTwice(f: Elem, d: Elem)
    ensures Sub(Sub(f, d), d) == Sub(f, Mul(2, d))
  {
    CongSub(f, f, d, d);
    CongSub(f - d, Sub(f, d), d, d);
    CongMul(2, 2, d, d);
    CongSub(f, f, 2 * d, Mul(2, d));
    CongUnique(f - 2 * d, Sub(Sub(f, d), d), Sub(f, Mul(2, d)));
  }

  lemma MulNegLeft(a: Elem, b: Elem)
    ensures Mul(Neg(a), b) == Neg(Mul(a, b))
  {
    var na: int := -(a as int);
    CongNeg(a, a);
    CongMul(na, Neg(a), b, b);
    CongMul(a, a, b, b);
    CongNeg(a * b, Mul(a, b));
    assert na * b == -(a * b);
  }

  lemma MulSquares(a: Elem, b: Elem)
    ensures Mul(Square(a), Square(b)) == Square(Mul(a, b))
  {
    MulShuffle(a, a, b, b);
  }

  lemma MulCubes(a: Elem, b: Elem)
    ensures Mul(Cube(a), Cube(b)) == Cube(Mul(a, b))
  {
    MulShuffle(Square(a), a, Square(b), b);
    MulSquares(a, b);
  }

  lemma RightDistribIdentity(a: int, b: int, c: int)
    ensures (a + b) * c == a * c + b * c
  {
  }

  lemma DistribIdentity(a: int, b: int, c: int)
    ensures a * (b - c) == a * b - a * c
  {
  }

  lemma SquareOfSumIdentity(a: int, b: int)
    ensures (a + b) * (a + b) - a * a - b * b == 2 * (a * b)
  {
  }

  lemma SquareOfDoubleIdentity(h: int)
    ensures (h + h) * (h + h) == (h * h + h * h) + (h * h + h * h)
  {
  }

  lemma DifferenceOfSquaresIdentity(r: int, y: int)
    ensures (r - y) * (r + y) == r * r - y * y
  {
  }

  lemma NegSquareIdentity(a: int)
    ensures (-a) * (-a) == a * a
  {
  }


  // ---------------------------------------------------------------------
  // Field laws
  // ---------------------------------------------------------------------

  /** F_P has no zero divisors. */
  lemma NoZeroDivisors(a: Elem, b: Elem)
    requires Mul(a, b) == 0
    ensures a == 0 || b == 0
  {
    if a != 0 {
      var ai := Inv(a);
      assert Mul(ai, a) == Mul(a, ai);
      UnitLaws(b);
      UnitLaws(ai);
      MulAssoc(ai, a, b);
    }
  }

  /** The only square roots of y^2 are y and -y. */
  lemma SquareRoots(r: Elem, y: Elem)
    requires Square(r) == Square(y)
    ensures r == y || r == Neg(y)
  {
    DifferenceOfSquares(r, y);
    NoZeroDivisors(Sub(r, y), Add(r, y));
  }

  /** Multiplying by a nonzero element is injective. */
  lemma MulCancel(a: Elem, b: Elem, u: Elem)
    requires u != 0 && Mul(a, u) == Mul(b, u)
    ensures a == b
  {
    MulSubDistrib(u, a, b);
    assert Mul(u, Sub(a, b)) == 0;
    NoZeroDivisors(u, Sub(a, b));
  }

  /** Scaling by s and then by the inverse w of s, along with t, scales by t. */
  lemma ScaleOut(a: Elem, s: Elem, t: Elem, w: Elem)
    requires Mul(s, w) == 1
    ensures Mul(Mul(a, s), Mul(t, w)) == Mul(a, t)
  {
    MulShuffle(a, s, t, w);
    UnitLaws(Mul(a, t));
  }

  /**
   * Cross-multiplied equality is invariant under replacing the scale
   * factors s1, s2 by their inverses t1, t2:
   * a1 * s2 == a2 * s1  iff  a1 * t1 == a2 * t2.
   */
  lemma CrossMultiplyIff(a1: Elem, s1: Elem, t1: Elem, a2: Elem, s2: Elem, t2: Elem)
    requires Mul(s1, t1) == 1 && Mul(s2, t2) == 1
    ensures Mul(a1, s2) == Mul(a2, s1) <==> Mul(a1, t1) == Mul(a2, t2)
  {
    ScaleOut(a1, s2, t1, t2);
    ScaleOut(a2, s1, t2, t1);
    assert Mul(t2, t1) == Mul(t1, t2);
    assert Mul(t1, s1) == 1 && Mul(t2, s2) == 1;
    ScaleOut(a1, t1, s2, s1);
    ScaleOut(a2, t2, s1, s2);
    assert Mul(s2, s1) == Mul(s1, s2);
  }

  // ---------------------------------------------------------------------
  // Exponentiation
  // ---------------------------------------------------------------------

  lemma {:induction false} PowAdd(a: Elem, m: nat, n: nat)
    ensures Pow(a, m + n) == Mul(Pow(a, m), Pow(a, n))
  {
    if n > 0 {
      PowAdd(a, m, n - 1);
      MulAssoc(Pow(a, m), Pow(a, n - 1), a);
    }
  }

  lemma {:induction false} PowMulBase(a: Elem, b: Elem, n: nat)
    ensures Pow(Mul(a, b), n) == Mul(Pow(a, n), Pow(b, n))
  {
    if n > 0 {
      PowMulBase(a, b, n - 1);
      MulShuffle(Pow(a, n - 1), Pow(b, n - 1), a, b);
    }
  }

  lemma {:induction false} PowOne(n: nat)
    ensures Pow(1, n) == 1
  {
    if n > 0 {
      PowOne(n - 1);
    }
  }

  lemma {:induction false} PowPow(a: Elem, m: nat, n: nat)
    ensures Pow(Pow(a, m), n) == Pow(a, m * n)
  {
    if n > 0 {
      PowPow(a, m, n - 1);
      PowAdd(a, m * (n - 1), m);
      assert m * (n - 1) + m == m * n;
    }
  }

  /** A power of an invertible element times the same power of its inverse is one. */
  lemma PowInverse(g: Elem, gi: Elem, n: nat)
    requires Mul(g, gi) == 1
    ensures Mul(Pow(g, n), Pow(gi, n)) == 1
  {
    PowMulBase(g, gi, n);
    PowOne(n);
  }

  // ---------------------------------------------------------------------
  // Batch helpers
  // ---------------------------------------------------------------------

  /**
   * `batch_inversion`: every nonzero entry is replaced by its inverse and
   * zero entries are left as they are.
   */
  function BatchInversion(v: seq<Elem>): (r: seq<Elem>)
    ensures |r| == |v|
    ensures forall i :: 0 <= i < |v| && v[i] == 0 ==> r[i] == 0
    ensures forall i :: 0 <= i < |v| && v[i] != 0 ==> Mul(v[i], r[i]) == 1
  {
    seq(|v|, i requires 0 <= i < |v| => if v[i] == 0 then 0 else Inv(v[i]))
  }

  /** `batch_product_in_place`: v[i] := v[i] * other[i]. */
  method BatchProductInPlace(v: array<Elem>, other: seq<Elem>)
    requires v.Length == |other|
    modifies v
    ensures forall i :: 0 <= i < v.Length ==> v[i] == Mul(old(v[i]), other[i])
  {
    for i := 0 to v.Length
      invariant forall k :: 0 <= k < i ==> v[k] == Mul(old(v[k]), other[k])
      invariant forall k :: i <= k < v.Length ==> v[k] == old(v[k])
    {
      v[i] := Mul(v[i], other[i]);
    }
  }
}
