/**
 * Points of a short-Weierstrass curve y^2 = x^3 + a*x + b over the base
 * field, in affine coordinates (x, y, infinity flag) and in Jacobian
 * coordinates (X, Y, Z) standing for the affine point (X/Z^2, Y/Z^3), with
 * the identity represented by any Z = 0.
 */
module ShortWeierstrassJacobian {
  import opened Wrappers
  import opened Field

  // ---------------------------------------------------------------------
  // Curve parameters and points
  // ---------------------------------------------------------------------

  /**
   * The curve parameters: the coefficients a and b, the characteristic of
   * the scalar field (the order of the prime-order subgroup) and the
   * cofactor.
   */
  datatype Parameters = Parameters(coeffA: Elem, coeffB: Elem, scalarModulus: nat, cofactor: nat)

  function MulByA(c: Parameters, e: Elem): Elem { Mul(e, c.coeffA) }

  function AddB(c: Parameters, e: Elem): Elem { Add(e, c.coeffB) }

  /** x^3 + a*x + b, the right-hand side of the curve equation. */
  function CurveRhs(c: Parameters, x: Elem): Elem
  {
    AddB(c, Add(Mul(Square(x), x), MulByA(c, x)))
  }

  /** An affine point; `infinity` marks the identity. */
  datatype Affine = Affine(x: Elem, y: Elem, infinity: bool)

  /** A point in Jacobian coordinates. */
  datatype Projective = Projective(x: Elem, y: Elem, z: Elem)

  function AffineZero(): Affine { Affine(0, 1, true) }

  function Zero(): Projective { Projective(1, 1, 0) }

  /** Every Z = 0 triple is the identity, not only Zero(). */
  predicate IsZero(p: Projective) { p.z == 0 }

  predicate IsNormalized(p: Projective) { IsZero(p) || p.z == 1 }

  /** The identity is on the curve; a finite point satisfies the equation. */
  predicate IsOnCurve(c: Parameters, p: Affine)
  {
    if p.infinity then true else Square(p.y) == CurveRhs(c, p.x)
  }

  /**
   * The point with the given x-coordinate, if x^3 + a*x + b is a square.
   * `greatest` selects the larger of the two square roots y and -y.
   */
  function GetPointFromX(c: Parameters, x: Elem, greatest: bool): (r: Option<Affine>)
    ensures r.None? <==> forall y: Elem :: Square(y) != CurveRhs(c, x)
    ensures r.Some? ==> !r.value.infinity && r.value.x == x && IsOnCurve(c, r.value)
    ensures r.Some? && greatest ==>
              forall y: Elem :: Square(y) == CurveRhs(c, x) ==> y <= r.value.y
    ensures r.Some? && !greatest ==>
              forall y: Elem :: Square(y) == CurveRhs(c, x) ==> r.value.y <= y
  {
    match Sqrt(CurveRhs(c, x))
    case None => None
    case Some(y) =>
      var negy := Neg(y);
      var chosen := if (y < negy) != greatest then y else negy;
      assert forall w: Elem :: Square(w) == CurveRhs(c, x) ==> w == y || w == negy by {
        forall w: Elem | Square(w) == CurveRhs(c, x)
          ensures w == y || w == negy
        {
          SquareRoots(w, y);
        }
      }
      SquareNeg(y);
      Some(Affine(x, chosen, false))
  }

  /** The affine negation (x, -y); the identity is its own negation. */
  function AffineNegated(p: Affine): (r: Affine)
    ensures r.infinity == p.infinity
    ensures !p.infinity ==> r.x == p.x && Add(r.y, p.y) == 0
  {
    if !p.infinity then Affine(p.x, Neg(p.y), false) else p
  }

  /** The Jacobian negation (X, -Y, Z); every Z = 0 triple is left as it is. */
  function Negated(p: Projective): (r: Projective)
    ensures IsZero(r) <==> IsZero(p)
    ensures !IsZero(p) ==> r.x == p.x && r.z == p.z && Add(r.y, p.y) == 0
    ensures IsZero(p) ==> r == p
  {
    if !IsZero(p) then Projective(p.x, Neg(p.y), p.z) else p
  }

  /** An affine point as the Jacobian triple (x, y, 1). */
  function FromAffine(p: Affine): (r: Projective)
    ensures IsNormalized(r)
    ensures IsZero(r) <==> p.infinity
    ensures !p.infinity ==> r.x == p.x && r.y == p.y
  {
    if p.infinity then Zero() else Projective(p.x, p.y, 1)
  }

  /** A Jacobian triple as the affine point (X/Z^2, Y/Z^3). */
  function ToAffine(p: Projective): (r: Affine)
    ensures r.infinity <==> IsZero(p)
    ensures IsZero(p) ==> r == AffineZero()
    ensures !IsZero(p) ==> Mul(r.x, Square(p.z)) == p.x && Mul(r.y, Cube(p.z)) == p.y
  {
    if IsZero(p) then AffineZero()
    else if p.z == 1 then
      UnitLaws(p.x);
      UnitLaws(p.y);
      Affine(p.x, p.y, false)
    else
      var zinv := Inv(p.z);
      var zinvSquared := Square(zinv);
      ScaledBack(p.x, p.z, zinv);
      ScaledBack(p.y, p.z, zinv);
      Affine(Mul(p.x, zinvSquared), Mul(p.y, Mul(zinvSquared, zinv)), false)
  }

  /** Dividing by z^2 (z^3) and multiplying back by z^2 (z^3) is the identity. */
  lemma ScaledBack(a: Elem, z: Elem, zinv: Elem)
    requires Mul(z, zinv) == 1
    ensures Mul(Mul(a, Square(zinv)), Square(z)) == a
    ensures Mul(Mul(a, Cube(zinv)), Cube(z)) == a
  {
    UnitLaws(a);
    UnitLaws(0);
    assert Mul(zinv, z) == 1;
    MulSquares(zinv, z);
    MulAssoc(a, Square(zinv), Square(z));
    MulCubes(zinv, z);
    MulAssoc(a, Cube(zinv), Cube(z));
  }

  /** Equality of Jacobian triples: X1 Z2^2 == X2 Z1^2 and Y1 Z2^3 == Y2 Z1^3. */
  predicate Eq(p: Projective, q: Projective)
  {
    if IsZero(p) then IsZero(q)
    else if IsZero(q) then false
    else
      var z1z1 := Square(p.z);
      var z2z2 := Square(q.z);
      if Mul(p.x, z2z2) != Mul(q.x, z1z1) then false
      else Mul(p.y, Mul(z2z2, q.z)) == Mul(q.y, Mul(z1z1, p.z))
  }

  // ---------------------------------------------------------------------
  // The group law on Jacobian triples
  // ---------------------------------------------------------------------

  /** Doubling: the identity stays put; a = 0 takes the cheaper formula. */
  function Doubled(c: Parameters, p: Projective): Projective
  {
    if IsZero(p) then p
    else if c.coeffA == 0 then DoubledA0(p)
    else DoubledGeneral(c, p)
  }

  /** Doubling for a = 0 (dbl-2009-l): A, B, C, D, E, F as in the formula sheet. */
  function DoubledA0(p: Projective): Projective
  {
    var A := Square(p.x);
    var B := Square(p.y);
    var C := Square(B);
    var D := Mul(2, Sub(Sub(Square(Add(p.x, B)), A), C));
    var E := Mul(3, A);
    var F := Square(E);
    var X3 := Sub(F, Mul(2, D));
    Projective(X3, Sub(Mul(E, Sub(D, X3)), Mul(8, C)), Mul(2, Mul(p.y, p.z)))
  }

  /** Doubling for any a (dbl-2007-bl with the a*ZZ^2 term). */
  function DoubledGeneral(c: Parameters, p: Projective): Projective
  {
    var XX := Square(p.x);
    var YY := Square(p.y);
    var YYYY := Square(YY);
    var ZZ := Square(p.z);
    var S := Mul(2, Sub(Sub(Square(Add(p.x, YY)), XX), YYYY));
    var M := Add(Mul(3, XX), MulByA(c, Square(ZZ)));
    var T := Sub(Square(M), Mul(2, S));
    Projective(T, Sub(Mul(M, Sub(S, T)), Mul(8, YYYY)), Sub(Sub(Square(Add(p.y, p.z)), YY), ZZ))
  }

  /** Mixed addition of an affine point (madd-2007-bl), doubling when the points coincide. */
  function MixedSum(c: Parameters, p: Projective, q: Affine): Projective
  {
    if q.infinity then p
    else if IsZero(p) then Projective(q.x, q.y, 1)
    else
      var Z1Z1 := Square(p.z);
      var U2 := Mul(q.x, Z1Z1);
      var S2 := Mul(Mul(q.y, p.z), Z1Z1);
      if p.x == U2 && p.y == S2 then Doubled(c, p)
      else
        var H := Sub(U2, p.x);
        var HH := Square(H);
        var I := Mul(4, HH);
        var J := Mul(H, I);
        var r := Mul(2, Sub(S2, p.y));
        var V := Mul(p.x, I);
        var X3 := Sub(Sub(Square(r), J), Mul(2, V));
        var Y3 := Sub(Mul(r, Sub(V, X3)), Mul(2, Mul(p.y, J)));
        Projective(X3, Y3, Sub(Sub(Square(Add(p.z, H)), Z1Z1), HH))
  }

  /** The coincidence test of the full addition: U1 == U2 and S1 == S2. */
  predicate Coincide(p: Projective, q: Projective)
  {
    var Z1Z1 := Square(p.z);
    var Z2Z2 := Square(q.z);
    Mul(p.x, Z2Z2) == Mul(q.x, Z1Z1)
    && Mul(Mul(p.y, q.z), Z2Z2) == Mul(Mul(q.y, p.z), Z1Z1)
  }

  /** Full addition (add-2007-bl), doubling when the points coincide. */
  function Sum(c: Parameters, p: Projective, q: Projective): Projective
  {
    if IsZero(p) then q
    else if IsZero(q) then p
    else if Coincide(p, q) then Doubled(c, p)
    else
      var Z1Z1 := Square(p.z);
      var Z2Z2 := Square(q.z);
      var U1 := Mul(p.x, Z2Z2);
      var U2 := Mul(q.x, Z1Z1);
      var S1 := Mul(Mul(p.y, q.z), Z2Z2);
      var S2 := Mul(Mul(q.y, p.z), Z1Z1);
      var H := Sub(U2, U1);
      var I := Square(Mul(2, H));
      var J := Mul(H, I);
      var r := Mul(2, Sub(S2, S1));
      var V := Mul(U1, I);
      var X3 := Sub(Sub(Square(r), J), Mul(2, V));
      var Y3 := Sub(Mul(r, Sub(V, X3)), Mul(2, Mul(S1, J)));
      Projective(X3, Y3, Mul(Sub(Sub(Square(Add(p.z, q.z)), Z1Z1), Z2Z2), H))
  }

  /** Affine addition goes through a Jacobian accumulator and back. */
  function AffineSum(c: Parameters, p: Affine, q: Affine): Affine
  {
    ToAffine(MixedSum(c, FromAffine(p), q))
  }

  // ---------------------------------------------------------------------
  // A mutable Jacobian point and its in-place formulas
  // ---------------------------------------------------------------------

  class ProjectivePoint {
    var x: Elem
    var y: Elem
    var z: Elem

    function Value(): Projective
      reads this
    {
      Projective(x, y, z)
    }

    constructor (p: Projective)
      ensures Value() == p
    {
      x, y, z := p.x, p.y, p.z;
    }

    method DoubleInPlace(c: Parameters)
      modifies this
      ensures Value() == Doubled(c, old(Value()))
    {
      if z == 0 {
        return;
      }
      if c.coeffA == 0 {
        var a := Square(x);
        var b := Square(y);
        var cc := Square(b);
        var d := Double(Sub(Sub(Square(Add(x, b)), a), cc));
        var e := Add(a, Double(a));
        var f := Square(e);
        SmallMultiples(Sub(Sub(Square(Add(x, b)), a), cc));
        SmallMultiples(a);
        SmallMultiples(Mul(z, y));
        SmallMultiples(cc);
        SubTwice(f, d);
        z := Mul(z, y);
        z := Double(z);
        x := Sub(Sub(f, d), d);
        y := Sub(Mul(Sub(d, x), e), Double(Double(Double(cc))));
      } else {
        var xx := Square(x);
        var yy := Square(y);
        var yyyy := Square(yy);
        var zz := Square(z);
        var s := Double(Sub(Sub(Square(Add(x, yy)), xx), yyyy));
        var m := Add(Add(Add(xx, xx), xx), MulByA(c, Square(zz)));
        var t := Sub(Square(m), Double(s));
        SmallMultiples(Sub(Sub(Square(Add(x, yy)), xx), yyyy));
        SmallMultiples(xx);
        SmallMultiples(s);
        SmallMultiples(yyyy);
        x := t;
        var oldY := y;
        y := Sub(Mul(m, Sub(s, t)), Double(Double(Double(yyyy))));
        z := Sub(Sub(Square(Add(oldY, z)), yy), zz);
      }
    }

    method AddAssignMixed(c: Parameters, other: Affine)
      modifies this
      ensures Value() == MixedSum(c, old(Value()), other)
    {
      if other.infinity {
        return;
      }
      if z == 0 {
        x, y, z := other.x, other.y, 1;
        return;
      }
      var z1z1 := Square(z);
      var u2 := Mul(other.x, z1z1);
      var s2 := Mul(Mul(other.y, z), z1z1);
      if x == u2 && y == s2 {
        DoubleInPlace(c);
      } else {
        var h := Sub(u2, x);
        var hh := Square(h);
        var i := Double(Double(hh));
        var j := Mul(h, i);
        var r := Double(Sub(s2, y));
        var v := Mul(x, i);
        SmallMultiples(hh);
        SmallMultiples(Sub(s2, y));
        SmallMultiples(Mul(j, y));
        SubTwice(Sub(Square(r), j), v);
        x := Square(r);
        x := Sub(x, j);
        x := Sub(x, v);
        x := Sub(x, v);
        j := Mul(j, y);
        j := Double(j);
        y := Sub(v, x);
        y := Mul(y, r);
        y := Sub(y, j);
        z := Add(z, h);
        z := Square(z);
        z := Sub(z, z1z1);
        z := Sub(z, hh);
      }
    }

    method AddAssign(c: Parameters, other: Projective)
      modifies this
      ensures Value() == Sum(c, old(Value()), other)
    {
      if z == 0 {
        x, y, z := other.x, other.y, other.z;
        return;
      }
      if other.z == 0 {
        return;
      }
      var z1z1 := Square(z);
      var z2z2 := Square(other.z);
      var u1 := Mul(x, z2z2);
      var u2 := Mul(other.x, z1z1);
      var s1 := Mul(Mul(y, other.z), z2z2);
      var s2 := Mul(Mul(other.y, z), z1z1);
      if u1 == u2 && s1 == s2 {
        DoubleInPlace(c);
      } else {
        var h := Sub(u2, u1);
        var i := Square(Double(h));
        var j := Mul(h, i);
        var r := Double(Sub(s2, s1));
        var v := Mul(u1, i);
        SmallMultiples(h);
        SmallMultiples(Sub(s2, s1));
        SmallMultiples(v);
        SmallMultiples(Mul(s1, j));
        x := Sub(Sub(Square(r), j), Double(v));
        y := Sub(Mul(r, Sub(v, x)), Double(Mul(s1, j)));
        z := Mul(Sub(Sub(Square(Add(z, other.z)), z1z1), z2z2), h);
      }
    }

    method SubAssign(c: Parameters, other: Projective)
      modifies this
      ensures Value() == Sum(c, old(Value()), Negated(other))
    {
      AddAssign(c, Negated(other));
    }
  }

  /** Affine `+=`: lift to Jacobian, add mixed, convert back. */
  method AffineAddAssign(c: Parameters, p: Affine, other: Affine) returns (r: Affine)
    ensures r == AffineSum(c, p, other)
  {
    var acc := new ProjectivePoint(FromAffine(p));
    acc.AddAssignMixed(c, other);
    r := ToAffine(acc.Value());
  }

  /** Affine `-=`: add the negation. */
  method AffineSubAssign(c: Parameters, p: Affine, other: Affine) returns (r: Affine)
    ensures r == AffineSum(c, p, AffineNegated(other))
  {
    r := AffineAddAssign(c, p, AffineNegated(other));
  }

  // ---------------------------------------------------------------------
  // Scalar multiplication by big-endian bits
  // ---------------------------------------------------------------------

  /** Double-and-add over every bit, most significant first. */
  function ScalarMulBits(c: Parameters, p: Affine, bits: seq<bool>): Projective
    decreases |bits|
  {
    if bits == [] then Zero()
    else
      var acc := Doubled(c, ScalarMulBits(c, p, bits[..|bits| - 1]));
      if bits[|bits| - 1] then MixedSum(c, acc, p) else acc
  }

  /** The big-endian bits of n, without leading zeros. */
  function ToBitsBE(n: nat): seq<bool>
    decreases n
  {
    if n == 0 then [] else ToBitsBE(n / 2) + [n % 2 == 1]
  }

  /** The number a big-endian bit string denotes. */
  function ValueBE(bits: seq<bool>): nat
    decreases |bits|
  {
    if bits == [] then 0
    else 2 * ValueBE(bits[..|bits| - 1]) + (if bits[|bits| - 1] then 1 else 0)
  }

  predicate AllZero(bits: seq<bool>)
  {
    forall k :: 0 <= k < |bits| ==> !bits[k]
  }

  /** Multiplies by the scalar the bits denote, skipping leading zeros first. */
  method MulBits(c: Parameters, p: Affine, bits: seq<bool>) returns (r: Projective)
    ensures r == ScalarMulBits(c, p, bits)
  {
    var res := new ProjectivePoint(Zero());
    var start := 0;
    while start < |bits| && !bits[start]
      invariant 0 <= start <= |bits|
      invariant AllZero(bits[..start])
    {
      start := start + 1;
    }
    var rest := bits[start..];
    assert bits == bits[..start] + rest;
    LeadingZerosIgnored(c, p, bits[..start], rest);
    var i := 0;
    while i < |rest|
      invariant 0 <= i <= |rest|
      invariant res.Value() == ScalarMulBits(c, p, rest[..i])
    {
      res.DoubleInPlace(c);
      if rest[i] {
        res.AddAssignMixed(c, p);
      }
      assert rest[..i + 1][..i] == rest[..i];
      i := i + 1;
    }
    assert rest[..i] == rest;
    r := res.Value();
  }

  /** Multiplication by a scalar given as a number. */
  method MulScalar(c: Parameters, p: Affine, n: nat) returns (r: Projective)
    ensures r == ScalarMulBits(c, p, ToBitsBE(n))
  {
    r := MulBits(c, p, ToBitsBE(n));
  }

  method ScaleByCofactor(c: Parameters, p: Affine) returns (r: Projective)
    ensures r == ScalarMulBits(c, p, ToBitsBE(c.cofactor))
  {
    r := MulBits(c, p, ToBitsBE(c.cofactor));
  }

  /** Membership of the prime-order subgroup, for a point already on the curve. */
  predicate InCorrectSubgroup(c: Parameters, p: Affine)
  {
    IsZero(ScalarMulBits(c, p, ToBitsBE(c.scalarModulus)))
  }

  method IsInCorrectSubgroupAssumingOnCurve(c: Parameters, p: Affine) returns (b: bool)
    ensures b <==> InCorrectSubgroup(c, p)
  {
    var q := MulBits(c, p, ToBitsBE(c.scalarModulus));
    b := q.z == 0;
  }

  // ---------------------------------------------------------------------
  // Normalization
  // ---------------------------------------------------------------------

  /** Rewrites every non-normalized point as (X/Z^2, Y/Z^3, 1) with one batch inversion. */
  method BatchNormalization(v: array<Projective>)
    modifies v
    ensures forall i :: 0 <= i < v.Length ==>
              v[i] == if IsNormalized(old(v[i])) then old(v[i]) else FromAffine(ToAffine(old(v[i])))
    ensures forall i :: 0 <= i < v.Length ==> IsNormalized(v[i]) && Eq(v[i], old(v[i]))
  {
    var zs := BatchInversion(seq(v.Length, i reads v requires 0 <= i < v.Length => v[i].z));
    ghost var before := v[..];
    for i := 0 to v.Length
      invariant forall k :: 0 <= k < i ==>
                  v[k] == if IsNormalized(before[k]) then before[k] else FromAffine(ToAffine(before[k]))
      invariant forall k :: i <= k < v.Length ==> v[k] == before[k]
    {
      var g := v[i];
      if !IsNormalized(g) {
        var z := zs[i];
        assert Mul(g.z, z) == 1;
        InverseUnique(g.z, z, Inv(g.z));
        var z2 := Square(z);
        v[i] := Projective(Mul(g.x, z2), Mul(g.y, Mul(z2, z)), 1);
      }
    }
    forall i | 0 <= i < v.Length
      ensures IsNormalized(v[i]) && Eq(v[i], old(v[i]))
    {
      NormalizationPreservesPoint(old(v[i]));
    }
  }

  // ---------------------------------------------------------------------
  // Serialization (the field-element byte encoding is left abstract)
  // ---------------------------------------------------------------------

  /** The two flag bits carried by the last byte of an encoded coordinate. */
  datatype SWFlags = PositiveY | NegativeY | PointAtInfinity

  /** The flags written when no flag applies. */
  const DEFAULT_FLAGS: SWFlags := NegativeY

  function FromYSign(isPositive: bool): SWFlags
  {
    if isPositive then PositiveY else NegativeY
  }

  datatype SerializationError = InvalidData

  /** A compressed encoding: the x-coordinate with the flags. */
  datatype Compressed = Compressed(x: Elem, flags: SWFlags)

  /** An uncompressed encoding: both coordinates, the flags on y. */
  datatype Uncompressed = Uncompressed(x: Elem, y: Elem, flags: SWFlags)

  /** The identity is written as x = 0 with the infinity flag; otherwise x with the sign of y. */
  function Serialize(p: Affine): (r: Compressed)
    ensures p.infinity <==> r.flags == PointAtInfinity
    ensures p.infinity ==> r.x == 0
    ensures !p.infinity ==> r.x == p.x && (r.flags == PositiveY <==> p.y > Neg(p.y))
  {
    if p.infinity then Compressed(0, PointAtInfinity)
    else Compressed(p.x, FromYSign(p.y > Neg(p.y)))
  }

  function SerializeUncompressed(p: Affine): (r: Uncompressed)
    ensures r.x == p.x && r.y == p.y
    ensures r.flags == PointAtInfinity <==> p.infinity
  {
    Uncompressed(p.x, p.y, if p.infinity then PointAtInfinity else DEFAULT_FLAGS)
  }

  /** The infinity flag wins whatever x holds; otherwise x is decompressed and checked. */
  function Deserialize(c: Parameters, e: Compressed): (r: Result<Affine, SerializationError>)
    ensures e.flags == PointAtInfinity ==> r == Ok(AffineZero())
    ensures r.Ok? && e.flags != PointAtInfinity ==>
              !r.value.infinity && r.value.x == e.x && IsOnCurve(c, r.value)
              && InCorrectSubgroup(c, r.value)
  {
    if e.flags == PointAtInfinity then Ok(AffineZero())
    else
      match GetPointFromX(c, e.x, e.flags == PositiveY)
      case None => Err(InvalidData)
      case Some(p) => if !InCorrectSubgroup(c, p) then Err(InvalidData) else Ok(p)
  }

  /** Both coordinates are taken as read; only the infinity flag is looked at. */
  function DeserializeUnchecked(e: Uncompressed): (r: Affine)
    ensures r.x == e.x && r.y == e.y
    ensures r.infinity <==> e.flags == PointAtInfinity
  {
    Affine(e.x, e.y, e.flags == PointAtInfinity)
  }

  /** Uncompressed decoding checks subgroup membership only. */
  function DeserializeUncompressed(c: Parameters, e: Uncompressed): (r: Result<Affine, SerializationError>)
    ensures r.Ok? <==> InCorrectSubgroup(c, DeserializeUnchecked(e))
    ensures r.Ok? ==> r.value == DeserializeUnchecked(e)
  {
    var p := DeserializeUnchecked(e);
    if !InCorrectSubgroup(c, p) then Err(InvalidData) else Ok(p)
  }

  /** A Jacobian point is written through its affine image. */
  function SerializeProjective(p: Projective): (r: Compressed)
    ensures r.flags == PointAtInfinity <==> IsZero(p)
    ensures !IsZero(p) ==> Mul(r.x, Square(p.z)) == p.x
  {
    Serialize(ToAffine(p))
  }

  function SerializeProjectiveUncompressed(p: Projective): (r: Uncompressed)
    ensures r.flags == PointAtInfinity <==> IsZero(p)
    ensures !IsZero(p) ==> Mul(r.x, Square(p.z)) == p.x && Mul(r.y, Cube(p.z)) == p.y
  {
    SerializeUncompressed(ToAffine(p))
  }

  /** The affine decoder, lifted to a normalized Jacobian triple. */
  function DeserializeProjective(c: Parameters, e: Compressed): (r: Result<Projective, SerializationError>)
    ensures r.Ok? <==> Deserialize(c, e).Ok?
    ensures r.Ok? ==> IsNormalized(r.value) && ToAffine(r.value) == Deserialize(c, e).value
  {
    match Deserialize(c, e)
    case Err(err) => Err(err)
    case Ok(a) => Ok(FromAffine(a))
  }

  /**
   * Uncompressed decoding that also checks the curve equation, so that the
   * subgroup test's assumption holds; the Jacobian decoder below uses it.
   */
  function DeserializeUncompressedChecked(c: Parameters, e: Uncompressed): (r: Result<Affine, SerializationError>)
    ensures r.Ok? <==> IsOnCurve(c, DeserializeUnchecked(e)) && InCorrectSubgroup(c, DeserializeUnchecked(e))
    ensures r.Ok? ==> r.value == DeserializeUnchecked(e)
  {
    var p := DeserializeUnchecked(e);
    if !IsOnCurve(c, p) || !InCorrectSubgroup(c, p) then Err(InvalidData) else Ok(p)
  }

  function DeserializeProjectiveUncompressed(c: Parameters, e: Uncompressed): (r: Result<Projective, SerializationError>)
    ensures r.Ok? <==> IsOnCurve(c, DeserializeUnchecked(e)) && InCorrectSubgroup(c, DeserializeUnchecked(e))
    ensures r.Ok? ==> IsNormalized(r.value) && (IsZero(r.value) <==> e.flags == PointAtInfinity)
    ensures r.Ok? && e.flags != PointAtInfinity ==> ToAffine(r.value) == DeserializeUnchecked(e)
  {
    match DeserializeUncompressedChecked(c, e)
    case Err(err) => Err(err)
    case Ok(a) => Ok(FromAffine(a))
  }

  function DeserializeProjectiveUnchecked(e: Uncompressed): (r: Projective)
    ensures IsNormalized(r)
    ensures IsZero(r) <==> e.flags == PointAtInfinity
    ensures e.flags != PointAtInfinity ==> ToAffine(r) == DeserializeUnchecked(e)
  {
    FromAffine(DeserializeUnchecked(e))
  }

  /**
   * A point from random bytes, given the field element and flags read from
   * them (None when the bytes are not a valid element). Only x = 0 with the
   * infinity flag is the identity; the point is not checked for the subgroup.
   */
  function FromRandomBytes(c: Parameters, parsed: Option<(Elem, SWFlags)>): (r: Option<Affine>)
    ensures parsed.None? ==> r.None?
    ensures r.Some? ==> IsOnCurve(c, r.value)
    ensures r.Some? && r.value.infinity ==> parsed == Some((0, PointAtInfinity))
    ensures r.Some? && !r.value.infinity ==> r.value.x == parsed.value.0
    ensures parsed.Some? && parsed.value.1 != PointAtInfinity ==>
              r == GetPointFromX(c, parsed.value.0, parsed.value.1 == PositiveY)
    ensures parsed.Some? && parsed.value.1 == PointAtInfinity ==>
              (r.Some? <==> parsed.value.0 == 0) && (r.Some? ==> r.value == AffineZero())
  {
    match parsed
    case None => None
    case Some((x, flags)) =>
      if x == 0 && flags == PointAtInfinity then Some(AffineZero())
      else if flags != PointAtInfinity then GetPointFromX(c, x, flags == PositiveY)
      else None
  }

  // ---------------------------------------------------------------------
  // Lemmas: coordinates and equality
  // ---------------------------------------------------------------------

  /** An affine point survives the trip through Jacobian coordinates. */
  lemma AffineRoundTrip(a: Affine)
    ensures ToAffine(FromAffine(a)) == if a.infinity then AffineZero() else a
  {
  }

  /** Away from the identity ToAffine is (X * Zinv^2, Y * Zinv^3), also when Z = 1. */
  lemma ToAffineOfFinite(p: Projective)
    requires !IsZero(p)
    ensures ToAffine(p) == Affine(Mul(p.x, Square(Inv(p.z))), Mul(p.y, Cube(Inv(p.z))), false)
  {
    if p.z == 1 {
      InverseUnique(1, Inv(1), 1);
    }
  }

  /** Two triples are equal exactly when they stand for the same affine point. */
  lemma EqIffSameAffine(p: Projective, q: Projective)
    ensures Eq(p, q) <==> ToAffine(p) == ToAffine(q)
  {
    if !IsZero(p) && !IsZero(q) {
      var zi1, zi2 := Inv(p.z), Inv(q.z);
      ToAffineOfFinite(p);
      ToAffineOfFinite(q);
      UnitLaws(0);
      MulSquares(p.z, zi1);
      MulSquares(q.z, zi2);
      assert Mul(Square(p.z), Square(zi1)) == 1 && Mul(Square(q.z), Square(zi2)) == 1;
      CrossMultiplyIff(p.x, Square(p.z), Square(zi1), q.x, Square(q.z), Square(zi2));
      MulCubes(p.z, zi1);
      MulCubes(q.z, zi2);
      assert Mul(Cube(p.z), Cube(zi1)) == 1 && Mul(Cube(q.z), Cube(zi2)) == 1;
      CrossMultiplyIff(p.y, Cube(p.z), Cube(zi1), q.y, Cube(q.z), Cube(zi2));
    }
  }

  /** Eq is an equivalence relation. */
  lemma EqIsEquivalence(p: Projective, q: Projective, s: Projective)
    ensures Eq(p, p)
    ensures Eq(p, q) ==> Eq(q, p)
    ensures Eq(p, q) && Eq(q, s) ==> Eq(p, s)
  {
    EqIffSameAffine(p, p);
    EqIffSameAffine(p, q);
    EqIffSameAffine(q, p);
    EqIffSameAffine(q, s);
    EqIffSameAffine(p, s);
  }

  /** Normalizing a point gives a normalized triple for the same point. */
  lemma NormalizationPreservesPoint(p: Projective)
    ensures IsNormalized(FromAffine(ToAffine(p))) && Eq(FromAffine(ToAffine(p)), p)
    ensures IsNormalized(p) && !IsZero(p) ==> FromAffine(ToAffine(p)) == p
    ensures IsZero(p) ==> FromAffine(ToAffine(p)) == Zero()
  {
    AffineRoundTrip(ToAffine(p));
    EqIffSameAffine(FromAffine(ToAffine(p)), p);
    EqIffSameAffine(p, p);
  }

  /** Negation is an involution, fixes the identity and commutes with ToAffine. */
  lemma NegationLaws(p: Projective, a: Affine)
    ensures Negated(Negated(p)) == p && AffineNegated(AffineNegated(a)) == a
    ensures IsZero(Negated(p)) <==> IsZero(p)
    ensures ToAffine(Negated(p)) == AffineNegated(ToAffine(p))
    ensures FromAffine(AffineNegated(a)) == Negated(FromAffine(a))
  {
    UnitLaws(p.y);
    UnitLaws(a.y);
    if !IsZero(p) && p.z != 1 {
      var zinv := Inv(p.z);
      MulNegLeft(p.y, Mul(Square(zinv), zinv));
    }
  }

  /** Negation keeps a point on the curve. */
  lemma NegationPreservesCurve(c: Parameters, a: Affine)
    requires IsOnCurve(c, a)
    ensures IsOnCurve(c, AffineNegated(a))
  {
    SquareNeg(a.y);
  }

  // ---------------------------------------------------------------------
  // Lemmas: the group law
  // ---------------------------------------------------------------------

  /** The identity is absorbed by every operation. */
  lemma IdentityLaws(c: Parameters, p: Projective, a: Affine)
    ensures IsZero(Doubled(c, Zero()))
    ensures Sum(c, Zero(), p) == p
    ensures !IsZero(p) ==> Sum(c, p, Zero()) == p
    ensures MixedSum(c, p, AffineZero()) == p
    ensures AffineSum(c, AffineZero(), a) == AffineSum(c, a, AffineZero())
    ensures AffineSum(c, a, AffineZero()) == if a.infinity then AffineZero() else a
  {
    AffineRoundTrip(a);
  }

  /** For a = 0 the fast doubling formula computes the general one. */
  lemma DoubleFastPathAgrees(c: Parameters, p: Projective)
    requires c.coeffA == 0
    ensures DoubledA0(p) == DoubledGeneral(c, p)
  {
    var ZZ := Square(p.z);
    UnitLaws(Square(ZZ));
    UnitLaws(Mul(3, Square(p.x)));
    SquareOfSum(p.y, p.z);
  }

  /** The coincidence test of the addition formulas is projective equality. */
  lemma CoincideIffEq(p: Projective, q: Projective)
    requires !IsZero(p) && !IsZero(q)
    ensures Coincide(p, q) <==> Eq(p, q)
  {
    MulAssoc(p.y, q.z, Square(q.z));
    MulAssoc(q.y, p.z, Square(p.z));
  }

  /** Adding two representatives of the same point doubles it. */
  lemma SumOfEqualPointsDoubles(c: Parameters, p: Projective, q: Projective)
    requires !IsZero(p) && Eq(p, q)
    ensures Sum(c, p, q) == Doubled(c, p)
  {
    CoincideIffEq(p, q);
  }

  /** In particular P + P == 2P for every triple. */
  lemma SumWithSelfDoubles(c: Parameters, p: Projective)
    ensures Sum(c, p, p) == Doubled(c, p)
  {
    if !IsZero(p) {
      EqIsEquivalence(p, p, p);
      SumOfEqualPointsDoubles(c, p, p);
    }
  }

  /** Mixed addition computes the full addition of the lifted affine point. */
  lemma MixedSumAgreesWithSum(c: Parameters, p: Projective, q: Affine)
    ensures if IsZero(p) && q.infinity then IsZero(MixedSum(c, p, q)) && IsZero(Sum(c, p, FromAffine(q)))
            else MixedSum(c, p, q) == Sum(c, p, FromAffine(q))
  {
    if !IsZero(p) && !q.infinity {
      var Q := FromAffine(q);
      UnitLaws(1);
      UnitLaws(p.x);
      UnitLaws(p.y);
      UnitLaws(p.z);
      var Z1Z1 := Square(p.z);
      var U2 := Mul(q.x, Z1Z1);
      var S2 := Mul(Mul(q.y, p.z), Z1Z1);
      assert Square(Q.z) == 1;
      assert Mul(p.x, Square(Q.z)) == p.x;
      assert Mul(Mul(p.y, Q.z), Square(Q.z)) == p.y;
      assert Coincide(p, Q) <==> p.x == U2 && p.y == S2;
      if !Coincide(p, Q) {
        MixedFormulaAgrees(p, q.x, q.y);
      }
    }
  }

  /** The madd and add formulas agree on the Z3 and I terms when Z2 = 1. */
  lemma MixedFormulaAgrees(p: Projective, qx: Elem, qy: Elem)
    ensures var H := Sub(Mul(qx, Square(p.z)), p.x);
            Square(Mul(2, H)) == Mul(4, Square(H))
            && Sub(Sub(Square(Add(p.z, H)), Square(p.z)), Square(H))
               == Mul(Sub(Sub(Square(Add(p.z, 1)), Square(p.z)), Square(1)), H)
  {
    var H := Sub(Mul(qx, Square(p.z)), p.x);
    SquareOfDouble(H);
    SmallMultiples(H);
    SmallMultiples(Square(H));
    SquareOfSum(p.z, H);
    SquareOfSum(p.z, 1);
    UnitLaws(p.z);
    MulAssoc(2, p.z, H);
  }

  /** P + (-P) is the identity. */
  lemma SumWithNegationIsZero(c: Parameters, p: Projective)
    ensures IsZero(Sum(c, p, Negated(p)))
  {
    if !IsZero(p) {
      var zz := Square(p.z);
      var S1 := Mul(Mul(p.y, p.z), zz);
      MulNegLeft(p.y, p.z);
      MulNegLeft(Mul(p.y, p.z), zz);
      assert Mul(Mul(Neg(p.y), p.z), zz) == Neg(S1);
      if Coincide(p, Negated(p)) {
        NegFixedIsZero(S1);
        NoZeroDivisors(Mul(p.y, p.z), zz);
        if zz == 0 {
          NoZeroDivisors(p.z, p.z);
          assert false;
        }
        NoZeroDivisors(p.y, p.z);
        assert p.y == 0;
        UnitLaws(2);
        UnitLaws(p.z);
        UnitLaws(zz);
      } else {
        UnitLaws(Mul(p.x, zz));
        UnitLaws(Sub(Sub(Square(Add(p.z, p.z)), zz), zz));
      }
    }
  }

  /** The affine sum of a point and its negation is the identity. */
  lemma AffineSumWithNegationIsZero(c: Parameters, a: Affine)
    ensures AffineSum(c, a, AffineNegated(a)) == AffineZero()
  {
    var p := FromAffine(a);
    MixedSumAgreesWithSum(c, p, AffineNegated(a));
    NegationLaws(p, a);
    SumWithNegationIsZero(c, p);
  }

  // ---------------------------------------------------------------------
  // Lemmas: scalar multiplication and subgroup membership
  // ---------------------------------------------------------------------

  lemma {:induction false} BitsRoundTrip(n: nat)
    ensures ValueBE(ToBitsBE(n)) == n
    decreases n
  {
    if n > 0 {
      var bits := ToBitsBE(n);
      BitsRoundTrip(n / 2);
      assert bits[..|bits| - 1] == ToBitsBE(n / 2);
    }
  }

  /** Doubling and adding from the identity over zero bits stays at Zero(). */
  lemma {:induction false} AllZeroBitsGiveZero(c: Parameters, p: Affine, zeros: seq<bool>)
    requires AllZero(zeros)
    ensures ScalarMulBits(c, p, zeros) == Zero()
    decreases |zeros|
  {
    if zeros != [] {
      AllZeroBitsGiveZero(c, p, zeros[..|zeros| - 1]);
    }
  }

  /** Skipping leading zero bits does not change the product. */
  lemma {:induction false} LeadingZerosIgnored(c: Parameters, p: Affine, zeros: seq<bool>, bits: seq<bool>)
    requires AllZero(zeros)
    ensures ScalarMulBits(c, p, zeros + bits) == ScalarMulBits(c, p, bits)
    decreases |bits|
  {
    if bits == [] {
      assert zeros + bits == zeros;
      AllZeroBitsGiveZero(c, p, zeros);
    } else {
      LeadingZerosIgnored(c, p, zeros, bits[..|bits| - 1]);
      assert (zeros + bits)[..|zeros + bits| - 1] == zeros + bits[..|bits| - 1];
    }
  }

  /** Every multiple of the identity is the identity. */
  lemma {:induction false} MultipleOfIdentity(c: Parameters, bits: seq<bool>)
    ensures ScalarMulBits(c, AffineZero(), bits) == Zero()
    decreases |bits|
  {
    if bits != [] {
      MultipleOfIdentity(c, bits[..|bits| - 1]);
    }
  }

  lemma IdentityInCorrectSubgroup(c: Parameters)
    ensures InCorrectSubgroup(c, AffineZero())
  {
    MultipleOfIdentity(c, ToBitsBE(c.scalarModulus));
  }

  // ---------------------------------------------------------------------
  // Lemmas: serialization
  // ---------------------------------------------------------------------

  /** Compressed encoding round-trips every curve point of the subgroup and rejects the rest. */
  lemma CompressedRoundTrip(c: Parameters, p: Affine)
    requires IsOnCurve(c, p)
    ensures Deserialize(c, Serialize(p)) ==
              if p.infinity then Ok(AffineZero())
              else if InCorrectSubgroup(c, p) then Ok(p)
              else Err(InvalidData)
  {
    if !p.infinity {
      var greatest := p.y > Neg(p.y);
      var found := GetPointFromX(c, p.x, greatest);
      assert found.Some?;
      var y := found.value.y;
      SquareRoots(y, p.y);
      SquareNeg(p.y);
      assert y == p.y;
    }
  }

  /** The uncompressed encoding keeps both coordinates and the identity flag. */
  lemma UncompressedRoundTrip(c: Parameters, p: Affine)
    ensures DeserializeUnchecked(SerializeUncompressed(p)) == p
    ensures DeserializeUncompressed(c, SerializeUncompressed(p)) ==
              if InCorrectSubgroup(c, p) then Ok(p) else Err(InvalidData)
  {
  }

  /** A Jacobian point encodes through its affine form and decodes to an equal point. */
  lemma ProjectiveRoundTrip(c: Parameters, p: Projective)
    requires IsOnCurve(c, ToAffine(p))
    requires IsZero(p) || InCorrectSubgroup(c, ToAffine(p))
    ensures DeserializeProjective(c, SerializeProjective(p)).Ok?
    ensures Eq(DeserializeProjective(c, SerializeProjective(p)).value, p)
  {
    CompressedRoundTrip(c, ToAffine(p));
    NormalizationPreservesPoint(p);
  }

  /**
   * A Jacobian point survives uncompressed encoding and unchecked decoding
   * up to projective equality; the checked decoder accepts it exactly when
   * its affine image is in the subgroup.
   */
  lemma ProjectiveUncompressedRoundTrip(c: Parameters, p: Projective)
    ensures Eq(DeserializeProjectiveUnchecked(SerializeProjectiveUncompressed(p)), p)
    ensures IsOnCurve(c, ToAffine(p)) ==>
              (DeserializeProjectiveUncompressed(c, SerializeProjectiveUncompressed(p)).Ok?
               <==> InCorrectSubgroup(c, ToAffine(p)))
    ensures DeserializeProjectiveUncompressed(c, SerializeProjectiveUncompressed(p)).Ok? ==>
              Eq(DeserializeProjectiveUncompressed(c, SerializeProjectiveUncompressed(p)).value, p)
  {
    UncompressedRoundTrip(c, ToAffine(p));
    NormalizationPreservesPoint(p);
  }

  /**
   * With the curve equation checked, uncompressed decoding round-trips every
   * curve point of the subgroup, rejects the rest, and agrees with the
   * unchecked-curve decoder on encodings of curve points.
   */
  lemma UncompressedCheckedRoundTrip(c: Parameters, p: Affine)
    requires IsOnCurve(c, p)
    ensures DeserializeUncompressedChecked(c, SerializeUncompressed(p)) ==
              if InCorrectSubgroup(c, p) then Ok(p) else Err(InvalidData)
    ensures DeserializeUncompressedChecked(c, SerializeUncompressed(p)) ==
              DeserializeUncompressed(c, SerializeUncompressed(p))
  {
  }

  // ---------------------------------------------------------------------
  // A point off the curve that passes the subgroup test
  // ---------------------------------------------------------------------

  /** y^2 = x^3 + 7 over the 13-element field: a group of prime order 7, cofactor 1. */
  function ToyCurve(): Parameters { Parameters(0, 7, 7, 1) }

  /**
   * (2, 1) is not on the toy curve, yet seven times it is the identity under
   * the doubling and mixed-addition formulas, so the uncompressed decoder,
   * which only runs the subgroup test, accepts it.
   */
  lemma UncompressedAcceptsPointOffCurve()
    ensures !IsOnCurve(ToyCurve(), Affine(2, 1, false))
    ensures DeserializeUncompressed(ToyCurve(), Uncompressed(2, 1, DEFAULT_FLAGS)) == Ok(Affine(2, 1, false))
    ensures DeserializeUncompressedChecked(ToyCurve(), Uncompressed(2, 1, DEFAULT_FLAGS)).Err?
  {
    var c := ToyCurve();
    var p := Affine(2, 1, false);
    assert CurveRhs(c, 2) == 2 by {
      assert Mul(Square(2), 2) == 8 && MulByA(c, 2) == 0 && Add(8, 0) == 8 && Add(8, 7) == 2;
    }
    assert Square(1) == 1;
    ToyBits();
    ToyMultiples();
    assert InCorrectSubgroup(c, p);
    assert DeserializeUnchecked(Uncompressed(2, 1, DEFAULT_FLAGS)) == p;
  }

  lemma ToyBits()
    ensures ToBitsBE(7) == [true, true, true]
  {
    assert ToBitsBE(1) == [true];
    assert ToBitsBE(3) == [true, true];
  }

  lemma ToyMultiples()
    ensures ScalarMulBits(ToyCurve(), Affine(2, 1, false), [true, true, true]) == Projective(10, 8, 0)
  {
    var c := ToyCurve();
    var p := Affine(2, 1, false);
    var b1, b2, b3 := [true], [true, true], [true, true, true];
    assert b1[..0] == [] && b2[..1] == b1 && b3[..2] == b2;
    assert ScalarMulBits(c, p, b1) == Projective(2, 1, 1);
    ToyDouble1();
    ToyAdd1();
    assert ScalarMulBits(c, p, b2) == Projective(5, 12, 1);
    ToyDouble2();
    ToyAdd2();
  }

  lemma ToyDouble1()
    ensures DoubledA0(Projective(2, 1, 1)) == Projective(11, 8, 2)
  {
    assert Square(2) == 4 && Square(1) == 1 && Add(2, 1) == 3 && Square(3) == 9;
    assert Sub(Sub(9, 4), 1) == 4 && Mul(2, 4) == 8 && Mul(3, 4) == 12 && Square(12) == 1;
    assert Sub(1, Mul(2, 8)) == 11 && Sub(8, 11) == 10 && Mul(12, 10) == 3;
    assert Sub(3, Mul(8, 1)) == 8 && Mul(2, Mul(1, 1)) == 2;
  }

  lemma ToyAdd1()
    ensures MixedSum(ToyCurve(), Projective(11, 8, 2), Affine(2, 1, false)) == Projective(5, 12, 1)
  {
    assert Square(2) == 4 && Mul(2, 4) == 8 && Mul(Mul(1, 2), 4) == 8;
    assert Sub(8, 11) == 10 && Square(10) == 9 && Mul(4, 9) == 10 && Mul(10, 10) == 9;
    assert Mul(2, Sub(8, 8)) == 0 && Mul(11, 10) == 6 && Square(0) == 0;
    assert Sub(Sub(0, 9), Mul(2, 6)) == 5 && Sub(6, 5) == 1 && Mul(0, 1) == 0;
    assert Mul(2, Mul(8, 9)) == 1 && Sub(0, 1) == 12;
    assert Add(2, 10) == 12 && Square(12) == 1 && Sub(Sub(1, 4), 9) == 1;
  }

  lemma ToyDouble2()
    ensures DoubledA0(Projective(5, 12, 1)) == Projective(8, 8, 11)
  {
    assert Square(5) == 12 && Square(12) == 1 && Square(1) == 1 && Add(5, 1) == 6 && Square(6) == 10;
    assert Sub(Sub(10, 12), 1) == 10 && Mul(2, 10) == 7 && Mul(3, 12) == 10 && Square(10) == 9;
    assert Sub(9, Mul(2, 7)) == 8 && Sub(7, 8) == 12 && Mul(10, 12) == 3;
    assert Sub(3, Mul(8, 1)) == 8 && Mul(2, Mul(12, 1)) == 11;
  }

  lemma ToyAdd2()
    ensures MixedSum(ToyCurve(), Projective(8, 8, 11), Affine(2, 1, false)) == Projective(10, 8, 0)
  {
    assert Square(11) == 4 && Mul(2, 4) == 8 && Mul(Mul(1, 11), 4) == 5;
    assert Sub(8, 8) == 0 && Square(0) == 0 && Mul(4, 0) == 0 && Mul(0, 0) == 0;
    assert Mul(2, Sub(5, 8)) == 7 && Mul(8, 0) == 0 && Square(7) == 10;
    assert Sub(Sub(10, 0), Mul(2, 0)) == 10 && Sub(0, 10) == 3 && Mul(7, 3) == 8;
    assert Sub(8, Mul(2, Mul(8, 0))) == 8;
    assert Add(11, 0) == 11 && Sub(Sub(Square(11), 4), 0) == 0;
  }
}
