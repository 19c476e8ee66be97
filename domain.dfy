/**
 * The default methods of an evaluation domain: a multiplicative subgroup
 * {1, g, g^2, ..., g^(n-1)} of the field over which polynomials are moved
 * between coefficient and evaluation form by (inverse) FFTs.
 */
module EvaluationDomain {
  import opened Field

  // ---------------------------------------------------------------------
  // The domain
  // ---------------------------------------------------------------------

  /**
   * A domain of `size` elements generated by `groupGen`, with the transforms
   * a concrete domain type supplies. The transforms are left abstract; a
   * valid domain only promises that they invert each other.
   */
  datatype Domain = Domain(
    size: nat,
    groupGen: Elem,
    fft: seq<Elem> -> seq<Elem>,
    ifft: seq<Elem> -> seq<Elem>)

  /** The input padded with zeros up to length n, as the transforms resize their input. */
  function Pad(v: seq<Elem>, n: nat): seq<Elem>
    requires |v| <= n
  {
    v + seq(n - |v|, _ => 0)
  }

  /**
   * The contract of the abstract transforms: both produce `size` values,
   * and each undoes the other up to zero padding. The generator has order
   * dividing `size`.
   */
  ghost predicate Valid(d: Domain)
  {
    Pow(d.groupGen, d.size) == 1
    && (forall v: seq<Elem> :: |v| <= d.size ==> |d.fft(v)| == d.size && |d.ifft(v)| == d.size)
    && (forall v: seq<Elem> :: |v| <= d.size ==> d.ifft(d.fft(v)) == Pad(v, d.size))
    && (forall v: seq<Elem> :: |v| <= d.size ==> d.fft(d.ifft(v)) == Pad(v, d.size))
  }

  /** The i-th element of the domain. */
  function Element(d: Domain, i: nat): Elem
  {
    Pow(d.groupGen, i)
  }

  /** Z(tau) = tau^n - 1, the polynomial vanishing on the whole domain. */
  function EvaluateVanishingPolynomial(d: Domain, tau: Elem): Elem
  {
    Sub(Pow(tau, d.size), 1)
  }

  /** `size` as a field element. */
  function SizeAsFieldElement(d: Domain): (r: Elem)
    ensures Cong(d.size, r)
  {
    FromNat(d.size)
  }

  // ---------------------------------------------------------------------
  // Distributing powers
  // ---------------------------------------------------------------------

  /** The i-th entry multiplied by c * g^i. */
  function ScaledByPowers(v: seq<Elem>, g: Elem, c: Elem): seq<Elem>
  {
    seq(|v|, i requires 0 <= i < |v| => Mul(v[i], Mul(c, Pow(g, i))))
  }

  /** Multiplies the i-th entry by c * g^i, keeping the running power c * g^i. */
  method DistributePowersAndMulByConst(coeffs: array<Elem>, g: Elem, c: Elem)
    modifies coeffs
    ensures coeffs[..] == ScaledByPowers(old(coeffs[..]), g, c)
  {
    ghost var v := coeffs[..];
    var pow := c;
    for i := 0 to coeffs.Length
      invariant pow == Mul(c, Pow(g, i))
      invariant forall k :: 0 <= k < i ==> coeffs[k] == Mul(v[k], Mul(c, Pow(g, k)))
      invariant forall k :: i <= k < coeffs.Length ==> coeffs[k] == v[k]
    {
      coeffs[i] := Mul(coeffs[i], pow);
      MulAssoc(c, Pow(g, i), g);
      pow := Mul(pow, g);
    }
    ScaledByPowersPointwise(v, coeffs[..], g, c);
  }

  /** A vector that holds v[k] * c * g^k at every k is ScaledByPowers(v, g, c). */
  lemma ScaledByPowersPointwise(v: seq<Elem>, w: seq<Elem>, g: Elem, c: Elem)
    requires |w| == |v|
    requires forall k :: 0 <= k < |v| ==> w[k] == Mul(v[k], Mul(c, Pow(g, k)))
    ensures w == ScaledByPowers(v, g, c)
  {
  }

  /** The smallest chunk the parallel variant hands to one thread. */
  const MIN_PARALLEL_CHUNK_SIZE: nat := 1024

  /**
   * The parallel variant: the vector is cut into chunks of
   * max(len / threads, 1024) entries, and chunk k starts its running power
   * at c * g^(k * chunk). The chunks are disjoint, so they are processed
   * here one after the other.
   */
  method DistributePowersAndMulByConstParallel(coeffs: array<Elem>, g: Elem, c: Elem, numThreads: nat)
    requires numThreads >= 1
    modifies coeffs
    ensures coeffs[..] == ScaledByPowers(old(coeffs[..]), g, c)
  {
    var chunkSize := coeffs.Length / numThreads;
    if chunkSize < MIN_PARALLEL_CHUNK_SIZE {
      chunkSize := MIN_PARALLEL_CHUNK_SIZE;
    }
    var start := 0;
    var chunk := 0;
    while start < coeffs.Length
      invariant start <= coeffs.Length
      invariant start == chunk * chunkSize
      invariant forall k :: 0 <= k < start ==> coeffs[k] == Mul(old(coeffs[k]), Mul(c, Pow(g, k)))
      invariant forall k :: start <= k < coeffs.Length ==> coeffs[k] == old(coeffs[k])
      decreases coeffs.Length - start
    {
      var offset := Mul(c, Pow(g, chunk * chunkSize));
      var end := if start + chunkSize < coeffs.Length then start + chunkSize else coeffs.Length;
      ScaleChunk(coeffs, start, end, g, c, offset);
      assert (chunk + 1) * chunkSize == chunk * chunkSize + chunkSize;
      if end == coeffs.Length {
        break;
      }
      start := end;
      chunk := chunk + 1;
    }
  }

  /** One chunk: entries start..end scaled, the running power starting at offset = c * g^start. */
  method ScaleChunk(coeffs: array<Elem>, start: nat, end: nat, g: Elem, c: Elem, offset: Elem)
    requires start <= end <= coeffs.Length
    requires offset == Mul(c, Pow(g, start))
    modifies coeffs
    ensures forall k :: start <= k < end ==> coeffs[k] == Mul(old(coeffs[k]), Mul(c, Pow(g, k)))
    ensures forall k :: 0 <= k < coeffs.Length && !(start <= k < end) ==> coeffs[k] == old(coeffs[k])
  {
    var pow := offset;
    for j := start to end
      invariant pow == Mul(c, Pow(g, j))
      invariant forall k :: start <= k < j ==> coeffs[k] == Mul(old(coeffs[k]), Mul(c, Pow(g, k)))
      invariant forall k :: 0 <= k < coeffs.Length && !(start <= k < j) ==> coeffs[k] == old(coeffs[k])
    {
      coeffs[j] := Mul(coeffs[j], pow);
      MulAssoc(c, Pow(g, j), g);
      pow := Mul(pow, g);
    }
  }

  /** Multiplies the i-th entry by g^i. */
  method DistributePowers(coeffs: array<Elem>, g: Elem)
    modifies coeffs
    ensures forall i :: 0 <= i < coeffs.Length ==> coeffs[i] == Mul(old(coeffs[i]), Pow(g, i))
    ensures coeffs[..] == ScaledByPowers(old(coeffs[..]), g, 1)
  {
    DistributePowersAndMulByConst(coeffs, g, 1);
    forall i | 0 <= i < coeffs.Length
      ensures coeffs[i] == Mul(old(coeffs[i]), Pow(g, i))
    {
      UnitLaws(Pow(g, i));
      assert coeffs[i] == coeffs[..][i];
    }
  }

  // ---------------------------------------------------------------------
  // Transforms on a growable vector
  // ---------------------------------------------------------------------

  /** The coset FFT: scale by powers of the multiplicative generator, then FFT. */
  function CosetFft(d: Domain, v: seq<Elem>): seq<Elem>
  {
    d.fft(ScaledByPowers(v, MULTIPLICATIVE_GENERATOR, 1))
  }

  /** The coset IFFT: IFFT, then scale by powers of the generator's inverse. */
  function CosetIfft(d: Domain, v: seq<Elem>): seq<Elem>
  {
    ScaledByPowers(d.ifft(v), Inv(MULTIPLICATIVE_GENERATOR), 1)
  }

  /** A fresh array holding s. */
  method ArrayOf(s: seq<Elem>) returns (a: array<Elem>)
    ensures fresh(a) && a[..] == s
  {
    a := new Elem[|s|](i requires 0 <= i < |s| => s[i]);
  }

  /** A `Vec` of field elements: the transforms may resize it, replacing its buffer. */
  class Vector {
    var data: array<Elem>

    function Elements(): seq<Elem>
      reads this, data
    {
      data[..]
    }

    constructor (v: seq<Elem>)
      ensures fresh(data) && Elements() == v
    {
      data := new Elem[|v|](i requires 0 <= i < |v| => v[i]);
    }

    method FftInPlace(d: Domain)
      modifies this
      ensures fresh(data) && Elements() == d.fft(old(Elements()))
    {
      data := ArrayOf(d.fft(data[..]));
    }

    method IfftInPlace(d: Domain)
      modifies this
      ensures fresh(data) && Elements() == d.ifft(old(Elements()))
    {
      data := ArrayOf(d.ifft(data[..]));
    }

    method CosetFftInPlace(d: Domain)
      modifies this, data
      ensures Elements() == CosetFft(d, old(Elements()))
    {
      DistributePowers(data, MULTIPLICATIVE_GENERATOR);
      FftInPlace(d);
    }

    method CosetIfftInPlace(d: Domain)
      modifies this, data
      ensures Elements() == CosetIfft(d, old(Elements()))
    {
      IfftInPlace(d);
      EveryNonzeroInvertible(MULTIPLICATIVE_GENERATOR);
      DistributePowers(data, Inv(MULTIPLICATIVE_GENERATOR));
    }
  }

  /** The copying FFT: the caller's slice is only read. */
  method Fft(d: Domain, coeffs: array<Elem>) returns (r: seq<Elem>)
    ensures r == d.fft(coeffs[..])
  {
    var v := new Vector(coeffs[..]);
    v.FftInPlace(d);
    r := v.Elements();
  }

  method Ifft(d: Domain, evals: array<Elem>) returns (r: seq<Elem>)
    ensures r == d.ifft(evals[..])
  {
    var v := new Vector(evals[..]);
    v.IfftInPlace(d);
    r := v.Elements();
  }

  method CosetFftCopy(d: Domain, coeffs: array<Elem>) returns (r: seq<Elem>)
    ensures r == CosetFft(d, coeffs[..])
  {
    var v := new Vector(coeffs[..]);
    v.CosetFftInPlace(d);
    r := v.Elements();
  }

  method CosetIfftCopy(d: Domain, evals: array<Elem>) returns (r: seq<Elem>)
    ensures r == CosetIfft(d, evals[..])
  {
    var v := new Vector(evals[..]);
    v.CosetIfftInPlace(d);
    r := v.Elements();
  }

  // ---------------------------------------------------------------------
  // Vanishing polynomial, sampling, division
  // ---------------------------------------------------------------------

  /**
   * Draws candidates until one lies outside the domain. `publicDraws` and
   * `privateDraws` are the elements the public and the private generator
   * would yield, in order; the loop ends if some candidate is outside.
   */
  function ChosenDraws(publicDraws: seq<Elem>, privateDraws: seq<Elem>, publicRng: bool): seq<Elem>
  {
    if publicRng then publicDraws else privateDraws
  }

  method SampleElementOutsideDomain(d: Domain, publicDraws: seq<Elem>, privateDraws: seq<Elem>, publicRng: bool)
    returns (t: Elem, used: nat)
    requires exists k :: 0 <= k < |ChosenDraws(publicDraws, privateDraws, publicRng)|
               && EvaluateVanishingPolynomial(d, ChosenDraws(publicDraws, privateDraws, publicRng)[k]) != 0
    ensures var draws := ChosenDraws(publicDraws, privateDraws, publicRng);
            used < |draws| && t == draws[used]
            && EvaluateVanishingPolynomial(d, t) != 0
            && forall k :: 0 <= k < used ==> EvaluateVanishingPolynomial(d, draws[k]) == 0
  {
    var draws := ChosenDraws(publicDraws, privateDraws, publicRng);
    used := 0;
    t := draws[0];
    while EvaluateVanishingPolynomial(d, t) == 0
      invariant used < |draws| && t == draws[used]
      invariant forall k :: 0 <= k < used ==> EvaluateVanishingPolynomial(d, draws[k]) == 0
      invariant exists k :: used <= k < |draws| && EvaluateVanishingPolynomial(d, draws[k]) != 0
      decreases |draws| - used
    {
      used := used + 1;
      t := draws[used];
    }
  }

  /**
   * Multiplies every entry by the inverse of Z(g), the vanishing polynomial
   * at the multiplicative generator (which must not vanish there).
   */
  method DivideByVanishingPolyOnCosetInPlace(d: Domain, evals: array<Elem>)
    requires EvaluateVanishingPolynomial(d, MULTIPLICATIVE_GENERATOR) != 0
    modifies evals
    ensures forall k :: 0 <= k < evals.Length ==>
              evals[k] == Mul(old(evals[k]), Inv(EvaluateVanishingPolynomial(d, MULTIPLICATIVE_GENERATOR)))
    ensures forall k :: 0 <= k < evals.Length ==>
              Mul(evals[k], EvaluateVanishingPolynomial(d, MULTIPLICATIVE_GENERATOR)) == old(evals[k])
  {
    var z := EvaluateVanishingPolynomial(d, MULTIPLICATIVE_GENERATOR);
    var i := Inv(z);
    for k := 0 to evals.Length
      invariant forall j :: 0 <= j < k ==> evals[j] == Mul(old(evals[j]), i)
      invariant forall j :: k <= j < evals.Length ==> evals[j] == old(evals[j])
    {
      evals[k] := Mul(evals[k], i);
    }
    forall k | 0 <= k < evals.Length
      ensures Mul(evals[k], z) == old(evals[k])
    {
      MulAssoc(old(evals[k]), i, z);
      UnitLaws(old(evals[k]));
    }
  }

  // ---------------------------------------------------------------------
  // Re-indexing by a subdomain
  // ---------------------------------------------------------------------

  /**
   * The position in this domain of the element at `index` of an ordering
   * that lists the subdomain `other` first and then the rest. The source
   * asserts |other| <= |self|, and divides by |self|/|other| and by that
   * period minus one.
   */
  function ReindexBySubdomain(d: Domain, other: Domain, index: nat): (r: nat)
    requires 0 < other.size <= d.size
    requires index >= other.size ==> d.size / other.size >= 2
    ensures var period := d.size / other.size;
            (index < other.size ==> r == index * period && r % period == 0 && r < d.size)
            && (index >= other.size ==> r % period != 0)
            && (d.size % other.size == 0 && index < d.size ==> r < d.size)
  {
    var period := d.size / other.size;
    if index < other.size then
      SubdomainPosition(index, other.size, d.size);
      index * period
    else
      var i := index - other.size;
      var x := period - 1;
      ReindexNotMultiple(i, x);
      ReindexBound(i, x, other.size, d.size);
      i + i / x + 1
  }

  /** The k-th subdomain element sits at k * (n / m), a multiple of the period below n. */
  lemma SubdomainPosition(k: nat, m: nat, n: nat)
    requires k < m <= n
    ensures (k * (n / m)) % (n / m) == 0 && k * (n / m) < n
  {
    var p := n / m;
    assert n == m * p + n % m;
    MulMonotone(1, m, p);
    DivModUnique(k * p, p, k, 0);
    MulMonotone(k + 1, m, p);
    assert (k + 1) * p == k * p + p;
  }

  /** i + i/x + 1 leaves remainder (i mod x) + 1 modulo x + 1. */
  lemma ReindexNotMultiple(i: nat, x: nat)
    requires x >= 1
    ensures (i + i / x + 1) / (x + 1) == i / x
    ensures (i + i / x + 1) % (x + 1) == i % x + 1
  {
    var q, s := i / x, i % x;
    assert i + q + 1 == q * (x + 1) + (s + 1);
    DivModUnique(i + q + 1, x + 1, q, s + 1);
  }

  lemma ReindexBound(i: nat, x: nat, m: nat, n: nat)
    requires x >= 1 && m >= 1 && n / m == x + 1
    ensures n % m == 0 && i < n - m ==> i + i / x + 1 < n
  {
    if n % m == 0 && i < n - m {
      assert n == m * (n / m) + n % m;
      assert n == m * (x + 1);
      assert i < m * x;
      assert (i / x) * x <= i;
      MulMonotone(m, i / x, x);
      assert i / x < m;
    }
  }

  lemma MulMonotone(a: int, b: int, x: int)
    requires x >= 0
    ensures a <= b ==> a * x <= b * x
  {
    assert (b - a) * x == b * x - a * x;
    if a <= b {
      assert (b - a) * x >= 0;
    }
  }

  /** Quotient and remainder are unique. */
  lemma DivModUnique(r: int, p: int, q: int, s: int)
    requires p > 0 && 0 <= s < p && r == q * p + s
    ensures r / p == q && r % p == s
  {
    var k := r / p - q;
    assert r == (r / p) * p + r % p;
    assert k * p == (r / p) * p - q * p;
    MulMonotone(1, k, p);
    MulMonotone(k, -1, p);
  }

  /** Distinct indices are sent to distinct positions. */
  lemma ReindexInjective(d: Domain, other: Domain, i: nat, j: nat)
    requires 0 < other.size <= d.size
    requires i >= other.size ==> d.size / other.size >= 2
    requires j >= other.size ==> d.size / other.size >= 2
    requires i != j
    ensures ReindexBySubdomain(d, other, i) != ReindexBySubdomain(d, other, j)
  {
    var period := d.size / other.size;
    var m := other.size;
    if i < m && j < m {
      MulMonotone(1, m, period);
      MulInjective(i, j, period);
    } else if i >= m && j >= m {
      TailInjective(i - m, j - m, period - 1);
    }
  }

  lemma MulInjective(i: int, j: int, p: int)
    requires p >= 1 && i != j
    ensures i * p != j * p
  {
    MulMonotone(i + 1, j, p);
    MulMonotone(j + 1, i, p);
    assert (i + 1) * p == i * p + p;
    assert (j + 1) * p == j * p + p;
  }

  lemma TailInjective(a: nat, b: nat, x: nat)
    requires x >= 1 && a != b
    ensures a + a / x + 1 != b + b / x + 1
  {
    ReindexNotMultiple(a, x);
    ReindexNotMultiple(b, x);
    assert a == x * (a / x) + a % x;
    assert b == x * (b / x) + b % x;
  }

  // ---------------------------------------------------------------------
  // Pointwise product
  // ---------------------------------------------------------------------

  /** The evaluations of the product of two polynomials given by their evaluations. */
  method MulPolynomialsInEvaluationDomain(selfEvals: array<Elem>, otherEvals: array<Elem>) returns (r: seq<Elem>)
    requires selfEvals.Length == otherEvals.Length
    ensures |r| == selfEvals.Length
    ensures forall i :: 0 <= i < |r| ==> r[i] == Mul(selfEvals[i], otherEvals[i])
  {
    var result := ArrayOf(selfEvals[..]);
    BatchProductInPlace(result, otherEvals[..]);
    r := result[..];
  }

  /** The value at x of the polynomial with coefficients p, lowest degree first (Horner's rule). */
  function EvalPoly(p: seq<Elem>, x: Elem): Elem
  {
    if p == [] then 0 else Add(p[0], Mul(x, EvalPoly(p[1..], x)))
  }

  /** Coefficient-wise sum; the shorter polynomial is padded with zeros. */
  function AddPoly(p: seq<Elem>, q: seq<Elem>): seq<Elem>
  {
    if p == [] then q
    else if q == [] then p
    else [Add(p[0], q[0])] + AddPoly(p[1..], q[1..])
  }

  function ScalePoly(p: seq<Elem>, c: Elem): seq<Elem>
  {
    if p == [] then [] else [Mul(c, p[0])] + ScalePoly(p[1..], c)
  }

  /** Schoolbook product of two coefficient vectors. */
  function MulPoly(p: seq<Elem>, q: seq<Elem>): seq<Elem>
  {
    if p == [] then [] else AddPoly(ScalePoly(q, p[0]), [0] + MulPoly(p[1..], q))
  }

  /** The evaluations of p over the points of d: the input the pointwise product expects. */
  function Evaluations(d: Domain, p: seq<Elem>): seq<Elem>
  {
    seq(d.size, i requires 0 <= i => EvalPoly(p, Element(d, i)))
  }

  lemma {:induction false} EvalAddPoly(p: seq<Elem>, q: seq<Elem>, x: Elem)
    ensures EvalPoly(AddPoly(p, q), x) == Add(EvalPoly(p, x), EvalPoly(q, x))
    decreases |p|
  {
    if p == [] {
      UnitLaws(EvalPoly(q, x));
    } else if q == [] {
      UnitLaws(EvalPoly(p, x));
    } else {
      EvalAddPoly(p[1..], q[1..], x);
      assert AddPoly(p, q)[1..] == AddPoly(p[1..], q[1..]);
      AddMulRearrange(p[0], q[0], x, EvalPoly(p[1..], x), EvalPoly(q[1..], x));
    }
  }

  lemma {:induction false} EvalScalePoly(p: seq<Elem>, c: Elem, x: Elem)
    ensures EvalPoly(ScalePoly(p, c), x) == Mul(c, EvalPoly(p, x))
    decreases |p|
  {
    if p == [] {
      UnitLaws(c);
    } else {
      EvalScalePoly(p[1..], c, x);
      assert ScalePoly(p, c)[1..] == ScalePoly(p[1..], c);
      ScaleRearrange(c, p[0], x, EvalPoly(p[1..], x));
    }
  }

  /** Evaluation is a ring homomorphism for the product: (p q)(x) == p(x) q(x). */
  lemma {:induction false} EvalMulPoly(p: seq<Elem>, q: seq<Elem>, x: Elem)
    ensures EvalPoly(MulPoly(p, q), x) == Mul(EvalPoly(p, x), EvalPoly(q, x))
    decreases |p|
  {
    if p == [] {
      UnitLaws(EvalPoly(q, x));
    } else {
      var rest := MulPoly(p[1..], q);
      EvalMulPoly(p[1..], q, x);
      EvalScalePoly(q, p[0], x);
      EvalAddPoly(ScalePoly(q, p[0]), [0] + rest, x);
      assert ([0] + rest)[1..] == rest;
      UnitLaws(Mul(x, EvalPoly(rest, x)));
      assert Mul(p[0], EvalPoly(q, x)) == Mul(EvalPoly(q, x), p[0]);
      ProductRearrange(p[0], x, EvalPoly(p[1..], x), EvalPoly(q, x));
    }
  }

  /**
   * The pointwise product of the evaluations of p and q over d is the
   * evaluation of the product polynomial, which is what multiplying in
   * evaluation form is for.
   */
  lemma PointwiseProductEvaluatesProduct(d: Domain, p: seq<Elem>, q: seq<Elem>, i: nat)
    requires i < d.size
    ensures Evaluations(d, MulPoly(p, q))[i] == Mul(Evaluations(d, p)[i], Evaluations(d, q)[i])
  {
    EvalMulPoly(p, q, Element(d, i));
  }

  // ---------------------------------------------------------------------
  // Lemmas
  // ---------------------------------------------------------------------

  /** Scaling by the powers of g and then of its inverse gives the input back. */
  lemma ScaleThenUnscale(v: seq<Elem>, g: Elem, gi: Elem)
    requires Mul(g, gi) == 1
    ensures ScaledByPowers(ScaledByPowers(v, g, 1), gi, 1) == v
  {
    var w := ScaledByPowers(ScaledByPowers(v, g, 1), gi, 1);
    forall i | 0 <= i < |v|
      ensures w[i] == v[i]
    {
      UnitLaws(Pow(g, i));
      UnitLaws(Pow(gi, i));
      PowInverse(g, gi, i);
      MulAssoc(v[i], Pow(g, i), Pow(gi, i));
      UnitLaws(v[i]);
    }
  }

  /** Scaling commutes with zero padding. */
  lemma ScalePad(v: seq<Elem>, g: Elem, n: nat)
    requires |v| <= n
    ensures ScaledByPowers(Pad(v, n), g, 1) == Pad(ScaledByPowers(v, g, 1), n)
  {
    forall i | |v| <= i < n
      ensures Mul(0, Mul(1, Pow(g, i))) == 0
    {
      UnitLaws(Mul(1, Pow(g, i)));
    }
  }

  /** The coset IFFT undoes the coset FFT (up to zero padding). */
  lemma CosetRoundTrip(d: Domain, v: seq<Elem>)
    requires Valid(d) && |v| <= d.size
    ensures CosetIfft(d, CosetFft(d, v)) == Pad(v, d.size)
  {
    var g := MULTIPLICATIVE_GENERATOR;
    var gi := Inv(g);
    var s := ScaledByPowers(v, g, 1);
    assert d.ifft(d.fft(s)) == Pad(s, d.size);
    ScalePad(v, g, d.size);
    ScaleThenUnscale(Pad(v, d.size), g, gi);
  }

  /** The coset FFT undoes the coset IFFT (up to zero padding). */
  lemma CosetRoundTripInverse(d: Domain, e: seq<Elem>)
    requires Valid(d) && |e| <= d.size
    ensures CosetFft(d, CosetIfft(d, e)) == Pad(e, d.size)
  {
    var g := MULTIPLICATIVE_GENERATOR;
    var gi := Inv(g);
    var w := d.ifft(e);
    assert |w| == d.size && d.fft(w) == Pad(e, d.size);
    InverseUndoesScaling(w, g, gi);
  }

  lemma InverseUndoesScaling(w: seq<Elem>, g: Elem, gi: Elem)
    requires Mul(g, gi) == 1
    ensures ScaledByPowers(ScaledByPowers(w, gi, 1), g, 1) == w
  {
    assert Mul(gi, g) == 1;
    ScaleThenUnscale(w, gi, g);
  }

  /** Z vanishes on every element of the domain, so a sample with Z(t) != 0 is outside it. */
  lemma VanishesOnDomain(d: Domain, i: nat)
    requires Pow(d.groupGen, d.size) == 1
    ensures EvaluateVanishingPolynomial(d, Element(d, i)) == 0
  {
    PowPow(d.groupGen, i, d.size);
    PowPow(d.groupGen, d.size, i);
    assert i * d.size == d.size * i;
    PowOne(i);
    UnitLaws(1);
  }

  /** The sampled element differs from every element of the domain. */
  lemma SampleIsOutsideDomain(d: Domain, t: Elem, i: nat)
    requires Pow(d.groupGen, d.size) == 1
    requires EvaluateVanishingPolynomial(d, t) != 0
    ensures t != Element(d, i)
  {
    VanishesOnDomain(d, i);
  }
}
