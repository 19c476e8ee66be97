# Short Weierstrass Jacobian points and evaluation domains

A Dafny model of two pieces of an arkworks-style zkSNARK algebra library:

- **Short Weierstrass curve points** (`y^2 = x^3 + a x + b`) in affine form
  `(x, y, infinity)` and in Jacobian form `(X, Y, Z)`, where the triple stands for
  `(X/Z^2, Y/Z^3)` and every `Z = 0` triple is the identity. The model covers:
  - the curve-membership test and `get_point_from_x`;
  - negation and projective equality;
  - the doubling formulas (the `a = 0` fast path and the general `dbl-2007-bl`; the source's comment at line 537 labels the general branch `dbl-2009-l`, which is the name of the a = 0 formula);
  - mixed addition (`madd-2007-bl`) and full addition (`add-2007-bl`), together with subtraction;
  - double-and-add scalar multiplication over big-endian bits, and the cofactor and subgroup checks;
  - batch normalization;
  - compressed and uncompressed (de)serialization, including the flag logic;
  - `from_random_bytes`.
- **Evaluation domains**: the default methods of the `EvaluationDomain` trait. The model covers:
  - powers distribution, both the sequential and the chunked parallel version;
  - coset FFT and IFFT, both in place and copying;
  - sampling an element outside the domain;
  - division by the vanishing polynomial on the coset;
  - re-indexing by a subdomain;
  - pointwise multiplication of evaluations.

Module `Field` supplies the prime field the code is generic over. It is instantiated with `F_13`, whose multiplicative generator is 2. Ring identities are proved once there, by reduction to integer identities (`Cong`). Module `ShortWeierstrassJacobian` holds the curve. The curve coefficients, scalar modulus and cofactor are a `Parameters` value, so every branch on `a = 0` stays live. The in-place Jacobian operations are methods of class `ProjectivePoint` and are proved equal to specification functions (`Doubled`, `MixedSum`, `Sum`). Lemmas then relate those functions to each other (mixed against full addition, the fast against the general doubling) and to projective equality, negation and the identity. That the group law respects projective equality or keeps points on the curve is not proved. Module `EvaluationDomain` keeps the FFT/IFFT abstract: a `Domain` carries them as functions, and `Valid` says each undoes the other up to zero padding.

## Model

| member | source | states |
|---|---|---|
| Field.Inv | algebra/ec/src/models/short_weierstrass_jacobian.rs:778-779 | a nonzero Z has an inverse, and the result really is one (Z * Z^-1 == 1) and is nonzero |
| Field.Sqrt | algebra/ec/src/models/short_weierstrass_jacobian.rs:110-112 | a square root exists exactly when the result is Some, and the result squares to the input |
| Field.BatchInversion | algebra/ec/src/models/short_weierstrass_jacobian.rs:487-488 | batch inversion keeps the length, inverts every nonzero entry and leaves zeros as zero |
| Field.BatchProductInPlace | algebra/poly/src/domain/mod.rs:229-230 | each entry becomes its old value times the matching entry of the other vector |
| Field.CrossMultiplyIff | algebra/ec/src/models/short_weierstrass_jacobian.rs:365-374 | the cross-multiplied comparison used by projective equality holds exactly when the two quotients are equal |
| ShortWeierstrassJacobian.GetPointFromX | algebra/ec/src/models/short_weierstrass_jacobian.rs:108-118 | None exactly when x^3+ax+b has no square root. Otherwise the result is a finite point with that x on the curve, and it carries the largest root when `greatest` is set and the smallest root when it is not |
| ShortWeierstrassJacobian.ProjectivePoint.constructor | algebra/ec/src/models/short_weierstrass_jacobian.rs:420-427 | the new cell holds the given triple |
| ShortWeierstrassJacobian.ProjectivePoint.DoubleInPlace | algebra/ec/src/models/short_weierstrass_jacobian.rs:502-568 | after the call the cell holds the doubling of its old value: identity kept, the a = 0 formula when a is zero, and dbl-2007-bl otherwise |
| ShortWeierstrassJacobian.ProjectivePoint.AddAssignMixed | algebra/ec/src/models/short_weierstrass_jacobian.rs:570-638 | after the call the cell holds the mixed sum with the affine point. Adding the identity keeps the cell. Adding to the identity loads (x, y, 1). Coinciding points double |
| ShortWeierstrassJacobian.ProjectivePoint.AddAssign | algebra/ec/src/models/short_weierstrass_jacobian.rs:667-728 | after the call the cell holds the Jacobian sum. Identities are absorbed. Points that are equal as projective points double |
| ShortWeierstrassJacobian.ProjectivePoint.SubAssign | algebra/ec/src/models/short_weierstrass_jacobian.rs:742-744 | after the call the cell holds the sum with the negated operand |
| ShortWeierstrassJacobian.AffineAddAssign | algebra/ec/src/models/short_weierstrass_jacobian.rs:160-164 | affine addition goes through the mixed Jacobian sum and back to affine |
| ShortWeierstrassJacobian.AffineSubAssign | algebra/ec/src/models/short_weierstrass_jacobian.rs:249-251 | affine subtraction is addition of the affine negation |
| ShortWeierstrassJacobian.MulBits | algebra/ec/src/models/short_weierstrass_jacobian.rs:90-100 | the leading-zero-skipping double-and-add loop computes the big-endian double-and-add fold of the bits |
| ShortWeierstrassJacobian.MulScalar | algebra/ec/src/models/short_weierstrass_jacobian.rs:200-203 | multiplication by n is the fold over n's big-endian bits |
| ShortWeierstrassJacobian.ScaleByCofactor | algebra/ec/src/models/short_weierstrass_jacobian.rs:83-86 | cofactor scaling is multiplication by the cofactor's bits |
| ShortWeierstrassJacobian.IsInCorrectSubgroupAssumingOnCurve | algebra/ec/src/models/short_weierstrass_jacobian.rs:131-134 | true exactly when the point times the scalar-field characteristic is the identity |
| ShortWeierstrassJacobian.BatchNormalization | algebra/ec/src/models/short_weierstrass_jacobian.rs:480-500 | normalized entries are untouched. Every other entry becomes (X/Z^2, Y/Z^3, 1). Every entry ends normalized and equal, as a projective point, to its old value |
| ShortWeierstrassJacobian.Deserialize | algebra/ec/src/models/short_weierstrass_jacobian.rs:860-873 | the infinity flag yields the identity. Any other accepted point is finite, keeps the encoded x, lies on the curve and is in the prime-order subgroup |
| ShortWeierstrassJacobian.DeserializeUncompressed | algebra/ec/src/models/short_weierstrass_jacobian.rs:876-885 | as written: accepts exactly when the unchecked point passes the subgroup test, and returns that point unchanged |
| ShortWeierstrassJacobian.DeserializeUncompressedChecked | algebra/ec/src/models/short_weierstrass_jacobian.rs:876-894 | corrected: accepts exactly when the unchecked point is on the curve and in the subgroup |
| ShortWeierstrassJacobian.FromRandomBytes | algebra/ec/src/models/short_weierstrass_jacobian.rs:185-197 | an unreadable element gives None. With the infinity flag the result is the identity exactly when x = 0, and None otherwise. Without it the result is GetPointFromX at x, taking the larger root exactly for PositiveY; every result is on the curve |
| ShortWeierstrassJacobian.IsOnCurve | algebra/ec/src/models/short_weierstrass_jacobian.rs:120-129 | definition: the identity is on the curve, and a finite point is when y^2 = x^3 + ax + b; what it means for decoding is stated by GetPointFromX, Deserialize and the round-trip lemmas |
| ShortWeierstrassJacobian.IsNormalized | algebra/ec/src/models/short_weierstrass_jacobian.rs:475-477 | definition: a Z = 0 triple or Z = 1; its use is stated by BatchNormalization and NormalizationPreservesPoint |
| ShortWeierstrassJacobian.Eq | algebra/ec/src/models/short_weierstrass_jacobian.rs:354-375 | definition of projective equality exactly as the source compares; its meaning is stated by EqIffSameAffine and EqIsEquivalence |
| ShortWeierstrassJacobian.AffineNegated | algebra/ec/src/models/short_weierstrass_jacobian.rs:215-226 | the identity is kept; a finite point keeps x and gets the y with y + (-y) == 0 |
| ShortWeierstrassJacobian.Negated | algebra/ec/src/models/short_weierstrass_jacobian.rs:641-652 | Z = 0 triples are left unchanged; otherwise X and Z are kept and Y becomes its additive inverse |
| ShortWeierstrassJacobian.FromAffine | algebra/ec/src/models/short_weierstrass_jacobian.rs:755-764 | the result is normalized, is the identity exactly for the infinity point, and otherwise carries (x, y) with Z = 1 |
| ShortWeierstrassJacobian.ToAffine | algebra/ec/src/models/short_weierstrass_jacobian.rs:768-790 | the result is the affine identity exactly for Z = 0; otherwise multiplying back by Z^2 and Z^3 gives X and Y, so the result is (X/Z^2, Y/Z^3) |
| ShortWeierstrassJacobian.Serialize | algebra/ec/src/models/short_weierstrass_jacobian.rs:795-804 | the infinity flag is set exactly for the identity, which is written with x = 0; a finite point is written as its x with PositiveY exactly when y > -y. CompressedRoundTrip is its inverse |
| ShortWeierstrassJacobian.SerializeUncompressed | algebra/ec/src/models/short_weierstrass_jacobian.rs:813-822 | both coordinates are written, with the infinity flag exactly for the identity. UncompressedRoundTrip is its inverse |
| ShortWeierstrassJacobian.DeserializeUnchecked | algebra/ec/src/models/short_weierstrass_jacobian.rs:888-894 | both coordinates are taken as read, and the point is infinite exactly when the infinity flag is set; nothing is checked |
| ShortWeierstrassJacobian.SerializeProjective | algebra/ec/src/models/short_weierstrass_jacobian.rs:833-836 | the identity is flagged as infinity; a finite triple is written with the affine x, so x * Z^2 == X |
| ShortWeierstrassJacobian.SerializeProjectiveUncompressed | algebra/ec/src/models/short_weierstrass_jacobian.rs:846-849 | the identity is flagged as infinity; a finite triple is written as (X/Z^2, Y/Z^3) |
| ShortWeierstrassJacobian.DeserializeProjective | algebra/ec/src/models/short_weierstrass_jacobian.rs:899-903 | accepts exactly what the affine decoder accepts, and returns a normalized triple whose affine image is the decoded point |
| ShortWeierstrassJacobian.DeserializeProjectiveUncompressed | algebra/ec/src/models/short_weierstrass_jacobian.rs:905-909 | decodes through the corrected decoder, not through the as-written `deserialize_uncompressed` it calls in the source. Accepts exactly when the read point is on the curve and in the subgroup, and returns a normalized triple for it |
| ShortWeierstrassJacobian.DeserializeProjectiveUnchecked | algebra/ec/src/models/short_weierstrass_jacobian.rs:911-914 | a normalized triple that is the identity exactly when the infinity flag is set, and otherwise has the read point as its affine image |
| ShortWeierstrassJacobian.ProjectiveUncompressedRoundTrip | algebra/ec/src/models/short_weierstrass_jacobian.rs:846-914 | every Jacobian point survives uncompressed encoding and unchecked decoding up to projective equality. For a point on the curve, the checked Jacobian decoder accepts exactly when the point is in the subgroup, and whatever it accepts equals the point |
| ShortWeierstrassJacobian.AffineRoundTrip | algebra/ec/src/models/short_weierstrass_jacobian.rs:757-789 | converting affine to Jacobian and back returns the point; every infinity point returns as the canonical identity |
| ShortWeierstrassJacobian.ToAffineOfFinite | algebra/ec/src/models/short_weierstrass_jacobian.rs:770-789 | a finite triple maps to (X/Z^2, Y/Z^3), including the Z = 1 shortcut |
| ShortWeierstrassJacobian.EqIffSameAffine | algebra/ec/src/models/short_weierstrass_jacobian.rs:355-375 | projective equality holds exactly when both triples denote the same affine point |
| ShortWeierstrassJacobian.EqIsEquivalence | algebra/ec/src/models/short_weierstrass_jacobian.rs:353-375 | projective equality is reflexive, symmetric and transitive (the `Eq` impl is sound) |
| ShortWeierstrassJacobian.NormalizationPreservesPoint | algebra/ec/src/models/short_weierstrass_jacobian.rs:475-500 | normalizing through affine gives a normalized triple equal to the original. A finite normalized triple comes back unchanged, which is why batch normalization may skip it; every Z = 0 triple comes back as the canonical identity |
| ShortWeierstrassJacobian.NegationLaws | algebra/ec/src/models/short_weierstrass_jacobian.rs:219-225 | negation is an involution on both forms, fixes the identity, and commutes with both coordinate conversions (also 645-651) |
| ShortWeierstrassJacobian.NegationPreservesCurve | algebra/ec/src/models/short_weierstrass_jacobian.rs:219-225 | the negation of a point on the curve is on the curve |
| ShortWeierstrassJacobian.IdentityLaws | algebra/ec/src/models/short_weierstrass_jacobian.rs:570-579 | the identity doubles to the identity and is a left unit of Sum and a right unit of MixedSum and of AffineSum. The last two hold on both sides (also 667-676) |
| ShortWeierstrassJacobian.DoubleFastPathAgrees | algebra/ec/src/models/short_weierstrass_jacobian.rs:507-567 | when a = 0 the fast doubling formula (dbl-2009-l) and the general one (dbl-2007-bl) give the same triple |
| ShortWeierstrassJacobian.CoincideIffEq | algebra/ec/src/models/short_weierstrass_jacobian.rs:697-700 | the u1 == u2 && s1 == s2 test inside add_assign is exactly projective equality of finite points |
| ShortWeierstrassJacobian.SumOfEqualPointsDoubles | algebra/ec/src/models/short_weierstrass_jacobian.rs:697-700 | adding a point equal to a finite p yields the doubling of p |
| ShortWeierstrassJacobian.SumWithSelfDoubles | algebra/ec/src/models/short_weierstrass_jacobian.rs:667-700 | p + p is the doubling of p, for every triple |
| ShortWeierstrassJacobian.MixedSumAgreesWithSum | algebra/ec/src/models/short_weierstrass_jacobian.rs:570-638 | mixed addition gives the same triple as full addition with (x, y, 1). When both operands are identities, both results are the identity |
| ShortWeierstrassJacobian.SumWithNegationIsZero | algebra/ec/src/models/short_weierstrass_jacobian.rs:645-728 | p + (-p) is the identity for every triple |
| ShortWeierstrassJacobian.AffineSumWithNegationIsZero | algebra/ec/src/models/short_weierstrass_jacobian.rs:160-164 | a + (-a) is the affine identity |
| ShortWeierstrassJacobian.BitsRoundTrip | algebra/ec/src/models/short_weierstrass_jacobian.rs:200-203 | the big-endian bit decomposition of n reads back as n |
| ShortWeierstrassJacobian.AllZeroBitsGiveZero | algebra/ec/src/models/short_weierstrass_jacobian.rs:90-100 | multiplying by an all-zero bit string gives the identity |
| ShortWeierstrassJacobian.LeadingZerosIgnored | algebra/ec/src/models/short_weierstrass_jacobian.rs:93-94 | skipping leading zero bits does not change the product |
| ShortWeierstrassJacobian.MultipleOfIdentity | algebra/ec/src/models/short_weierstrass_jacobian.rs:90-100 | every multiple of the identity is the identity |
| ShortWeierstrassJacobian.IdentityInCorrectSubgroup | algebra/ec/src/models/short_weierstrass_jacobian.rs:131-134 | the identity passes the subgroup check |
| ShortWeierstrassJacobian.CompressedRoundTrip | algebra/ec/src/models/short_weierstrass_jacobian.rs:795-873 | decoding a compressed curve point gives back the identity, the point itself when it is in the subgroup, or InvalidData otherwise |
| ShortWeierstrassJacobian.UncompressedRoundTrip | algebra/ec/src/models/short_weierstrass_jacobian.rs:813-894 | unchecked decoding inverts uncompressed encoding. The checked decoder returns the point exactly when it is in the subgroup |
| ShortWeierstrassJacobian.ProjectiveRoundTrip | algebra/ec/src/models/short_weierstrass_jacobian.rs:833-903 | a Jacobian point on the curve and in the subgroup (or the identity) survives compressed encoding and decoding up to projective equality |
| ShortWeierstrassJacobian.UncompressedCheckedRoundTrip | algebra/ec/src/models/short_weierstrass_jacobian.rs:813-885 | for points on the curve, the corrected decoder round-trips and agrees with the as-written one |
| ShortWeierstrassJacobian.UncompressedAcceptsPointOffCurve | algebra/ec/src/models/short_weierstrass_jacobian.rs:876-885 | on the toy curve, the as-written decoder accepts (2, 1), which is off the curve, and the corrected decoder rejects it |
| ShortWeierstrassJacobian.ToyMultiples | algebra/ec/src/models/short_weierstrass_jacobian.rs:90-100 | seven times (2, 1) under the group-law formulas is a Z = 0 triple |
| EvaluationDomain.SizeAsFieldElement | algebra/poly/src/domain/mod.rs:66-68 | the result is the domain size reduced into the field |
| EvaluationDomain.DistributePowersAndMulByConst | algebra/poly/src/domain/mod.rs:98-106 | entry i becomes its old value times c*g^i |
| EvaluationDomain.DistributePowersAndMulByConstParallel | algebra/poly/src/domain/mod.rs:109-126 | splitting into chunks of max(len/threads, 1024), each with its own offset c*g^(chunk start), gives the same result as the sequential loop |
| EvaluationDomain.DistributePowers | algebra/poly/src/domain/mod.rs:93-95 | entry i becomes its old value times g^i (the constant is 1) |
| EvaluationDomain.Vector.constructor | algebra/poly/src/domain/mod.rs:72-76 | `to_vec` copies the slice into a fresh buffer |
| EvaluationDomain.Vector.FftInPlace | algebra/poly/src/domain/mod.rs:79 | the vector is replaced by the domain's FFT of its old contents |
| EvaluationDomain.Vector.IfftInPlace | algebra/poly/src/domain/mod.rs:90 | the vector is replaced by the domain's IFFT of its old contents |
| EvaluationDomain.Vector.CosetFftInPlace | algebra/poly/src/domain/mod.rs:139-142 | distributing powers of the multiplicative generator and then running the FFT gives the coset FFT |
| EvaluationDomain.Vector.CosetIfftInPlace | algebra/poly/src/domain/mod.rs:155-158 | the IFFT followed by distributing powers of the generator's inverse gives the coset IFFT |
| EvaluationDomain.Fft | algebra/poly/src/domain/mod.rs:72-76 | the copying FFT returns the FFT of the input and leaves the input alone |
| EvaluationDomain.Ifft | algebra/poly/src/domain/mod.rs:83-87 | the copying IFFT returns the IFFT of the input |
| EvaluationDomain.CosetFftCopy | algebra/poly/src/domain/mod.rs:130-134 | the copying coset FFT returns the coset FFT of the input |
| EvaluationDomain.CosetIfftCopy | algebra/poly/src/domain/mod.rs:146-150 | the copying coset IFFT returns the coset IFFT of the input |
| EvaluationDomain.SampleElementOutsideDomain | algebra/poly/src/domain/mod.rs:38-52 | the sampler returns the first draw, from the public or the private stream, at which the vanishing polynomial is nonzero. Every earlier draw vanished |
| EvaluationDomain.SampleIsOutsideDomain | algebra/poly/src/domain/mod.rs:37-52 | an element at which the vanishing polynomial is nonzero is not a domain element |
| EvaluationDomain.VanishesOnDomain | algebra/poly/src/domain/mod.rs:170-176 | the vanishing polynomial is zero at every domain element |
| EvaluationDomain.DivideByVanishingPolyOnCosetInPlace | algebra/poly/src/domain/mod.rs:184-191 | every evaluation is multiplied by Z(g)^-1, so multiplying back by Z(g) restores the old value |
| EvaluationDomain.ReindexBySubdomain | algebra/poly/src/domain/mod.rs:196-218 | an index of the subdomain maps to index*period, a multiple of the period inside the domain. Any other index maps to a non-multiple of the period. With exact division, the result stays inside the domain |
| EvaluationDomain.ReindexInjective | algebra/poly/src/domain/mod.rs:196-218 | distinct indices map to distinct positions |
| EvaluationDomain.ReindexNotMultiple | algebra/poly/src/domain/mod.rs:214-216 | the complement formula i + i/x + 1 lands in block i/x at offset i mod x + 1, never on a subdomain slot |
| EvaluationDomain.MulPolynomialsInEvaluationDomain | algebra/poly/src/domain/mod.rs:227-232 | equal-length evaluation vectors are multiplied entry by entry |
| EvaluationDomain.EvalAddPoly | algebra/poly/src/domain/mod.rs:220-226 | evaluation distributes over coefficient-wise addition |
| EvaluationDomain.EvalScalePoly | algebra/poly/src/domain/mod.rs:220-226 | evaluation commutes with scaling by a constant |
| EvaluationDomain.EvalMulPoly | algebra/poly/src/domain/mod.rs:220-226 | the product polynomial evaluates to the product of the evaluations |
| EvaluationDomain.PointwiseProductEvaluatesProduct | algebra/poly/src/domain/mod.rs:220-232 | multiplying two evaluation vectors entry by entry gives the evaluation vector of the product polynomial (`Evaluations`, the values at the domain elements, is the reference definition) |
| EvaluationDomain.ScaleThenUnscale | algebra/poly/src/domain/mod.rs:139-158 | distributing powers of g and then of g^-1 is the identity |
| EvaluationDomain.CosetRoundTrip | algebra/poly/src/domain/mod.rs:130-158 | on a valid domain, the coset IFFT undoes the coset FFT up to zero padding |
| EvaluationDomain.CosetRoundTripInverse | algebra/poly/src/domain/mod.rs:130-158 | on a valid domain, the coset FFT undoes the coset IFFT up to zero padding |

## Left out

- Byte encodings are not modelled. This covers field elements, the placement of the flag bits, `serialized_size` and `uncompressed_size`. Decoders start from the already-parsed (element, flags) values, and a read failure is the `None` input of `FromRandomBytes`.
- The field is the concrete prime field F_13, not a generic `PrimeField`. Big-integer scalars, `BitIteratorBE` over limbs and `COFACTOR` limb arrays become natural numbers and their bit sequences.
- The `DomainCoeff` coefficient type `T` is specialised to field elements.
- The FFT and IFFT are supplied by the concrete domain type and are abstract here. `Valid` states only their inverse relationship and output length.
- `EvaluationDomain.EvaluateVanishingPolynomial` fixes the vanishing polynomial to X^n - 1 of a multiplicative subgroup. In the trait it is abstract.
- Rayon threads are not modelled. The parallel powers distribution runs its chunks in order, and the thread count is a parameter.
- The random number generator is not modelled. It becomes the sequence of field elements it would produce, one public and one private stream.
- `EvaluationDomain.SampleElementOutsideDomain` requires that some draw lies outside the domain. The source loops until one does, and a stream that never produces one does not terminate.
- Panics become preconditions:
  - `Inv` needs a nonzero input, because of the `unwrap` on the inverse;
  - `ReindexBySubdomain` needs the size assertion and a period of at least 2 off the subdomain, because it divides by `period - 1`;
  - `MulPolynomialsInEvaluationDomain` needs equal lengths;
  - `DivideByVanishingPolyOnCosetInPlace` needs a nonzero Z(g), again because of an `unwrap`.
- `EvaluationDomain.Element` fixes `element(i)` to g^i, where g is the domain's generator. In the trait it is abstract. `size` is the `size` field of `Domain`.
- Not modelled: `new`, `compute_size_of_domain`, `elements`, `evaluate_all_lagrange_coefficients` and `vanishing_polynomial`. They are abstract members of the trait, with no default behaviour to model.
- Not modelled: `prime_subgroup_generator`, `mul_by_cofactor_inv` and `MulAssign`. These depend on curve constants and scalar-field inversion that no concrete curve here provides.
- Not modelled: `Zeroize`, `Display`, `ToBytes`/`FromBytes`, `Distribution` sampling, `ToConstraintField`, `Hash` and `Default`. They are formatting, I/O and randomness wrappers with no algebraic content.
- `ShortWeierstrassJacobian.Deserialize`: a compressed encoding with the infinity flag decodes to the identity whatever x it carries. The source does not check that x is zero, and the model follows the source.
- `ShortWeierstrassJacobian.DeserializeProjectiveUncompressed` decodes through the corrected decoder `DeserializeUncompressedChecked`, not the as-written one (see Findings).
- `Field.BatchInversion` specifies `batch_inversion`, the library routine that `batch_normalization` calls, by its result only. Its prefix-product algorithm is not part of this model.

## Findings

| source | as written | input that shows it | evidently intended | confidence | as-written member | corrected member |
|---|---|---|---|---|---|---|
| algebra/ec/src/models/short_weierstrass_jacobian.rs:876-885 | `deserialize_uncompressed` accepts any point that passes `is_in_correct_subgroup_assuming_on_curve`, and never checks the curve equation that this test assumes | toy curve y^2 = x^3 + 7 over F_13 with scalar modulus 7, encoding (x = 2, y = 1, default flags): (2, 1) is not on the curve, but seven times it is Z = 0 under the group-law formulas, so it is accepted | reject points that are not on the curve before the subgroup test | medium, not executed | ShortWeierstrassJacobian.UncompressedAcceptsPointOffCurve | ShortWeierstrassJacobian.DeserializeUncompressedChecked |
