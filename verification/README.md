# Arithmetic and constraint kernels, verified

A Dafny model of the arithmetic and constraint kernels of HSMA and proofs of what they promise.
`dafny verify dfyconfig.toml` checks the whole project. Nothing was executed: the statements are
about the model, which follows the sources cited in the table branch by branch.

| part | modules | what is proved |
|---|---|---|
| multi-limb Montgomery field | `IntegerLaws`, `Congruence`, `PrimeField`, `FieldOps`, `Bignum`, `BitScan`, `MontgomeryContext`, `MontgomeryDomain`, `MontgomeryProduct`, `MontgomeryField` | limb loops refine integers modulo m for every odd m below 2^383 |
| square roots | `SquareRoot`, `TonelliField`, `TowerSquareRoot` | Tonelli-Shanks over integers and in the Montgomery domain, the norm method over the quadratic extension |
| elliptic curves | `AffineCurve`, `ChordLaw`, `Jacobian`, `Ladder`, `CurveTool`, `Pasta`, `BatchNormalize`, `PointEncoding` | every adder, ladder, normalisation and encoding against the affine chord-and-tangent law |
| twist bridge | `QuadraticExtension`, `TwistBridge`, `TwistChords`, `TwistClosure`, `TwistLadder` | a field map and a point map between two towers that commute with everything |
| Poseidon and its constraints | `R1cs`, `ConstraintBuilder`, `ConstraintLists`, `Poseidon`, `PoseidonRounds`, `PoseidonGadget`, `GadgetBuilder`, `GadgetAgreement`, `MdsMatrix`, `LiveGadget`, `LiveExact`, `LiveBuilder`, `Sponge` | what the emitted rows force, in both directions, and when that is the reference permutation |
| folding | `Folding`, `FoldingEngine`, `FoldTranscript`, `CommitmentFold` | the residual law of relaxed instances, chains and folding at once, the epoch loop, what the challenges are drawn from, the commitment fold |
| matrix products | `Gemm`, `MatrixProduct`, `GemmBuilder`, `GemmWitness` | the rows hold for some products exactly when C = A x B |
| scratch accumulator | `Scratch127` | saturation, counters, exact dot products, ties-to-even requantisation |

Limb arrays, accumulators, the constraint builder, the sponge and the counters are updated in place
as in the sources; each such method is tied to a function of the old state, and the theorems are
about those functions. What such a function computes is also stated without it: sums of points by
chords and tangents, permutations and sponges by their runs, commitments and products by their
values, bytes by digits, saturation by nearest values. Field elements outside the limb layer are integers modulo a parameter p,
prime where the property needs a field. A power loop or a formula of field operations is related to
integer polynomials by congruence.

Results where the code differs from what it or its documentation promises:

- The attic Poseidon gadget overwrites the lane-1 wire of a partial round before its third mix row
  reads it (`attic/p1cs.hpp:276-291`), so its rows force a different permutation than the reference
  its header names. `GadgetBuilder.Poseidon3R1cs` states what they do force,
  `GadgetAgreement.GadgetExact` when that is the reference, and `MdsMatrix.GadgetCounterexample` a
  failing input.
- The gadget in use mixes correctly, but its rows leave the wires that carry the round constants
  free (`include/hsma/poseidon_r1cs.hpp:191-199`): `LiveGadget.LiveSound` needs those wires pinned,
  `LiveGadget.LiveComplete` shows that the rows accept any values on them, and
  `LiveExact.LiveForcesExact` that the rows by themselves force the reference output only when
  there is no round; `LiveExact.LiveCounterexample` is a satisfying assignment with another output.
- Compressed encoding loses exactly the points (0, y) with even nonzero y
  (`PointEncoding.DecodeEncode`, and `PointEncoding.EncodingLoses` for one of them); curves whose b
  is a non-square have none.
- `fq_sqrt` returns None for nonzero multiples of p although their residue is a square, and
  `f2_sqrt` returns None for zero and for the squares -5y^2 (`SquareRoot.FqSqrt`,
  `TowerSquareRoot.F2Sqrt`). The comment on `f2_sqrt` names u^2 = +5; the code multiplies with -5,
  which is what is modelled.
- The product of an int64 and an int32 reaches 2^94 (`libhsma_numcore/scratch127.hpp:43` says it
  stays below) at exactly one pair of factors (`Scratch127.TermReaches`); dot products of n pairs
  are still exact exactly for n below 2^32 (`Scratch127.DotExactIff`).
- The padding of the sponge keeps messages apart without a bound on their length
  (`Sponge.StreamInjective`).

## Model

| member | source | states |
|---|---|---|
| Bignum.BnCmp | tools/bls_derive.cpp:26-29 | the order of the two numbers, as -1, 0 or 1 |
| Bignum.BnIsZero | tools/bls_derive.cpp:25 | true exactly for the number zero |
| Bignum.BnAdd | tools/bls_derive.cpp:30-34 | in place: sum plus carry times 2^(64n) is exact, the carry is a bit, limbs beyond n keep their value |
| Bignum.BnSub | tools/bls_derive.cpp:35-39 | in place: the difference, wrapped by 2^(64n) exactly when the borrow is set |
| Bignum.BnShr1 | tools/bls_derive.cpp:40-43 | in place: the number halved, rounding down |
| Bignum.BnMul | tools/bls_derive.cpp:44-53 | the double-length product, with the carry rippling past the row and never out of the buffer |
| Bignum.BnDivSmall | tools/bls_derive.cpp:54-58 | in place: old value = new value * d + remainder with remainder < d |
| Bignum.BnInc | tools/bls_derive.cpp:59 | in place: the successor, wrapping only from the all-ones number |
| Bignum.ValInjective | tools/bls_derive.cpp:23-29 | limb strings of one length with one value are equal, so comparing limbs compares numbers |
| BitScan.BnMod | tools/bls_derive.cpp:62-72 | the shift-subtract oracle: the low six limbs become the old n-limb value modulo m |
| BitScan.Pow2Mod | tools/bls_derive.cpp:88-96 | the doubling loop: 2^e modulo m |
| MontgomeryContext.NewtonIteration | tools/bls_derive.cpp:85 | one step x <- x(2 - m0*x) takes the valid 2-adic bits 3, 6, 12, 24, 48 to the next of the series, capped at 64 |
| MontgomeryContext.NewtonInv | tools/bls_derive.cpp:82-87 | for odd m0 five steps and a negation give n0 with m0*n0 = -1 modulo 2^64 |
| MontgomeryContext.InitCtx | tools/bls_derive.cpp:156-163 | for every m > 1 the n0 guard fires exactly for even m; otherwise n0, r1 = 2^384 mod m and rr = 2^768 mod m are right and, below 2^383, the context is valid |
| MontgomeryProduct.RedcStep | tools/bls_derive.cpp:107-118 | one reduction row over the 12-word buffer: the tail shifted down by a limb equals the old tail plus mi*m, including a carry c that the loop bound would drop |
| MontgomeryProduct.ReducingStep | tools/bls_derive.cpp:107-118 | that dropped carry is zero in every row, for every odd m < 2^383 and product below m*2^384 |
| MontgomeryProduct.Mmul | tools/bls_derive.cpp:98-122 | for one factor below m: the unique value below m congruent to a*b*2^-384, after one conditional subtraction |
| MontgomeryDomain.DecChar | tools/bls_derive.cpp:137-143 | decoding is characterised: the one residue v with x = v*2^384 modulo m |
| MontgomeryDomain.DecInjective | tools/bls_derive.cpp:135-143 | reduced limb strings that decode alike are equal |
| MontgomeryField.Madd | tools/bls_derive.cpp:123-128 | addition modulo m, on the limbs and on the decoded values |
| MontgomeryField.Msub | tools/bls_derive.cpp:129-134 | subtraction modulo m, on the limbs and on the decoded values |
| MontgomeryField.Mfrom | tools/bls_derive.cpp:135 | encodes any six-limb number: the result decodes to its residue |
| MontgomeryField.Mto | tools/bls_derive.cpp:136-143 | multiplication by raw one returns exactly the decoded value |
| MontgomeryField.Mpow | tools/bls_derive.cpp:144-153 | the 384-bit ladder decodes to a^e modulo m for every exponent |
| MontgomeryField.RoundTrip | tools/bls_derive.cpp:286-290 | mto(mfrom a) = a for every a < m |
| MontgomeryField.OracleMul | tools/bls_derive.cpp:323-331 | mto(mmul(mfrom a, mfrom b)) equals the shift-subtract oracle limb for limb, for all a and b |
| PrimeField.Fermat | tools/bls_derive.cpp:302-306 | a^(p-1) = 1 modulo a prime, for every a it does not divide |
| PrimeField.InvCorrect | scripts/bridge_final.py:15 | the modular inverse of a non-multiple of p exists, is reduced and inverts |
| PrimeField.NonResidueExists | scripts/bridge_final.py:34-35 | some z below an odd prime has half power -1, so the search for it ends |
| SquareRoot.TonelliStart | scripts/bridge_final.py:36 | the starting values satisfy the loop invariant |
| SquareRoot.TonelliRound | scripts/bridge_final.py:37-42 | a round keeps R^2 = t*n, c^(2^(M-1)) = -1, t^(2^(M-1)) = 1 and lowers M to the order exponent of t |
| SquareRoot.TwoOrder | scripts/bridge_final.py:38-40 | the inner loop finds the least i with t^(2^i) = 1, and it is below M |
| SquareRoot.SplitOdd | scripts/bridge_final.py:32-33 | splits p - 1 into an odd part and a power of two |
| SquareRoot.FindNonResidue | scripts/bridge_final.py:34-35 | the least Z from 2 on with half power -1: no smaller number passes the test; the loop ends below p |
| SquareRoot.FqSqrt | scripts/bridge_final.py:24-43 | terminates for every odd prime; what it returns squares to n, and it returns None exactly for non-residues and for nonzero multiples of p |
| SquareRoot.FqSqrtAtModulus | scripts/bridge_final.py:24-30 | the smallest refused square: p itself, for every odd prime |
| TonelliField.TwoAdicity | tools/bls_derive.cpp:213-215 | the halving loop: odd part and exponent up to 100, the guard only beyond |
| TonelliField.FindWitness | tools/bls_derive.cpp:231-239 | finds a number up to 513 whose half power is not 1, or there is none |
| TonelliField.HalfPowerRoot | tools/bls_derive.cpp:307-313 | Euler's criterion: half power 1 means a square |
| TonelliField.OrderOf | tools/bls_derive.cpp:254-256 | the exact 2-adic order exponent of t, or the guard when it exceeds 100 |
| TonelliField.TonelliQ | tools/bls_derive.cpp:229-265 | with 2-adicity at most 100 (46 in the field of the curve) and a non-residue in reach: a root for every square and the order-violation exit for every non-square; the convergence guard never fires for any field |
| AffineCurve.SlopeIsSlope | scripts/bridge_final.py:94-98 | off the third branch the quotient is the slope of the chord, or of the tangent at a double point |
| AffineCurve.AddOnCurve | scripts/bridge_final.py:90-101 | chord-and-tangent addition stays on y^2 = x^3 + b |
| AffineCurve.AddCommutes | scripts/bridge_final.py:90-101 | and commutes |
| ChordLaw.AddChord | scripts/bridge_final.py:90-101 | where the abscissae differ, R is the sum exactly when x_R + x_P + x_Q is the square of the chord's slope and -R lies on the chord, stated without a quotient |
| ChordLaw.AddTangent | scripts/bridge_final.py:90-101 | the same for doubling, with the tangent |
| ChordLaw.AddOpposite | scripts/bridge_final.py:90-101 | the sum is infinity exactly for opposite points, and infinity is the unit |
| Jacobian.RepToAffine | tools/bls_derive.cpp:342-343 | every reduced triple represents the affine point X/Z^2, Y/Z^3, or infinity when Z = 0 |
| Jacobian.RepUnique | tools/bls_derive.cpp:342-343 | a triple represents at most one affine point |
| Jacobian.ToAffineScaled | tools/bls_derive.cpp:342-343 | (x*l^2, y*l^3, l) normalises to (x, y) for every nonzero l, and Z = 0 to infinity |
| Jacobian.RepOnCurve | tools/bls_derive.cpp:342-343 | Y^2 = X^3 + b*Z^6 exactly when the represented point is on the curve |
| Jacobian.JacDblRep | tools/bls_derive.cpp:344-363 | the doubling formulas represent P + P for any Z, with infinity and y = 0 going to infinity |
| Jacobian.JacAddRep | tools/bls_derive.cpp:364-383 | the addition formulas represent P + Q in every branch: infinity on either side, P + P, P + (-P), general |
| Jacobian.JacobianRefines | tools/bls_derive.cpp:344-383 | hence the normalised results are the affine sums and are on the curve |
| Jacobian.JacobianKeeps | tools/bls_derive.cpp:344-383 | operands with Y^2 = X^3 + b*Z^6 have results with it, Z = 0 included on either side |
| CurveTool.PisInf | tools/bls_derive.cpp:343 | the limb test decides Z = 0 |
| CurveTool.EqualFe | tools/bls_derive.cpp:372 | limb equality decides equality of field values |
| CurveTool.Pdbl | tools/bls_derive.cpp:344-363 | the limb routine computes the decoded doubling formulas |
| CurveTool.Padd | tools/bls_derive.cpp:364-383 | the limb routine computes the decoded addition formulas |
| CurveTool.LadderBit | tools/bls_derive.cpp:389-392 | one bit takes the h-fold sum to the (2h + bit)-fold sum |
| CurveTool.Pmul | tools/bls_derive.cpp:384-395 | the 384-bit ladder computes the k-fold sum for every k, given that the affine law associates |
| Ladder.TimesAdd | scripts/bridge_final.py:102-107 | (i + j) copies of a point sum to the sum of i and of j copies, for any associative law with unit |
| Ladder.DoubleAndAdd | tools/bls_derive.cpp:390-391 | the step of a ladder from the top bit |
| Ladder.HalveAndAdd | scripts/bridge_final.py:104-106 | the step of a ladder from the bottom bit |
| Pasta.DoubleRep | attic/ref_pasta_pasta-curves.rs:788-819 | doubling of the a = 0 curves represents P + P |
| Pasta.AddJacRep | attic/ref_pasta_pasta-curves.rs:361-399 | Jacobian + Jacobian represents the affine sum |
| Pasta.AddMixedRep | attic/ref_pasta_pasta-curves.rs:405-441 | Jacobian + affine represents the affine sum |
| Pasta.AddAffineRep | attic/ref_pasta_pasta-curves.rs:524-556 | affine + affine represents the affine sum |
| Pasta.AddersRefine | attic/ref_pasta_pasta-curves.rs:361-441 | all three normalise to the affine sum of the points given |
| Pasta.AddersAgree | attic/ref_pasta_pasta-curves.rs:361-399 | on ct_eq-equal inputs the three results are pairwise ct_eq-equal |
| Pasta.CtEqIsEquality | attic/ref_pasta_pasta-curves.rs:287-305 | ct_eq holds exactly when the affine points are equal, hence is an equivalence |
| Pasta.ToEpAffineIs | attic/ref_pasta_pasta-curves.rs:210-223 | to_affine is the represented point, with (0, 0) for the identity |
| Pasta.ToCurveBack | attic/ref_pasta_pasta-curves.rs:210-223 | to_affine undoes to_curve and any other choice of Z |
| BatchNormalize.Normalize | attic/ref_pasta_pasta-curves.rs:173-208 | one inversion and two passes that skip identities leave to_affine of every entry, for any array and any placement of identities; slices of different length are refused untouched |
| BatchNormalize.Mul | attic/ref_pasta_pasta-curves.rs:464-490 | the ladder over the bits of the scalar's bytes, top bit skipped, computes the multiple by the number the other bits make, which is the scalar when that bit is clear; given that the affine law associates |
| BatchNormalize.BitOfRepr | attic/ref_pasta_pasta-curves.rs:478-484 | bit i of the little-endian bytes, taken byte by byte, is bit i of the number they encode |
| BatchNormalize.TopBitApart | attic/ref_pasta_pasta-curves.rs:478-484 | skipping the top bit subtracts 2^(8n - 1) when it is set and nothing otherwise |
| PointEncoding.EncodedBytes | attic/ref_pasta_pasta-curves.rs:668-679 | byte i is the digit of 256^i of x, and the top byte has 128 added exactly for an odd y, in a bit that x leaves clear |
| PointEncoding.DecodeEncode | attic/ref_pasta_pasta-curves.rs:638-679 | from_bytes(to_bytes(P)) = P for a curve point exactly unless P = (0, y) with y even and nonzero, whose bytes are those of the identity |
| PointEncoding.EncodingLoses | attic/ref_pasta_pasta-curves.rs:638-679 | such a point: (0, 2) on y^2 = x^3 + 4 over 11 elements |
| PointEncoding.DecodeEncodeAlways | attic/ref_pasta_pasta-curves.rs:638-679 | with b a non-square there is no such point and the round trip is unconditional |
| PointEncoding.EncodingInjective | attic/ref_pasta_pasta-curves.rs:668-679 | with b a non-square different points have different bytes |
| PointEncoding.EncodeDecode | attic/ref_pasta_pasta-curves.rs:638-661 | whatever decodes is a reduced curve point and re-encodes to the same bytes unless the sign bit was set on y = 0 |
| QuadraticExtension.SMulAssociates | scripts/bridge_final.py:12 | multiplication of pairs associates, for any square of the generator |
| QuadraticExtension.SInvCorrect | scripts/bridge_final.py:13-16 | with a non-residue as the square of the generator, every nonzero element has nonzero norm and the inverse inverts |
| QuadraticExtension.SMulNonzero | scripts/bridge_final.py:12 | and there are no zero divisors |
| QuadraticExtension.Generator | scripts/bridge_final.py:12 | the generator squares to beta and first coordinates act as scalars |
| TwistBridge.PhiAdds | scripts/bridge_final.py:82 | Phi preserves addition and subtraction |
| TwistBridge.PhiMultiplies | scripts/bridge_final.py:82 | Phi carries the product of the tower with u^2 = 5 to that of the tower with v^2 = -5 when s^2 = -1 |
| TwistBridge.PhiInjective | scripts/bridge_final.py:82 | Phi is injective |
| TwistBridge.PhiFixes | scripts/bridge_final.py:82 | Phi fixes first coordinates and sends u to s*v |
| TwistBridge.BothTowers | scripts/bridge_final.py:8 | when the tower with v^2 = -5 is a field and s^2 = -1, so is the tower with u^2 = 5 |
| TwistBridge.EAddNeverRaises | scripts/bridge_final.py:90-101 | on curve points the element e_add inverts is nonzero exactly when its third branch is not taken |
| TwistBridge.PsiOnTwist | scripts/bridge_final.py:85-88 | psi(x, y) = (Phi(x)w^2, Phi(y)w^3) is on the curve with b2 exactly when (x, y) is on the curve with b |
| TwistBridge.PsiInjective | scripts/bridge_final.py:85-86 | psi is injective on the curve |
| TwistBridge.PsiCoordinates | scripts/bridge_final.py:85-86 | the four coordinates of psi(P) as polynomials in those of P, s and w |
| TwistBridge.PsiAdds | scripts/bridge_final.py:90-101 | psi commutes with e_add in every branch |
| TwistChords.EAddChord | scripts/bridge_final.py:90-101 | where the abscissae differ, R is the e_add sum exactly when x_R + x_P + x_Q is the square of the chord's slope and -R lies on the chord, stated without a slope |
| TwistChords.EAddTangent | scripts/bridge_final.py:90-101 | the same for doubling, with the tangent |
| TwistChords.EAddOpposite | scripts/bridge_final.py:90-101 | the sum is infinity exactly for opposite points, and infinity is the unit |
| TwistClosure.EAddOnTwist | scripts/bridge_final.py:90-101 | e_add stays on the curve over the tower |
| TwistLadder.SPow | scripts/bridge_final.py:17-22 | the least-significant-bit-first loop computes a^e in the tower, with no hypothesis |
| TwistLadder.CubeRootByInverse | scripts/bridge_final.py:66-70 | raising c to the inverse of 3 modulo m is a cube root of c when c^m = 1 |
| TwistLadder.BridgeFromRoots | scripts/bridge_final.py:62-71 | the cube root so obtained of a square root of the twist ratio is a scaling element of the bridge: its sixth power is the ratio |
| TwistLadder.EMul | scripts/bridge_final.py:102-107 | the least-significant-bit-first ladder computes the k-fold sum, given that e_add associates on the curve |
| TwistLadder.PsiMultiple | scripts/bridge_final.py:108-111 | psi carries k-fold sums to k-fold sums, so one is infinity exactly when the other is |
| TowerSquareRoot.LegendreIs | scripts/bridge_final.py:23 | the power test accepts exactly the nonzero squares |
| TowerSquareRoot.HalfTrace | scripts/bridge_final.py:53 | (a0 + t)/2 = x^2 when t is the norm root x^2 + 5y^2 |
| TowerSquareRoot.RecoverY | scripts/bridge_final.py:58 | a1/(2x) is the second coordinate of the root |
| TowerSquareRoot.TrySigns | scripts/bridge_final.py:56-60 | both signs of x are tried in any order and a root with that x is not missed |
| TowerSquareRoot.F2Sqrt | scripts/bridge_final.py:44-61 | with -5 a non-residue: what is returned squares to a, and None exactly when a has no root, or a1 = 0 and a0 is not a nonzero square (zero and the -5y^2) |
| TowerSquareRoot.F2SqrtMisses | scripts/bridge_final.py:44-61 | two of them: 0 and -5 = v^2 are squares and None is returned |
| R1cs.RowFormPushAll | attic/p1cs.hpp:66-77 | pushing the entries of a row extends that row and no other |
| R1cs.RowsForce | attic/p1cs.hpp:81-87 | the rows of a circuit hold of an assignment exactly when its wires continue the inputs as the circuit runs |
| R1cs.RunSatisfies | attic/p1cs.hpp:104-125 | the run of a circuit satisfies its rows |
| R1cs.ProductRowHolds | attic/p1cs.hpp:81-87 | the row a * b = c holds exactly when p divides z_a*z_b - z_c |
| ConstraintBuilder.EmitRows | attic/p1cs.hpp:104-125 | appending a circuit adds one row per gate, the row that pins its wire, and leaves every earlier row as it was |
| ConstraintBuilder.Builder.AddQuad | attic/p1cs.hpp:81-87 | appends the row a * b = c and advances the row counter |
| ConstraintBuilder.Builder.AddLinear | attic/p1cs.hpp:62-78 | appends the row t * 1 = sum with residues of the signed coefficients |
| ConstraintBuilder.SignedRow | attic/p1cs.hpp:62-78 | that row holds exactly when t carries the signed sum |
| ConstraintBuilder.Builder.SboxGadget | attic/p1cs.hpp:104-125 | appends the wires and rows of x^2, x^4, x^5 and returns the last |
| ConstraintBuilder.Accumulate | tools/fullposeidon.cpp:57-63 | one matrix loop leaves A*w modulo p, row by row |
| ConstraintBuilder.CheckSat | tools/fullposeidon.cpp:55-82 | the evaluator reports success exactly when every row holds, and counts the rows that fail |
| Poseidon.Poseidon3Ref | scripts/partA.py:73-91 | the reference loops compute the permutation when exactly 6*rf + rp constants are given and fail otherwise |
| PoseidonRounds.FullRoundLanes | scripts/partA.py:73-91 | lane i of a full round is row i of the table times the fifth powers of lane plus constant, as integers modulo p |
| PoseidonRounds.PartialRoundLanes | scripts/partA.py:73-91 | only lane 0 of a partial round takes a constant and a fifth power |
| PoseidonRounds.PermuteTrace | scripts/partA.py:73-91 | every run of rf full, rp partial and rf full rounds that takes the constants in order ends in the permutation |
| PoseidonRounds.InPlaceLanes | attic/p1cs.hpp:265-292 | in the gadget's partial round the third row takes the lane 1 that the second row has just produced |
| PoseidonGadget.FullRun | attic/p1cs.hpp:204-263 | a full round of gates computes a full round of the reference |
| PoseidonGadget.PartialRun | attic/p1cs.hpp:265-292 | a partial round of gates computes the partial round with the in-place mix: its third row reads the lane 1 just written |
| PoseidonGadget.GadgetRun | attic/p1cs.hpp:197-327 | the whole circuit ends in the permutation with the in-place partial mix |
| GadgetBuilder.FullRoundRows | attic/p1cs.hpp:204-263 | the loops of a full round append exactly its circuit |
| GadgetBuilder.PartialRoundRows | attic/p1cs.hpp:265-292 | the loops of a partial round append exactly its circuit |
| GadgetBuilder.GadgetSound | attic/p1cs.hpp:197-327 | any assignment satisfying the appended rows carries the in-place permutation of its input wires on the output wire |
| GadgetBuilder.Poseidon3R1cs | attic/p1cs.hpp:197-327 | for every rf, rp and table: 30*rf + 7*rp rows and wires from 6*rf + rp constants, earlier rows untouched, the witness satisfies the new rows, and the new rows force the output wire |
| GadgetAgreement.PartialRoundsAgree | attic/p1cs.hpp:276-291 | the in-place partial round is the reference round on every state exactly when the third row ignores lane 1 or the second row is (0, 1, 0) |
| GadgetAgreement.GadgetAgrees | attic/p1cs.hpp:197-327 | the gadget's output is the reference output on every input under that condition, without partial rounds, or when one partial round is everything |
| GadgetAgreement.GadgetDisagrees | attic/p1cs.hpp:197-327 | for an MDS table and p > 5, otherwise, on every input some constants make the output differ |
| GadgetAgreement.GadgetExact | attic/p1cs.hpp:197-327 | hence for an MDS table the gadget is right for all constants and inputs exactly when rp = 0, or rp = 1 and rf = 0 |
| MdsMatrix.MdsDerived | scripts/partA.py:45-61 | for a prime p the Cauchy matrix exists exactly from p = 11 on, has the stated inverses as entries, and every square minor is nonzero |
| MdsMatrix.DerivedGadget | attic/p1cs.hpp:197-327 | with the matrix the system derives, the gadget agrees with the reference only at those round counts |
| MdsMatrix.GadgetCounterexample | attic/p1cs.hpp:265-292 | a concrete failure over the field of 11 elements |
| ConstraintLists.AppendExact | attic/p1cs.hpp:197 | a list appended from any row index leaves every other row as it was, and becomes the rows it takes exactly when those were unused |
| LiveGadget.LiveSound | include/hsma/poseidon_r1cs.hpp:187-241 | any assignment satisfying the rows whose constant wires carry the round constants has the reference output on its output wire |
| LiveGadget.LiveComplete | include/hsma/poseidon_r1cs.hpp:187-241 | the same rows, which mention no constant, have a satisfying assignment for any inputs and any constants on those wires, with the corresponding output |
| LiveExact.LiveDiffers | include/hsma/poseidon_r1cs.hpp:187-241 | with at least one round and a first table entry that is nonzero: for every input and all constants, some satisfying assignment of the rows has an output other than the reference output |
| LiveExact.LiveForcesExact | include/hsma/poseidon_r1cs.hpp:187-241 | hence the rows by themselves force the reference output exactly when there is no round |
| LiveExact.DerivedLive | include/hsma/poseidon_r1cs.hpp:187-241 | the same at the matrix the system derives, for every prime that has one |
| LiveExact.LiveCounterexample | include/hsma/poseidon_r1cs.hpp:208-221 | a concrete assignment over 11 elements: every row of one partial round holds, and the output is 0 where the reference has 9 |
| LiveBuilder.LiveLaneLoop | include/hsma/poseidon_r1cs.hpp:191-202 | constant wire, sum row and fifth power of one lane |
| LiveBuilder.LiveMixLoop | include/hsma/poseidon_r1cs.hpp:143-183 | three product rows and a sum row per output of the mix |
| LiveBuilder.Build | include/hsma/poseidon_r1cs.hpp:68-245 | appends 48*rf + 16*rp rows (1088 at production counts), leaves earlier rows alone, computes a satisfying witness whose output is the reference permutation |
| Sponge.SpongeRef | scripts/partA.py:113-139 | the reference absorbs the elements, their number and one, and permutes a half-filled block |
| Sponge.Absorber.Absorb | include/hsma/poseidon.hpp:116-123 | adds into the next rate slot, permutes a full block, counts modulo 2^64 |
| Sponge.Absorber.Squeeze | scripts/fix_sponge.py:13-22 | the corrected squeeze absorbs count and one and permutes only a half-filled block, ending at a block boundary with count 0 |
| Sponge.Absorber.UncorrectedSqueeze | scripts/fix_sponge.py:4-11 | the squeeze it replaces is one permutation further |
| Sponge.Hash | scripts/fix_sponge.py:13-22 | a new sponge, any message of fewer than 2^64 elements, then the corrected squeeze: exactly the reference value |
| Sponge.FinishedIsBlocks | scripts/partA.py:133-139 | the sponge is the fold of the permutation over the stream of blocks of two, an unfilled slot counting as zero |
| Sponge.SpongeTrace | scripts/partA.py:113-139 | every run that adds the elements, their number, one and, to fill a block, zero two at a time and permutes after each pair ends in the state squeezed |
| Sponge.StreamInjective | scripts/partA.py:133-139 | different messages of residues have different streams, whatever their lengths |
| Sponge.PermuteReduces | scripts/partA.py:73-91 | with at least one round of either kind the permutation returns residues, which the block reading needs |
| Folding.FoldResidual | include/hsma/mfold.hpp:131-157 | row by row the residual of a fold is res(U) + r^2 * res(J), for every challenge |
| Folding.FoldSat | tools/epochscaled.cpp:124-128 | folding J into a satisfied U is satisfied exactly when r = 0 or J is satisfied: a tampered instance is not absorbed |
| Folding.ChainResidual | tools/epochscaled.cpp:74-93 | after any chain of folds the residual is that of U plus the sum of r_j^2 * res(J_j) |
| Folding.ChainSat | tools/epochscaled.cpp:74-93 | a chain of any length of satisfied fresh instances stays satisfied |
| Folding.FoldCoordinates | include/hsma/mfold.hpp:143-157 | coordinate by coordinate: u + r, z_U + r*z_J and E_U + r times the cross term, reduced |
| Folding.FreshRow | include/hsma/mfold.hpp:53-72 | a fresh instance satisfies a row exactly when Az * Bz = Cz holds there of its assignment |
| Folding.CrossIsCoefficient | include/hsma/mfold.hpp:80-92 | for instances relaxed in any way the cross term is the coefficient of r in (A o B - u*C) along z_U + r*z_J |
| Folding.FoldAllFront | include/hsma/mfold.hpp:143-157 | the first instance goes in with the first challenge |
| Folding.ChainCoordinate | include/hsma/mfold.hpp:143-157 | every further instance enters each coordinate with its own challenge |
| Folding.RowTimesPush | include/hsma/mfold.hpp:32-44 | an entry (r, c, v) adds v*z_c to row r and nothing elsewhere |
| Folding.KnownRows | include/hsma/mfold.hpp:32-44 | a known two-row matrix times a vector |
| Folding.FormFold | attic/idprobe.py:14-19 | any linear form of z' = zU + r*zJ is the form of zU plus r times the form of zJ |
| Folding.TogetherResidual | include/hsma/mfold.hpp:131-141 | the earlier fold that the comment describes: folding any number of instances at once, every cross term against the old accumulator, leaves next to the chained residual r_j*r_k times the mutual cross term of every pair |
| Folding.SimultaneousFold | include/hsma/mfold.hpp:131-141 | so in that earlier fold satisfied fresh instances folded at once into a satisfied accumulator satisfy a row exactly when the weighted mutual cross terms cancel there |
| Folding.TwoTogether | include/hsma/mfold.hpp:131-141 | for two instances in that earlier fold: exactly when r1*r2 times their cross term vanishes |
| Folding.TogetherFails | include/hsma/mfold.hpp:131-141 | a one-row system where that earlier fold fails in every field |
| FoldingEngine.SatRelaxed | include/hsma/mfold.hpp:61-72 | the first failing row, or the number of rows exactly when satisfied |
| FoldingEngine.CrossTermRows | include/hsma/mfold.hpp:80-92 | the loop computes the cross term of every row |
| FoldingEngine.Accumulator.Absorb | include/hsma/mfold.hpp:151-156 | in place: u, z and E of the fold |
| FoldingEngine.Multifold | include/hsma/mfold.hpp:131-157 | for any challenges: k instances folded each against the current accumulator, with the cross terms actually applied; the reuse at k = 1 changes nothing |
| FoldTranscript.TranscriptInjective | include/hsma/mfold.hpp:115-125 | what is absorbed determines the accumulator, the number of instances and every instance |
| FoldTranscript.PartLayout | include/hsma/mfold.hpp:115-125 | an instance's part: its u, z, E and then the residues of its cross term, row by row |
| FoldTranscript.CrossTermCounts | include/hsma/mfold.hpp:115-125 | cross terms that differ give different parts |
| FoldTranscript.TranscriptLayout | include/hsma/mfold.hpp:115-125 | after the accumulator come the parts of the instances in order |
| FoldTranscript.StreamBinds | include/hsma/mfold.hpp:115-126 | so do the blocks the sponge sees, when the values are residues |
| FoldTranscript.DrawSeed | include/hsma/mfold.hpp:112-126 | the absorbing loops and the squeeze compute the sponge value of that transcript: its elements, their number and one, absorbed from (0, 0, iv) |
| FoldTranscript.MultifoldDrawn | include/hsma/mfold.hpp:102-158 | the whole k-fold: challenge j is lane 0 of the permutation of (seed, j, iv), and the result is the chained fold with those challenges |
| FoldingEngine.Epoch | tools/epochscaled.cpp:69-93 | the epoch loop returns the chained fold and the number of folds, counts every witness and every fold that fails, and counts none exactly when every witness satisfies the system |
| CommitmentFold.FoldedScalar | include/hsma/cfold.hpp:5-6 | in a group of order p the reduced scalar x + r*y acts as x plus r times y |
| CommitmentFold.CommitmentFolds | tools/cfoldprobe.cpp:35-68 | for one instance: recommitting to the folded assignment with the folded blinding gives the folded commitment |
| CommitmentFold.CommitmentChain | include/hsma/cfold.hpp:1-9 | for a list of any length folded one after the other: the recommitment is W_U plus the sum of r_j * W_j |
| CommitmentFold.CommitTo | include/hsma/pedersen.hpp:82-88 | the loop computes the commitment |
| CommitmentFold.CommitBlinding | include/hsma/pedersen.hpp:82-88 | the commitment to nothing is rho * G |
| CommitmentFold.BlindingAdds | include/hsma/pedersen.hpp:82-88 | t more of blinding adds t * G, whatever the message |
| CommitmentFold.CommitAt | include/hsma/pedersen.hpp:82-88 | scalar i contributes its multiple of base i |
| CommitmentFold.CommitUnit | include/hsma/pedersen.hpp:82-88 | a one at position i, unblinded, commits to base i |
| CommitmentFold.BatchAt | include/hsma/cfold.hpp:36-43 | coordinate i of a batch is that of z, and zero beyond it |
| CommitmentFold.FoldCommitments | include/hsma/cfold.hpp:65-74 | the loop computes W_U plus the sum of r_j * W_j |
| CommitmentFold.CommitmentConsistent | include/hsma/cfold.hpp:78-111 | the check succeeds exactly when recommitment and fold agree and are not the point at infinity; for the chained fold, exactly when the folded commitment is not that point |
| Gemm.GemmRowsHold | include/hsma/gkr.hpp:93-123 | the rows hold exactly when every product wire is its product and every C wire the sum of its products |
| Gemm.GemmExact | tools/gkrprobe.cpp:3-6 | some values of the product wires satisfy all rows exactly when C = A x B, for all dimensions |
| MatrixProduct.KnownEntry | tools/gkrprobe.cpp:25-77 | the 3 by 3 known answer of the flat row-major product |
| MatrixProduct.ProductMeans | include/hsma/gkr.hpp:66-91 | the product relation on wires is the flat row-major product of the three slices of the assignment |
| MatrixProduct.GemmExactFlat | tools/gkrprobe.cpp:3-6 | some values of the product wires satisfy all rows exactly when the third slice is the flat row-major product of the first two |
| MatrixProduct.StoredProduct | include/hsma/gkr.hpp:76-91 | product wire (i, j, k), at its row-major position, holds a_ik * b_kj |
| GemmBuilder.BuildGemm | include/hsma/gkr.hpp:66-131 | appends rows*cols*(inner + 1) rows with that meaning, leaves earlier rows alone, and lays out A, B, C and the products one after the other from the first free wire |
| GemmWitness.FillProducts | tools/gkrprobe.cpp:35-41 | every product wire gets its product, nothing else changes |
| GemmWitness.FillOutputs | tools/gkrprobe.cpp:43-50 | every C wire gets the sum of its own products, nothing else changes |
| GemmWitness.FillWitness | tools/gkrprobe.cpp:27-50 | the loops leave the factors as given, a satisfied system and on the C wires the flat row-major product of the factors |
| Scratch127.ScratchAcc.Accumulate | libhsma_numcore/scratch127.hpp:34-42 | one step, overflow branch included: the sum inside the domain, 2^126 - 1 above it and -2^126 below it, and the counter that the sum's side of the domain names |
| Scratch127.ClampNearest | libhsma_numcore/scratch127.hpp:34-42 | clamping goes to the nearest value of the domain and leaves values of the domain alone |
| Scratch127.BoundsArePowers | libhsma_numcore/scratch127.hpp:28-33 | the domain is [-2^126, 2^126 - 1] and the width [-2^127, 2^127 - 1] |
| Scratch127.AccumulateAll | libhsma_numcore/scratch127.hpp:34-42 | a run is the fold of clamps and advances each counter by the number of its events modulo 2^64 |
| Scratch127.SilentIffExact | libhsma_numcore/scratch127.hpp:34-42 | no event is reported exactly when every partial sum is in [-2^126, 2^126 - 1], and then the run is the plain sum |
| Scratch127.DotExact | libhsma_numcore/scratch127.hpp:43-46 | fewer than 2^32 products of int64 and int32 are summed exactly |
| Scratch127.DotSnoc | libhsma_numcore/scratch127.hpp:43-46 | one more pair adds its product to the sum |
| Scratch127.TermReaches | libhsma_numcore/scratch127.hpp:43 | the product of an int64 and an int32 is 2^94, the documented strict bound, at the two minima and nowhere else |
| Scratch127.DotExactIff | libhsma_numcore/scratch127.hpp:43-46 | every dot product of n pairs is accumulated without an event exactly when n < 2^32 |
| Scratch127.DotProduct | libhsma_numcore/scratch127.hpp:28-53 | the accumulator holds the exact dot product with silent counters |
| Scratch127.RnteShift32 | libhsma_numcore/scratch127.hpp:63-79 | the shift returns the requantised value |
| Scratch127.RequantisedMeaning | libhsma_numcore/scratch127.hpp:63-79 | that value is the nearest-even quotient, or the bound of its sign, flagged exactly when the quotient exceeds 2^31 - 1 |
| Scratch127.RoundsToNearest | libhsma_numcore/scratch127.hpp:63-79 | a magnitude within half a step of q goes to q, and one exactly between two goes to the even one |
| Scratch127.NearestUnique | libhsma_numcore/scratch127.hpp:63-79 | there is one nearest-even quotient |
| Scratch127.OddSymmetric | libhsma_numcore/scratch127.hpp:74-78 | changing the sign negates the result and keeps the flag |
| Scratch127.Monotone | libhsma_numcore/scratch127.hpp:63-79 | requantisation is monotone over all signed inputs |
| Scratch127.DotRequant | libhsma_numcore/scratch127.hpp:28-79 | accumulation followed by requantisation: the saturated nearest-even quotient of the exact dot product |

## Left out

- MontgomeryProduct.Mmul: needs 2m < 2^384; for a modulus of 384 bits the carry out of the last word is not handled by the code and nothing is stated.
- MontgomeryContext.InitCtx: the modulus 1 is not covered.
- CurveTool.Pmul: associativity of the affine law on the curve is a hypothesis; closure, commutativity and the unit are proved.
- BatchNormalize.Mul: associativity of the affine law on the curve is a hypothesis.
- TwistLadder.EMul: associativity of e_add on the curve is a hypothesis; closure and the unit are proved.
- TwistBridge.PsiAdds: the modular inverse of zero, where the source raises, is 0 here; on curve points it is never asked for (TwistBridge.EAddNeverRaises).
- PointEncoding.DecodeEncode: the field's square root is a parameter of which only correctness is assumed.
- BatchNormalize.Normalize: the field's inversion is a function of the model, not the external crate.
- ConstraintBuilder.CheckSat: rows and columns out of range, undefined in the source, are excluded.
- GadgetBuilder.Poseidon3R1cs: needs that no row index in use reaches the number of entries of A, from which the source numbers its rows; ConstraintLists.AppendExact says what appending does without that.
- LiveBuilder.Build: the same condition on the rows already there.
- GemmBuilder.BuildGemm: the same condition on the rows already there.
- Sponge.Hash: the count wraps at 2^64, the reference's does not; longer messages are excluded.
- FoldTranscript.MultifoldDrawn: the permutation is a parameter, and transcripts of 2^64 elements or more are excluded; the byte transcript of the second k-fold is not modelled.
- CommitmentFold.CommitmentFolds: over any commutative group in which every element has order dividing p, not the limb arithmetic of the Vesta curve.
- LiveExact.LiveForcesExact: tables whose first entry is zero modulo p, which no MDS table has, are not covered.
- GemmWitness.FillWitness: the factor matrices are given flat in row-major order.
- Aliasing of operand buffers in the limb routines: operands are values, only the destination is an array.
- The Montgomery form of the constraint values: rows are over residues.
- The `general` variant of the Pasta macros (a nonzero), the isogeny and map-to-curve code, and generators.
- Derivation of the two base parameters of the field and of round constants and initial vectors; hash strength and binding.
- `add_quad_linear`, a row shape no modelled code appends.
- Printing, timing, file and JSON handling, random sampling.
