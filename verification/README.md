# A Dafny model of the arithmetic core

The repository mixes a Rust anonymity pool (an append-only Merkle tree of commitments) with
garaga, a Python code base that produces elliptic-curve hints, modular-arithmetic circuits and
the Cairo or Rust programs that evaluate them. This project models the parts of both whose
correctness is an argument rather than a formula, and proves those arguments. `dafny verify
dfyconfig.toml` checks everything.

## Contents

* `IntMath`, `Divisibility`, `Bits`, `Results`, `Groups`, `Fields` - integers with Python's floor
  semantics, divisibility and gcd, bit lists, exceptions as values, abstract commutative groups
  and fields. Curve points are elements of an abstract group; field elements of an abstract field.
* `Eisenstein`, `HalfGcd`, `Lattice`, `GlvHint`, `HintEncoding` - the scalar-decomposition stack:
  Euclidean division in Z[w], the truncated extended gcd over it, short lattice bases and the
  fixed-point scalar split, and the composed hint with its size bound.
* `FakeGlv`, `GlvMul` - the two windowed signed-digit double-and-add checks and the scalar
  multiplications built on them.
* `MerkleReference`, `MerkleTree` - the full zero-padded binary tree as a definition, and the
  incremental tree (frontier, node map, ring of roots) as a class that stays equal to it.
* `SignedDigits` - the NAF and the Joye-Yen left-to-right recoding.
* `ValueSegments`, `ModuloCircuits`, `CairoEmission` - recording arithmetic as builtin
  instructions, relocating the value segment, and emitting a straight-line program whose
  operation kinds are decoded from offsets.
* `ExtensionField`, `BatchSoundness` - the accumulator that checks many polynomial identities at one point,
  and what a passed check says about each of them.
* `Polynomials`, `PolynomialAlgorithms` - polynomials as coefficient lists: product, division,
  extended gcd, inverse, evaluation and interpolation. `PolynomialRing` - the ring laws on canonical
  lists, degrees of products, uniqueness of division, roots as factors.
* `AddChainSyntax`, `AddChainEmitter` - the addition-chain tokenizer, parser and code emitter.
  `AddChainTokens`, `AddChainGrammar` - the texts and token lists they accept, and what those denote.
* `FunctionField`, `CurveDivisors`, `Interpolation` - functions a(x) + b(x) y on a short Weierstrass
  curve as the coefficient lists of class `FF`, lines through two points, divisibility by vertical
  lines, and the pairwise construction of the function with given zeros.
* `LocalOrders`, `VanishingOrders` - the order of a function at a point of a smooth curve, and the laws of
  divisors that the construction rests on, proved for every smooth curve.
* `Neg3`, `Ecip` - base -3 digit vectors and the function-field certificate of a multi-scalar
  product.
* `Instances` - the hypotheses can be met: a field, a curve of seven points whose endomorphism has
  eigenvalue 2 with a point of order 7, and the curve y^2 = x^3 + 4x + 2 over the integers modulo 5 with its
  three points, whose orders of vanishing are divisors.

## Main results

1. For every modulus n >= 4 of at most 79000 bits of which lambda is an eigenvalue and every scalar,
   the hint (u1, u2, v1, v2) is found, decomposes the scalar - or 1 where the scalar is congruent to -1 -,
   is non-trivial, N(u1 + u2*w)^2 < 4n, and all four parts fit in `bit_length(n) // 4 + 9` bits. No sign
   condition on the lattice determinant is needed: when the determinant is negative the split degenerates,
   and the bound still holds because it is a bound on the cofactors of the first basis vector alone.
2. Both accumulator loops compute the stated linear combination for all bit strings, so their
   final comparison succeeds exactly when the claimed relation is zero.
3. In every reachable state of the Merkle tree the root, every authentication path and every
   answer of `is_known_root` are those of the full zero-padded tree over the inserted leaves.
4. The relocated circuit is the recorded circuit: an injective, overlap-free move of the slots
   that keeps every value and every instruction's truth, with the constants first and the builtin results
   last. The emitted program supplies the constants itself, names every input by its place, performs the
   operations that were called, and an assignment satisfies the program if and only if it
   satisfies the recorded circuit - for all assignments, not only the recorded one.
5. `finalize_circuit` succeeds exactly when the random linear combination balances at z, and
   always when the recorded identities hold as polynomials, whatever c0 and z are. This covers
   the reuse of the next instruction's first factor and the accumulator slots left empty. Conversely,
   identities that balance at z for as many distinct non-zero c0 as there are identities all hold at z, and an
   identity that holds at enough points holds as polynomials.
6. Emitted addition-chain code computes, over any associative multiplication, base to the power it
   computes over the integers, whatever its names. An expression over defined variables with
   positive shifts is compiled correctly for all values of its variables if and only if no read is
   captured by one of the emitter's own names; a chain without captured reads computes base^N, N
   being the integer it denotes. The tokenizer accepts exactly the spellings of token lists, the parser
   exactly the token lists of the grammar, and the integer an expression denotes is that of the grammar,
   `2*x` and `t << k + u << l` included. Printing and parsing are inverse.
7. `construct_function` computes with coefficient lists; every numerator it divides is a multiple of
   its denominator, so floor division is exact, and products never exceed the four coefficients
   for which `reduce` is right. The coefficients of its lines are derived from the curve equation, and the
   divisor laws it needs are proved for every smooth curve. It returns the unique function with the given
   zeros and constant coefficient 1, or raises, under an exact condition. The functions of
   `ecip_functions` certify the multi-scalar product: their combined divisor is -Q plus every base point
   and its negative at multiplicities differing by the scalar.
8. The Joye-Yen recoding has the least weight of all signed-binary representations.

## Where the code and its documentation differ

* `quo_rem`: a comment (eisenstein.py:202) says the correction loop sometimes runs. Rounding
  the coordinates already gives 4 N(r) <= 3 N(y), so it never does (`RoundedRemainderContracts`).
  Its neighbour list contains (-1, 1) and (1, -1), of norm 3, in place of two units; taken alone,
  the search has no improving neighbour exactly at the remaining sixth unit and its negative
  (`SearchIsStuckExactly`).
* `scalar_mul_glv_and_fake_glv` is to return scalar * P. For a scalar congruent to -1
  modulo n it returns 2 * G and skips its own check (fake_glv.py:318-320, 539-540)
  (`ScalarMulGlv`, `SpecialCaseExactly`).
* `split_scalar` has no fractional bits when the determinant is below 2^31, in particular for every
  negative one (`ShiftVanishesExactly`). It then returns every scalar unsplit exactly when both second
  coordinates are below half the determinant (`NeverSplitExactly`), and the size bound holds exactly for
  the scalars that meet it themselves (`UnsplitIsShortExactly`). For n = 7 and lambda = 2 the
  determinant is -7 and the split of 6 is not short (`NegativeDeterminant`).
* `scalar_mul_fake_glv` and `get_fake_glv_hint` reject negative scalars although the lattice
  exists: the sign of the first basis vector follows the sign of the scalar (`HintedRelation`).
* The contracts read a hint component back exactly when its absolute value is below 2^128, or 2^96
  where they also narrow it (`ReadUndoesEncode`, `ReadPartUndoesEncode`); two different values share a
  code exactly when the positive one is 2^128 above the other's absolute value
  (`EncodeCollidesExactly`).
* `zk_ecip_hint` raises ValueError where an interpolating function has constant coefficient 0, because
  `normalize` inverts it (ecip.py:465-470). For one point with scalar 1 this is exactly x(P) = 0, a point
  that exists wherever b is a square, as on SECP256R1 (`SinglePointFails`). It also raises where a partial
  sum is its own negative, which needs a curve of even order (`LineFails`, `NoTorsionToAvoid`).
* `FF.reduce` is documented to reduce modulo the curve equation. It is right for all lists of n coefficients
  exactly for n <= 6, because it squares the power of y^2 at every odd place (`ReduceIsRightExactly`).
* `jy00` accepts any integer. It raises below 2 in absolute value, and for a negative value
  recodes value + 2^bits (`Jy00`).
* `write_cairo1_circuit` and its caller drop an output that no builtin instruction wrote
  (`OutputsAreNamed`); nothing is dropped exactly when builtin instructions wrote all outputs
  (`OutputsAreCompleteExactly`, `ConstantOutputIsDropped`).
* An addition-chain variable called `t0` can be captured by the emitter's own temporaries, and one
  called `base` replaces the base that 1 stands for; two concrete chains then compute the wrong power
  (`TempNamesCollide`, `BaseIsRebound`). A captured read always makes the result too large for some
  values (`CapturedIsWrong`), except that a shift by 0 may copy the variable it hides (`CopyMayCapture`).

## Model

| member | source | states |
|---|---|---|
| Eisenstein.NormMultiplicative | garaga/hydra/garaga/hints/eisenstein.py:142-167 | the norm of a product is the product of the norms |
| Eisenstein.RoundNearestIsNearest | garaga/hydra/garaga/hints/eisenstein.py:34-48 | the rounded quotient is within half of the exact one, for both signs |
| Eisenstein.RoundNearestOfHalf | garaga/hydra/garaga/hints/eisenstein.py:34-48 | a quotient half way between two integers is rounded away from zero |
| Eisenstein.RoundedRemainderContracts | garaga/hydra/garaga/hints/eisenstein.py:190-199 | independent coordinate rounding already leaves 4 N(r) <= 3 N(y) |
| Eisenstein.NeighbourTest | garaga/hydra/garaga/hints/eisenstein.py:205-210 | a neighbour improves the remainder exactly when the trace of r * conj(y) against it exceeds its norm times N(y) |
| Eisenstein.FirstSmallest | garaga/hydra/garaga/hints/eisenstein.py:203-210 | the scan keeps the first strictly smallest norm below the bound, or nothing when none is below |
| Eisenstein.BestNeighbour | garaga/hydra/garaga/hints/eisenstein.py:203-210 | finds an improving neighbour whenever one exists: of the six listed neighbours the first that leaves the least norm |
| Eisenstein.SearchIsStuckExactly | garaga/hydra/garaga/hints/eisenstein.py:202-213 | no neighbour improves a too large remainder exactly when it is y times the missing unit, up to sign |
| Eisenstein.StuckAtSixthUnit | garaga/hydra/garaga/hints/eisenstein.py:202-213 | at the missing unit each of the six listed neighbours fails |
| Eisenstein.CorrectQuotient | garaga/hydra/garaga/hints/eisenstein.py:202-214 | the correction loop terminates from any quotient; it keeps x = q*y + r and either ends below N(y) or reaches the stuck remainder; it is the identity when the remainder is already small |
| Eisenstein.QuoRem | garaga/hydra/garaga/hints/eisenstein.py:171-214 | division fails exactly for y = 0 and otherwise gives x = q*y + r with 4 N(r) <= 3 N(y) and q the rounded quotient |
| HalfGcd.EveryStateIsSound | garaga/hydra/garaga/hints/eisenstein.py:255-274 | after any number of steps both remainders are the stated combinations of a and b, the cofactor determinant is a unit of norm 1, and the cofactors are bounded by the remainders |
| HalfGcd.EveryStateIsContracted | garaga/hydra/garaga/hints/eisenstein.py:264-274 | after k steps the remainder's norm is at most (3/4)^k of N(b) |
| HalfGcd.EveryStateIsContractedFromA | garaga/hydra/garaga/hints/eisenstein.py:264-274 | after k + 2 steps the remainder is at most (3/4)^k of 12 N(a), so the length of the run does not depend on b |
| HalfGcd.SmallNormConverges | garaga/hydra/garaga/hints/eisenstein.py:264-276 | five divisions per two bits of the norm are enough to bring it below 1 |
| HalfGcd.Run | garaga/hydra/garaga/hints/eisenstein.py:264-279 | for any limit of at most N(a) the loop returns the first state whose remainder is below it; it fails exactly when no state within the step bound is, which needs a bound too small for both N(b) and 12 N(a) |
| HalfGcd.TruncatedGcd | garaga/hydra/garaga/hints/eisenstein.py:233-279 | w = a*u + b*v; for a /= 0, N(w) < isqrt(N(a)) and v /= 0; it is the first of 200000 states below the root, and the RuntimeError means there is none |
| Lattice.NextRowIsRow | garaga/hydra/garaga/hints/fake_glv.py:87-107 | a division step keeps rem = s*r + t*lambda and flips the sign of the cross product |
| Lattice.ReduceBelowRoot | garaga/hydra/garaga/hints/fake_glv.py:76-116 | the loop terminates for all integers; it returns two lattice rows of cross product +-r bracketing isqrt(r), or raises, which for r > 0 happens only if the gcd is at least isqrt(r) |
| Lattice.ChooseBasis | garaga/hydra/garaga/hints/fake_glv.py:109-184 | either choice of second vector gives a basis of determinant +-r with correctly rounded b1 and b2; the previous row is chosen exactly when it is not longer than the next one |
| Lattice.PrecomputeLattice | garaga/hydra/garaga/hints/fake_glv.py:53-184 | succeeds exactly when r > 0 and gcd(r, lambda) < isqrt(r); both vectors are in the lattice, Det = +-r, 0 < abs(V1[0]) < isqrt(r), V1[1] /= 0, abs(V1[1])*isqrt(r) <= r for positive lambda, V1[0] has the sign of lambda |
| Lattice.RoundHalfAwayIsNearest | garaga/hydra/garaga/hints/fake_glv.py:149-167 | the rounded quotient is a nearest integer for every sign combination |
| Lattice.RoundHalfAwayOfHalf | garaga/hydra/garaga/hints/fake_glv.py:149-167 | an exact half is rounded away from zero |
| Lattice.SplitIsCongruent | garaga/hydra/garaga/hints/fake_glv.py:187-228 | u + v*lambda = s modulo r for every scalar and every basis |
| Lattice.SplitIsShort | garaga/hydra/garaga/hints/fake_glv.py:202-228 | fixed-point rounding and floor shifts cost at most 3/2 of the basis coordinates for every scalar up to the shift |
| Lattice.SplitBelowDeterminantIsShort | garaga/hydra/garaga/hints/fake_glv.py:169-228 | for Det of at least 32 bits and 0 <= s < Det, 2 abs(u) and 2 abs(v) are at most three times the sums of the basis coordinates |
| Lattice.ShiftVanishesExactly | garaga/hydra/garaga/hints/fake_glv.py:173-176 | the shift is zero exactly for determinants below 2^31, negative ones included |
| Lattice.ShiftIsNearest | garaga/hydra/garaga/hints/fake_glv.py:173-176 | the shift is the multiple of 128 nearest to twice the bit length of the determinant |
| Lattice.NeverSplitExactly | garaga/hydra/garaga/hints/fake_glv.py:209-228 | without fractional bits every scalar comes back unsplit if and only if 2 abs(V1[1]) and 2 abs(V2[1]) are below abs(Det) |
| Lattice.UnsplitIsShortExactly | garaga/hydra/garaga/hints/fake_glv.py:209-228 | the size bound then holds exactly for the scalars that meet it unsplit |
| Lattice.NegativeDeterminant | garaga/hydra/garaga/hints/fake_glv.py:53-228 | precompute_lattice(7, 2) has determinant -7, and the split of 6 is (6, 0), above the bound |
| Lattice.SecondIsShort | garaga/hydra/garaga/hints/fake_glv.py:109-137 | if a coordinate of V1 is at least sqrt(r/3), the chosen V2 has length at most 2 sqrt(r) |
| GlvHint.SecondVectorIsShort | garaga/hydra/garaga/hints/fake_glv.py:53-184 | for an eigenvalue V2 always has length at most 2 sqrt(n) |
| GlvHint.SplitByEigenvalueIsShort | garaga/hydra/garaga/hints/fake_glv.py:187-228 | for an eigenvalue 2 abs(u) <= 9 isqrt(n) and 2 abs(v) <= 9 isqrt(n) + 9, for every scalar up to the shift and either sign of Det |
| GlvHint.ImageOfProduct | garaga/hydra/garaga/hints/fake_glv.py:231-248 | w -> lambda is a ring map modulo n when lambda^2 + lambda + 1 = 0 |
| GlvHint.EigenvalueIsCoprime | garaga/hydra/garaga/hints/fake_glv.py:231-234 | such a lambda shares no factor with n, so the lattice exists |
| GlvHint.HintDecomposes | garaga/hydra/garaga/hints/fake_glv.py:235-248 | a half gcd of the first basis vector and the negated split gives scalar*(v1 + lambda*v2) + u1 + lambda*u2 = 0 modulo n |
| GlvHint.HintIsShort | garaga/hydra/garaga/hints/fake_glv.py:235-248 | N(u)^2 < 4n, v /= 0, and all four parts fit the verifier's bit width, whatever the second argument of the half gcd |
| GlvHint.HalfGcdEisensteinHint | garaga/hydra/garaga/hints/fake_glv.py:231-248 | the whole composition: ValueError exactly for n < 4; otherwise, up to 79000 bits, it always succeeds with a short non-trivial decomposition of the scalar, or of 1 when the scalar is congruent to -1 |
| HintEncoding.ReadUndoesEncode | garaga/src/src/ec/ec_ops.cairo:222-231 | reading the sign off the high half undoes the encoding exactly below 2^128 in absolute value |
| HintEncoding.ReadPartUndoesEncode | garaga/src/src/ec/ec_ops.cairo:425-458 | with the narrowing to 96 bits, exactly below 2^96 |
| HintEncoding.EncodeCollidesExactly | garaga/hydra/garaga/hints/fake_glv.py:273-274 | two values share a code exactly when one is negative and the other its absolute value plus 2^128 |
| Bits.SmallNumberBits | garaga/hydra/garaga/hints/fake_glv.py:546-551 | the first k little-endian bits of a number below 2^k denote it |
| FakeGlv.TablesAgree | garaga/hydra/garaga/hints/fake_glv.py:645-756 | the reordered 16-entry selector picks the same window point as the original one, with the coefficients its four bits stand for |
| FakeGlv.WindowPointIsSigned | garaga/hydra/garaga/hints/fake_glv.py:602-642 | each of T1..T16 is the signed combination of P and R' its index stands for |
| FakeGlv.Accumulate | garaga/hydra/garaga/hints/fake_glv.py:594-795 | for all bit lists the two-bit windowed loop ends with s1*P + s2*R' + 3R' |
| FakeGlv.CheckRelation | garaga/hydra/garaga/hints/fake_glv.py:594-805 | within the window the final comparison succeeds exactly when abs(s1)*P + s2*Q = 0; outside it, exactly when the relation of the low bits is zero |
| FakeGlv.HintedRelation | garaga/hydra/garaga/hints/fake_glv.py:575-585 | for a point of order n the computed short vector gives a zero relation exactly for positive scalars |
| FakeGlv.SmallRootIsEnough | garaga/hydra/garaga/hints/fake_glv.py:584-592 | a modulus whose root is at most 2^128 - 4 keeps both parts inside the 128-bit window |
| FakeGlv.MulByHint | garaga/hydra/garaga/hints/fake_glv.py:566-805 | a returned point is scalar*P; ValueError when the gcd reaches the root, AssertionError beyond 256 bits; otherwise success exactly for positive scalars |
| FakeGlv.ScalarMulFakeGlv | garaga/hydra/garaga/hints/fake_glv.py:554-805 | the function as a whole, with infinity for multiples of the order and for the infinite point, and both errors |
| FakeGlv.GetFakeGlvHint | garaga/hydra/garaga/hints/fake_glv.py:284-296 | succeeds exactly without endomorphism, for a positive scalar (0 read as 1) with small gcd; gives scalar*P and a short vector whose second part the contract reads back |
| GlvMul.SelectorIsSigned | garaga/hydra/garaga/hints/fake_glv.py:488-494 | the 4-bit selector picks the combination whose signs are its bits |
| GlvMul.BPointIsSigned | garaga/hydra/garaga/hints/fake_glv.py:371-466 | each of B1..B16, half of them negations, is its signed combination of the four bases |
| GlvMul.MixedCoordinates | garaga/hydra/garaga/hints/fake_glv.py:488-505 | x from the folded selector and y from the full one is the selected point |
| GlvMul.Accumulate | garaga/hydra/garaga/hints/fake_glv.py:391-533 | for all bits the loop with its low-bit corrections ends with 2^(n-1)*G plus the four coefficients times the bases |
| GlvMul.CheckRelation | garaga/hydra/garaga/hints/fake_glv.py:333-541 | the final comparison succeeds exactly when u1*P + u2*Phi(P) + v1*Q + v2*Phi(Q) = 0, for all signs |
| GlvMul.HintedRelation | garaga/hydra/garaga/hints/fake_glv.py:328-333 | a decomposition modulo n makes that relation zero on the curve |
| GlvMul.ScalarMulGlv | garaga/hydra/garaga/hints/fake_glv.py:299-543 | an honest hint is never rejected, the decomposition assertion with 1 for -1 included; the result is scalar*P, or 2*G for a scalar congruent to -1; ValueError for n < 4; up to 79000 bits it returns exactly when 2^(bits of n // 4 + 8) < n and raises AssertionError otherwise |
| GlvMul.SpecialCaseExactly | garaga/hydra/garaga/hints/fake_glv.py:318-320 | the documented result is met exactly when the scalar is not -1 modulo n or -P happens to be 2*G |
| GlvMul.GetGlvFakeGlvHint | garaga/hydra/garaga/hints/fake_glv.py:258-281 | with an endomorphism and n >= 4: scalar*P and the codes of a short non-trivial decomposition of the scalar, or of 1 for -1, which the contract reads back for moduli of at most 348 bits |
| MerkleReference.NodeOffPath | src/module/merkle_tree/tree.rs:53-102 | appending a leaf changes no node off the path of that leaf |
| MerkleReference.NodeBeyondLast | src/module/merkle_tree/constants.rs:23-49 | every node right of the last leaf's ancestor is the zero hash of its level |
| MerkleReference.PathFoldsToAncestor | src/module/merkle_tree/tree.rs:118-143 | folding a node with a path of siblings and direction bits gives the ancestor at the path's end, for all lengths |
| MerkleTree.ZeroTable | src/module/merkle_tree/constants.rs:23-49 | the cached table holds the empty-subtree hash of every level |
| MerkleTree.MerkleStorage.Insert | src/module/merkle_tree/storage.rs:22-24 | stores one hash under (level, index) and changes nothing else |
| MerkleTree.MerkleStorage.Get | src/module/merkle_tree/storage.rs:27-29 | returns the stored hash or nothing |
| MerkleTree.FrontierIsLeftSibling | src/module/merkle_tree/tree.rs:73-79 | at an odd index the frontier entry is the left sibling of the inserted path, and stays so |
| MerkleTree.LevelAfterPathNode | src/module/merkle_tree/tree.rs:60-88 | storing the new path node makes a whole level of the node map agree with the larger tree |
| MerkleTree.AbsentMeansZero | src/module/merkle_tree/tree.rs:128-136 | a missing node of the map is the zero hash in the reference tree, a present one is its node |
| MerkleTree.SlotsAfterInsert | src/module/merkle_tree/tree.rs:92-95 | ring slots other than the one written keep holding the right recent roots |
| MerkleTree.IncrementalMerkleTree.constructor | src/module/merkle_tree/tree.rs:29-50 | the empty tree satisfies the whole invariant |
| MerkleTree.IncrementalMerkleTree.GetZero | src/module/merkle_tree/constants.rs:23-49 | the zero hash of every level up to the root, a panic above |
| MerkleTree.IncrementalMerkleTree.Root | src/module/merkle_tree/tree.rs:105-107 | the current root is that of the full padded tree over all inserted leaves |
| MerkleTree.IncrementalMerkleTree.InsertLevel | src/module/merkle_tree/tree.rs:67-90 | one level of the insertion yields the parent node of the larger tree and keeps frontier and map correct below |
| MerkleTree.IncrementalMerkleTree.PushRoot | src/module/merkle_tree/tree.rs:92-95 | the ring holds the recent roots of the larger tree, across wrap-around |
| MerkleTree.IncrementalMerkleTree.Insert | src/module/merkle_tree/tree.rs:53-102 | appends the leaf and returns the reference root, or panics exactly when the tree is full and then changes nothing; the invariant holds in every reachable state |
| MerkleTree.IncrementalMerkleTree.IsKnownRoot | src/module/merkle_tree/tree.rs:110-115 | true exactly for non-zero roots among those of the last min(30, n+1) states |
| MerkleTree.IncrementalMerkleTree.GetProof | src/module/merkle_tree/tree.rs:118-143 | for every inserted index, old ones included, the path has the reference siblings and folds the leaf to the current root; panics exactly beyond |
| SignedDigits.NafIsCorrect | garaga/hydra/garaga/curves.py:264-268 | digits in -1..1, no two adjacent non-zero, denoting the value, for all integers |
| SignedDigits.NafIsOptimal | garaga/hydra/garaga/curves.py:264-268 | no signed-binary representation of the same value has smaller weight |
| SignedDigits.LeadingPower | garaga/hydra/garaga/curves.py:271-282 | splitting off a leading power of two costs exactly one digit in the stated range |
| SignedDigits.RecodeStep | garaga/hydra/garaga/curves.py:290-300 | one step emits a digit of -1..1, and the pending value loses exactly that digit and its weight |
| SignedDigits.Jy00 | garaga/hydra/garaga/curves.py:271-302 | raises exactly below 2 in absolute value; otherwise length bits + 1, the value modulo 2^bits (the value itself exactly from 2 up), and least weight among all signed representations |
| ValueSegments.ValueSegment.WriteToSegment | garaga/hydra/garaga/modulo_circuit.py:128-135 | stores the item in one slot at the end offset, five wide for a FELT and four otherwise; dictionary, stacks and counter stay consistent with the log |
| ValueSegments.OrderOfStacks | garaga/hydra/garaga/modulo_circuit.py:137-157 | relocation visits the constants, then inputs, commitments, witnesses, felts and last the builtin results |
| ValueSegments.GroupsAreInOrder | garaga/hydra/garaga/modulo_circuit.py:137-217 | every slot of an earlier group ends, with its full width, before every slot of a later one, and slots of one group keep their order |
| ValueSegments.RelocationIsFaithful | garaga/hydra/garaga/modulo_circuit.py:137-217 | relocation rewrites each entry from the offsets assigned before it, at any point of the run |
| ValueSegments.SlotMoves | garaga/hydra/garaga/modulo_circuit.py:137-217 | every slot moves to its new offset with its value and source, and the new segment has no gaps |
| ValueSegments.SlotsStayApart | garaga/hydra/garaga/modulo_circuit.py:137-217 | the offset map is injective and the moved slots do not overlap, limbs included |
| ValueSegments.ValuesMove | garaga/hydra/garaga/modulo_circuit.py:137-217 | looking up a moved offset gives the original value |
| ValueSegments.OperandMoves | garaga/hydra/garaga/modulo_circuit.py:150-185 | a mapped operand resolves to its new offset, an open one to the item itself |
| ValueSegments.InstructionMoves | garaga/hydra/garaga/modulo_circuit.py:150-185 | an instruction becomes the same instruction over the new offsets |
| ValueSegments.RelocatedIsGrouped | garaga/hydra/garaga/modulo_circuit.py:137-150 | the new segment is already in group order, so relocating again would not reorder it |
| ValueSegments.HoldingIsPreserved | garaga/hydra/garaga/modulo_circuit.py:137-217 | an instruction or assertion holds in the new segment exactly when it held in the old one |
| ValueSegments.ValueSegment.NonInteractiveTransform | garaga/hydra/garaga/modulo_circuit.py:137-217 | succeeds exactly when all assertion and output offsets exist; the new segment carries the constants, inputs, commitments, witnesses, felts and builtin results in that order; entries, assertions and outputs are moved consistently |
| ModuloCircuits.ModuloCircuit.WriteElement | garaga/hydra/garaga/modulo_circuit.py:390-413 | a recorded operation and its value extend the circuit; every earlier element stays |
| ModuloCircuits.ModuloCircuit.SetOrGetConstant | garaga/hydra/garaga/modulo_circuit.py:497-504 | each constant is written once and then reused |
| ModuloCircuits.ModuloCircuit.Add | garaga/hydra/garaga/modulo_circuit.py:506-526 | the sum with None read as 0; recorded only when both are present; fails exactly when both are None |
| ModuloCircuits.ModuloCircuit.Mul | garaga/hydra/garaga/modulo_circuit.py:549-567 | the product; a single None gives the constant zero |
| ModuloCircuits.ModuloCircuit.Sub | garaga/hydra/garaga/modulo_circuit.py:583-595 | the result added to b is a, recorded as that sum |
| ModuloCircuits.ModuloCircuit.Neg | garaga/hydra/garaga/modulo_circuit.py:574-581 | the negation, recorded as 0 - a over the zero constant |
| ModuloCircuits.ModuloCircuit.Inv | garaga/hydra/garaga/modulo_circuit.py:597-626 | fails exactly for zero; the product with a is one; a division of the one constant in one mode, an open inverse in the other |
| ModuloCircuits.ModuloCircuit.Div | garaga/hydra/garaga/modulo_circuit.py:628-645 | fails exactly for a zero divisor; b times the result is a; one instruction in one mode, inverse and product in the other |
| ModuloCircuits.ModuloCircuit.SubAndAssert | garaga/hydra/garaga/modulo_circuit.py:776-796 | appends one assertion, in the older mode only; it holds exactly when c + b = a |
| ModuloCircuits.ModuloCircuit.AddAndAssert | garaga/hydra/garaga/modulo_circuit.py:798-818 | appends one assertion, in the older mode only; it holds exactly when a + b = c |
| ModuloCircuits.ModuloCircuit.MulAndAssert | garaga/hydra/garaga/modulo_circuit.py:820-835 | appends one assertion, in the older mode only; it holds exactly when a * b = c |
| ModuloCircuits.ModuloCircuit.EvalHorner | garaga/hydra/garaga/modulo_circuit.py:837-864 | the value of the polynomial at z; fails exactly for the empty list |
| ModuloCircuits.ModuloCircuit.EvalPoly | garaga/hydra/garaga/modulo_circuit.py:866-895 | the same value from precomputed powers, with None coefficients read as zero and the exact error conditions |
| ModuloCircuits.RecordedChecksHold | garaga/hydra/garaga/modulo_circuit.py:506-645 | every instruction recorded in the older mode is true of the recorded values |
| ModuloCircuits.RelocatedChecksHold | garaga/hydra/garaga/modulo_circuit.py:137-217 | and remains true after relocation |
| CairoEmission.WriteInputStack | garaga/hydra/garaga/modulo_circuit.py:1039-1086 | the inputs of a stack are named by consecutive indices, each exactly once and in order, constants one to a line and others up to three |
| CairoEmission.FillConstants | garaga/hydra/garaga/modulo_circuit.py:1088-1119 | the emitted program supplies the values of the constants, in the order written |
| CairoEmission.NamesFollowStacks | garaga/hydra/garaga/modulo_circuit.py:1225-1242 | the k-th constant is the k-th input of the program, the inputs, commitments, witnesses and felts follow in this order, and the k-th builtin result is its k-th temporary |
| CairoEmission.DecodesOriginalCall | garaga/hydra/garaga/modulo_circuit.py:1121-1159 | the offset comparisons recover the add, sub, mul or inverse that was called, with its operands |
| CairoEmission.WriteCircuit | garaga/hydra/garaga/modulo_circuit.py:1121-1159 | the emission loop yields the gates and names of the decoding function, or its error |
| CairoEmission.EmitsOriginalCalls | garaga/hydra/garaga/modulo_circuit.py:1121-1159 | emission succeeds, every line is the original call, and it refers only to names already defined |
| CairoEmission.ProgramMeansCircuit | garaga/hydra/garaga/modulo_circuit.py:1121-1159 | for all assignments, the program computes them exactly when they satisfy every recorded operation |
| CairoEmission.ProgramComputesRecordedValues | garaga/hydra/garaga/modulo_circuit.py:1121-1159 | on the recorded inputs the program computes the recorded value at every offset |
| CairoEmission.OutputsAreNamed | garaga/hydra/garaga/modulo_circuit.py:1247-1259 | the emitted outputs are exactly the outputs written by builtin instructions, in order, under the right names |
| CairoEmission.OutputsAreCompleteExactly | garaga/hydra/garaga/modulo_circuit.py:1247-1259 | as many outputs are emitted as the circuit has exactly when a builtin instruction wrote every one |
| CairoEmission.ConstantOutputIsDropped | garaga/hydra/garaga/modulo_circuit.py:1247-1259 | a circuit whose only output is a constant emits none |
| CairoEmission.CompileCircuit | garaga/hydra/garaga/modulo_circuit.py:921-936 | relocation followed by emission gives such a program for every recorded circuit with an instruction: constants first, run on its own constants and the recorded inputs it computes the recorded results |
| Polynomials.CoefAdd | garaga/hydra/garaga/algebra.py:570-595 | addition is coefficientwise for all lengths |
| Polynomials.CoefSub | garaga/hydra/garaga/algebra.py:609-635 | so is subtraction |
| Polynomials.TimesIsAssociative | garaga/hydra/garaga/algebra.py:637-699 | the convolution product is associative |
| Polynomials.ValueOfProduct | garaga/hydra/garaga/algebra.py:637-699 | evaluation is multiplicative |
| PolynomialAlgorithms.Mul | garaga/hydra/garaga/algebra.py:637-699 | the buffer loops, zero rows skipped, compute the convolution product, trimmed |
| PolynomialAlgorithms.Trim | garaga/hydra/garaga/algebra.py:532-538 | trailing zeros go, the polynomial stays |
| PolynomialAlgorithms.DegreeDrops | garaga/hydra/garaga/algebra.py:741-775 | subtracting the scaled divisor lowers the degree |
| PolynomialAlgorithms.DivMod | garaga/hydra/garaga/algebra.py:721-775 | raises exactly for the zero divisor; otherwise p = q*den + rem with deg rem < deg den |
| PolynomialRing.ExactQuotient | garaga/hydra/garaga/algebra.py:713-715 | floor division of a multiple of den gives the cofactor |
| PolynomialRing.DegreeOfProduct | garaga/hydra/garaga/algebra.py:637-699 | degrees add |
| PolynomialRing.RootIsFactor | garaga/hydra/garaga/algebra.py:821-830 | a polynomial that evaluates to zero at z is a multiple of x - z |
| PolynomialAlgorithms.Xgcd | garaga/hydra/garaga/algebra.py:876-915 | raises exactly when both are zero; otherwise a monic common divisor with a*x + b*y = g |
| PolynomialAlgorithms.GcdOfInvertible | garaga/hydra/garaga/algebra.py:857-873 | x is invertible modulo m exactly when the gcd has degree 0, and a is then its inverse |
| PolynomialAlgorithms.Inv | garaga/hydra/garaga/algebra.py:857-873 | succeeds exactly for invertible x and returns an inverse, with both error kinds |
| PolynomialAlgorithms.Evaluate | garaga/hydra/garaga/algebra.py:821-830 | the sum of coefficients times powers |
| PolynomialAlgorithms.LagrangeInterpolation | garaga/hydra/garaga/algebra.py:918-950 | succeeds exactly for equally many values and distinct points; degree below their number and the given value at every point |
| ExtensionField.EvalSparse | garaga/hydra/garaga/extension_field_modulo_circuit.py:209-292 | the recorded value is that of the polynomial the sparsity encodes; fails exactly for unknown codes or an all-zero sparsity |
| ExtensionField.CreatePowers | garaga/hydra/garaga/extension_field_modulo_circuit.py:186-207 | the first n powers of z |
| ExtensionField.AccurateExactly | garaga/hydra/garaga/extension_field_modulo_circuit.py:414-426 | the check of the factors passes exactly when the sparsity encodes the elements themselves |
| ExtensionField.UpdateLhs | garaga/hydra/garaga/extension_field_modulo_circuit.py:407-466 | adds c * product of the P_i(z), exactly when the factor sparsities are accurate; returns P_0(z) |
| ExtensionField.RCheckIsExact | garaga/hydra/garaga/extension_field_modulo_circuit.py:503-510 | the check of R passes exactly when every coefficient not marked as a one is encoded unchanged; a torus squaring always passes |
| ExtensionField.UpdateRhs | garaga/hydra/garaga/extension_field_modulo_circuit.py:468-533 | adds c * R(z) with R as encoded, into the polynomial part, or into the evaluated part exactly when the next first factor is R; fails exactly for a wrong zero in the sparsity |
| ExtensionField.CombineQuotients | garaga/hydra/garaga/extension_field_modulo_circuit.py:552-575 | the combined quotient is the combination of the quotients coefficient by coefficient, trimmed, and so at every point |
| ExtensionField.CombinationHolds | garaga/hydra/garaga/extension_field_modulo_circuit.py:593-631 | if each identity holds at z, so does their combination, for all coefficients |
| ExtensionField.WriteSparseConstants | garaga/hydra/garaga/modulo_circuit.py:480-495 | the constants and sparsity written for a coefficient list encode that list |
| ExtensionField.CheckIdentities | garaga/hydra/garaga/extension_field_modulo_circuit.py:593-638 | one accumulator: success exactly when sparsities are accurate and the combination balances, leaving one true assertion |
| ExtensionField.SoundHoldsAt | garaga/hydra/garaga/extension_field_modulo_circuit.py:468-533 | a polynomial identity holds at every z in the form the accumulator uses |
| ExtensionField.SoundBalances | garaga/hydra/garaga/extension_field_modulo_circuit.py:535-639 | identities that hold as polynomials balance for every c0 and z |
| ExtensionField.ExtensionFieldModuloCircuit.constructor | garaga/hydra/garaga/extension_field_modulo_circuit.py:67-124 | two empty accumulators, trivially sound |
| ExtensionField.ExtensionFieldModuloCircuit.ExtfMul | garaga/hydra/garaga/extension_field_modulo_circuit.py:294-333 | records the identity of a true product hint; every recorded identity stays one of polynomials; exact assertion conditions |
| ExtensionField.ExtensionFieldModuloCircuit.ExtfDiv | garaga/hydra/garaga/extension_field_modulo_circuit.py:335-355 | records (x/y)*y = x and returns x/y |
| ExtensionField.ExtensionFieldModuloCircuit.ExtfInv | garaga/hydra/garaga/extension_field_modulo_circuit.py:357-386 | records the one identity (1/y)*y = 1, with the mocked one and its sparsity, and returns 1/y |
| ExtensionField.ExtensionFieldModuloCircuit.Finalize | garaga/hydra/garaga/extension_field_modulo_circuit.py:535-639 | succeeds exactly when every accumulator in use balances, hence for every c0 and z after any sequence of the recorders above |
| BatchSoundness.BatchIsSound | garaga/hydra/garaga/extension_field_modulo_circuit.py:535-639 | n identities that balance at z for n distinct non-zero values of c0 each hold at z |
| BatchSoundness.IdentityIsSound | garaga/hydra/garaga/extension_field_modulo_circuit.py:468-533 | an identity that holds at as many distinct points as the difference of its sides has coefficients holds as polynomials |
| AddChainSyntax.Tokenize | garaga/tools/addchain/gen_rust_addchain.py:53-84 | the index loop yields the tokens of the recursive definition, or ValueError |
| AddChainTokens.LexExactly | garaga/tools/addchain/gen_rust_addchain.py:53-84 | the tokenizer gives a token list exactly for the texts that spell it, white space between tokens optional wherever two do not run together |
| AddChainTokens.NumeralOfConcat | garaga/tools/addchain/gen_rust_addchain.py:61-69 | digits are read as a decimal number, most significant first |
| AddChainTokens.TokenizingUndoesWriting | garaga/tools/addchain/gen_rust_addchain.py:53-84 | tokens written with spaces are read back |
| AddChainSyntax.Parser.ParseAll | garaga/tools/addchain/gen_rust_addchain.py:87-176 | the position-based descent terminates on every token list and computes the grammar function, or ValueError; trailing tokens are rejected |
| AddChainGrammar.ParsesTree | garaga/tools/addchain/gen_rust_addchain.py:124-176 | the tokens of every grammar tree parse to the expression of that tree |
| AddChainGrammar.AcceptsExactly | garaga/tools/addchain/gen_rust_addchain.py:87-176 | a token list is accepted if and only if it is that of a grammar tree |
| AddChainGrammar.ParsedMeaning | garaga/tools/addchain/gen_rust_addchain.py:124-176 | the parsed expression denotes the integer of the tree: 2*x is twice x, and in t << k + u << l the second shift applies to the whole sum |
| AddChainGrammar.UnparenthesizedForms | garaga/tools/addchain/gen_rust_addchain.py:138-163 | 2*x is x shifted by 1, and x << k + y << l is their sum shifted by l |
| AddChainGrammar.TextMeaning | garaga/tools/addchain/gen_rust_addchain.py:179-181 | from the text: any spelling of a grammar tree is read as that tree and denotes its integer |
| AddChainGrammar.ParsingUndoesPrinting | garaga/tools/addchain/gen_rust_addchain.py:124-176 | every expression is parsed back from its printed tokens |
| AddChainGrammar.ReadingUndoesWriting | garaga/tools/addchain/gen_rust_addchain.py:179-181 | every expression with ordinary names is read back from its text |
| AddChainEmitter.Emitter.EmitExpr | garaga/tools/addchain/gen_rust_addchain.py:211-227 | appends the lines of the pure translation and advances the counter past its temporaries |
| AddChainEmitter.EmitsLeftFirst | garaga/tools/addchain/gen_rust_addchain.py:211-227 | the left operand is emitted before the right one, temporaries counted up from 0 |
| AddChainEmitter.Emitter.EmitAssignment | garaga/tools/addchain/gen_rust_addchain.py:229-237 | restarts the counter and yields a clone or a block |
| AddChainEmitter.EmitChainFunction | garaga/tools/addchain/gen_rust_addchain.py:240-248 | one assignment per definition, then the result |
| AddChainEmitter.BodyIsPower | garaga/tools/addchain/gen_rust_addchain.py:240-248 | for any code and any names: the run over a monoid is base to the run over the integers, and stops exactly when that does |
| AddChainEmitter.EmitIsCorrect | garaga/tools/addchain/gen_rust_addchain.py:211-227 | without captured reads the lines of an expression compute its integer, and fail exactly when it uses an undefined variable |
| AddChainEmitter.CapturedIsWrong | garaga/tools/addchain/gen_rust_addchain.py:206-227 | with positive shifts, a captured read makes the result strictly too large where every variable is 1 and base, if defined, 2 |
| AddChainEmitter.CaptureFreeExactly | garaga/tools/addchain/gen_rust_addchain.py:206-237 | with positive shifts and all variables defined, the code is right for all their values if and only if no read is captured |
| AddChainEmitter.CopyMayCapture | garaga/tools/addchain/gen_rust_addchain.py:220-226 | with a shift by 0 a captured read can be harmless |
| AddChainEmitter.DefinitionsAreCorrect | garaga/tools/addchain/gen_rust_addchain.py:240-248 | after any number of definitions every name holds its integer; the code is defined exactly when the definitions are |
| AddChainEmitter.ChainIsCorrect | garaga/tools/addchain/gen_rust_addchain.py:240-248 | without captured reads the emitted function returns base^N over every monoid, N > 0 the integer of the return expression |
| AddChainEmitter.TempNamesCollide | garaga/tools/addchain/gen_rust_addchain.py:206-227 | a chain with a variable named like a temporary denotes 6 and computes the fourth power |
| AddChainEmitter.BaseIsRebound | garaga/tools/addchain/gen_rust_addchain.py:211-215 | a chain with a variable named base denotes 2 and computes the fourth power |
| Neg3.Neg3BaseLe | garaga/hydra/garaga/hints/neg_3.py:1-22 | digits in -1..1 whose base -3 sum is the scalar, without a leading zero, for all integers |
| Neg3.ConstructDigitVectors | garaga/hydra/garaga/hints/neg_3.py:25-31 | a matrix as high as the longest digit list whose columns denote the scalars; ValueError exactly for no scalars |
| Neg3.MultiplicitiesDiffer | garaga/hydra/garaga/hints/neg_3.py:34-39 | ep - en is the scalar |
| FunctionField.Multiply | garaga/hydra/garaga/hints/ecip.py:401-421 | the buffer loops, zero coefficients skipped, compute the product of the functions on the curve |
| FunctionField.PoleOfProduct | garaga/hydra/garaga/hints/ecip.py:401-421 | pole orders at infinity add over the cubic, so a product of non-zero functions is not zero |
| FunctionField.Reduce | garaga/hydra/garaga/hints/ecip.py:431-453 | always two coefficients, those of the loop that squares y^2 at odd places |
| FunctionField.ReduceIsRight | garaga/hydra/garaga/hints/ecip.py:431-453 | up to six coefficients that is the function itself |
| FunctionField.ReduceIsRightExactly | garaga/hydra/garaga/hints/ecip.py:431-453 | reduction is right for all lists of n coefficients if and only if n <= 6 |
| FunctionField.DivByPoly | garaga/hydra/garaga/hints/ecip.py:462-463 | floor quotients of the coefficients; raises exactly for the zero polynomial |
| FunctionField.QuotientIsExact | garaga/hydra/garaga/hints/ecip.py:462-463 | for a multiple of the polynomial they are the cofactor |
| CurveDivisors.LineFails | garaga/hydra/garaga/hints/ecip.py:298-344 | raises exactly for the tangent at a finite point that is its own negative |
| CurveDivisors.LineIsVertical | garaga/hydra/garaga/hints/ecip.py:335-336 | through a point and its negative the line is one coefficient, x - x(P), or 1 at infinity |
| CurveDivisors.TangentIsDouble | garaga/hydra/garaga/hints/ecip.py:327-333 | a line through A with slope (3x^2 + a)/(2y) meets the curve doubly at A, from the curve equation |
| CurveDivisors.SlopedLineMeets | garaga/hydra/garaga/hints/ecip.py:319-344 | otherwise the line is y - (mx + i) and meets the curve exactly in the two points, a double one for the tangent, and minus their sum |
| CurveDivisors.DivOfLine | garaga/hydra/garaga/hints/ecip.py:298-344 | whenever a line is returned, its divisor is the two points and minus their sum |
| LocalOrders.OrdOfLine | garaga/hydra/garaga/hints/ecip.py:298-344 | on every smooth curve a line vanishes at each point as often as the point is among its three intersections |
| VanishingOrders.UniquenessLaw | garaga/hydra/garaga/hints/ecip.py:477-514 | on every smooth curve functions with the same given zeros are multiples of each other |
| VanishingOrders.SmoothCurveHasDivisors | garaga/hydra/garaga/hints/ecip.py:477-514 | every smooth curve with collinear addition satisfies the divisor laws assumed of a curve, orders of vanishing being the divisors |
| Instances.TangentOfThreePoints | garaga/hydra/garaga/hints/ecip.py:327-333 | the tangent to y^2 = x^3 + 4x + 2 modulo 5 at (3, 1) is y = 3x + 2 |
| CurveDivisors.VerticalDivides | garaga/hydra/garaga/hints/ecip.py:503-504 | a function whose divisor contains P and -P is a multiple of x - x(P), because both its coefficients vanish there |
| CurveDivisors.TwoVerticalsDivide | garaga/hydra/garaga/hints/ecip.py:503-504 | the same for the product of two vertical lines, equal ones included |
| Interpolation.Numerator | garaga/hydra/garaga/hints/ecip.py:499-502 | at most four coefficients arise, so the reduced product is the product on the curve |
| Interpolation.Denominator | garaga/hydra/garaga/hints/ecip.py:503 | the product of two verticals is one coefficient, so to_poly never fails |
| Interpolation.DivisionIsExact | garaga/hydra/garaga/hints/ecip.py:502-504 | the numerator is a multiple of the denominator; what both partial results owe adds up and stays without poles |
| Interpolation.Merge | garaga/hydra/garaga/hints/ecip.py:496-505 | raises exactly where a point is its own negative; otherwise points and debts add |
| Interpolation.MergeRound | garaga/hydra/garaga/hints/ecip.py:487-510 | a round keeps the sum of the points and of the debts; it adds neighbours in pairs and moves the odd first one to the end |
| Interpolation.NoTorsionToAvoid | garaga/hydra/garaga/hints/ecip.py:487-510 | without points of order two no tangent is ever vertical |
| Interpolation.ConstructFunction | garaga/hydra/garaga/hints/ecip.py:477-514 | success and each exception under an exact condition, in the order of the checks; the result has exactly the given points as divisor and constant coefficient 1 |
| Interpolation.ConstantsAgree | garaga/hydra/garaga/hints/ecip.py:465-470 | of the functions with one divisor all or none have a zero constant coefficient |
| Interpolation.NormalizedIsUnique | garaga/hydra/garaga/hints/ecip.py:465-470 | exactly one has constant coefficient 1, so the order of the points does not matter |
| Ecip.RowSumsToInfinity | garaga/hydra/garaga/hints/ecip.py:517-541 | the list built for a digit row always sums to infinity, so the assertion holds |
| Ecip.RowFunction | garaga/hydra/garaga/hints/ecip.py:517-541 | raises exactly for an empty row, a vertical tangent or a vanishing constant coefficient; the new point is -3Q plus the signed points, the function's divisor is the row's list |
| Ecip.EcipFunctions | garaga/hydra/garaga/hints/ecip.py:544-556 | the loop over the rows, most significant first and reversing its argument in place, ends with the Horner point and one function per row, or with the first failing row's exception |
| Ecip.HornerIsMultiScalar | garaga/hydra/garaga/hints/ecip.py:544-556 | the Horner point of a digit matrix is the multi-scalar sum of its column values |
| Ecip.HornerDivisorIsMultiplicities | garaga/hydra/garaga/hints/ecip.py:544-556 | the combined divisor of the rows counts each point and its negative with the positive and negative multiplicities |
| Ecip.ZkEcipHint | garaga/hydra/garaga/hints/ecip.py:121-169 | succeeds exactly when no digit row fails; Q is the multi-scalar product, and the functions certify it: combined divisor -Q plus each base point and its negative at multiplicities differing by the scalar |
| Ecip.SinglePointFails | garaga/hydra/garaga/hints/ecip.py:121-169 | for one point of order other than two and scalar 1 it raises ValueError if and only if x(P) = 0 |

## Left out

* Groups, fields and hash functions are abstract; their laws are hypotheses. Curve
  constants, primality and collision resistance are not modelled.
* Merkle tree: the depth is any number (20 in the source); `u32` and `usize` widths, which indices
  below 2^20 never reach; the one-time initialisation of the zero table; Poseidon itself.
* Eisenstein integers: type errors, printing, and the sugar operators of eisenstein.py:217-221.
* Fake GLV: coordinates as raw integers and the older `half_gcd` wrapper (fake_glv.py:31-50).
* Value segment: output structs, the names, comments and debug printing; the per-source dictionaries of items are
  sequences of entries in the order written.
* Modular circuits: Cairo text, structs and limbs; the arrays of `compile_circuit_cairo_zero`;
  square roots, zero tests and the vector helpers; the 31-character limit on names. Mocked elements
  (offset -1) are excluded as operands, as modulo_circuit.py:486-492 asks.
* `compile_circuit_cairo_1`: the path returning structs and explicitly requested references.
* Extension-field circuits: the transcript hash, whose outputs c0 and z are parameters
  (and the range test on c0 with them); the field
  hints, taken by what their Python docstrings promise; the newer compilation mode, in which
  `finalize_circuit` always stops at the assertion of `write_cairo_native_felt`
  (modulo_circuit.py:469-472); `create_lines_z_powers`; powers of z beyond those needed; `square_torus`, whose instructions are in the
  model but whose recorder is not; operation counters and the accumulators' state after the end.
* Polynomials: quadratic-extension coefficients are another instance of the field; powers,
  derivatives, rational functions and coefficient type checks.
* Addition chains: splitting the chain file into lines, the Rust text, characters beyond ASCII and
  Python's recursion limit.
* Function-field certificates: that the points of the curve are a commutative group in which three collinear
  points add up to infinity, that coordinates name every point of the curve once, and that the curve is smooth,
  are hypotheses. The divisor laws (`HasDivisors`) follow from them (`SmoothCurveHasDivisors`). The
  logarithmic derivatives of the functions (ecip.py:164-168, 559-640), the Rust path and `verify_ecip`
  are not modelled.
- ExtensionField.CheckIdentities: the accumulator length must equal the length of every R, because the zip in the source would otherwise silently drop coefficients.
- ExtensionField.ExtensionFieldModuloCircuit.ExtfMul: sparsity lists are as long as their polynomials.
- Ecip.ZkEcipHint: the multiplicities ep and en are ghost results, because the source computes them in its verifier.
- AddChainEmitter.CaptureFreeExactly: shifts by 0 are excluded, because a captured temporary may then equal the variable it hides, and so are undefined variables, because the code and the chain may both fail whatever else is captured.
- Interpolation.ConstructFunction: coordinates come from a field of characteristic other than two.
- CairoEmission.WriteCircuit: which exception stops the emission is left to the decoding function; no recorded circuit raises one.
- GlvMul.ScalarMulGlv: success for more than 79000 bits is not claimed, because the step limit of half_gcd may then be reached.
